/**
 * The status line shown under the camera view, derived from the stability counter,
 * whether a face was accepted on the last tick, and whether the face model is loaded.
 */
module StatusDisplay {
  import opened Stability

  const LOADING_STATUS: string := "Loading face model..."
  const ALIGN_STATUS: string := "Align face within frame"
  const HOLD_STATUS: string := "Hold steady to capture"
  const PROGRESS_PREFIX: string := "Hold steady... "

  /**
   * Rounding to the nearest integer with halves going up (the behaviour of
   * JavaScript's `Math.round` on exact values).
   */
  function Round(x: real): (r: int)
    ensures r as real <= x + 0.5 < r as real + 1.0
    ensures x >= 0.0 ==> r >= 0
  {
    (x + 0.5).Floor
  }

  /** The progress percentage `round(counter / threshold * 100)`. */
  function Progress(counter: int): (p: int)
    ensures counter >= 0 ==> p >= 0
  {
    Round(counter as real / STABILITY_THRESHOLD as real * 100.0)
  }

  /**
   * With a threshold of 20 no rounding happens: the percentage is five times the
   * counter, so 5..95 for a counter strictly between 0 and the threshold.
   */
  lemma ProgressIsFivePerTick(counter: int)
    ensures Progress(counter) == 5 * counter
    ensures 0 < counter < STABILITY_THRESHOLD ==> 5 <= Progress(counter) <= 95
  {
    var x := counter as real / STABILITY_THRESHOLD as real * 100.0;
    assert x == (5 * counter) as real;
    var r := Round(x);
    assert (5 * counter) as real <= r as real + 0.5;
    assert r as real <= (5 * counter) as real + 0.5;
  }

  predicate IsDigit(ch: char) { '0' <= ch <= '9' }

  function DigitChar(d: nat): (ch: char)
    requires d < 10
    ensures IsDigit(ch)
  {
    "0123456789"[d]
  }

  function DigitValue(ch: char): (d: nat)
    requires IsDigit(ch)
    ensures d < 10
  {
    (ch as int - '0' as int) as nat
  }

  /** Decimal text of a number, as a template literal prints it: digits, no leading zero. */
  function NatToString(n: nat): (s: string)
    ensures |s| >= 1
    ensures forall i :: 0 <= i < |s| ==> IsDigit(s[i])
    ensures |s| > 1 ==> s[0] != '0'
    decreases n
  {
    if n < 10 then [DigitChar(n)] else NatToString(n / 10) + [DigitChar(n % 10)]
  }

  /** Reading decimal digits back into a number. */
  function ParseNat(s: string): nat
    requires forall i :: 0 <= i < |s| ==> IsDigit(s[i])
    decreases |s|
  {
    if s == [] then 0 else ParseNat(s[..|s| - 1]) * 10 + DigitValue(s[|s| - 1])
  }

  /** The printed percentage can be read back as the number that was printed. */
  lemma {:induction false} ParseNatToString(n: nat)
    ensures ParseNat(NatToString(n)) == n
    decreases n
  {
    var s := NatToString(n);
    if n >= 10 {
      assert s[..|s| - 1] == NatToString(n / 10);
      ParseNatToString(n / 10);
    }
    assert DigitValue(DigitChar(n % 10)) == n % 10 by {
      var d := n % 10;
      assert "0123456789"[d] as int == '0' as int + d;
    }
  }

  /**
   * The status after a state change: progress while the counter is positive, otherwise
   * a hold-steady prompt while a face is accepted, otherwise the align prompt once the
   * model is loaded; with none of these the previous status stays.
   */
  function Status(current: string, counter: int, detected: bool, modelLoaded: bool): (r: string)
    ensures !(counter > 0 || detected || modelLoaded) ==> r == current
    ensures counter > 0 ==> |r| > |PROGRESS_PREFIX| && r[..|PROGRESS_PREFIX|] == PROGRESS_PREFIX && r[|r| - 1] == '%'
  {
    if counter > 0 then PROGRESS_PREFIX + NatToString(Progress(counter)) + "%"
    else if detected then HOLD_STATUS
    else if modelLoaded then ALIGN_STATUS
    else current
  }

  /** Re-running the status update with the same inputs changes nothing. */
  lemma StatusIdempotent(current: string, counter: int, detected: bool, modelLoaded: bool)
    ensures Status(Status(current, counter, detected, modelLoaded), counter, detected, modelLoaded)
            == Status(current, counter, detected, modelLoaded)
  {
  }

  /** Once the model is loaded the status no longer depends on what it was before. */
  lemma StatusIgnoresPreviousWhenLoaded(a: string, b: string, counter: int, detected: bool)
    ensures Status(a, counter, detected, true) == Status(b, counter, detected, true)
  {
  }

  /**
   * Once the model is loaded the status tells the state apart: it is a progress
   * message exactly while the counter is positive, the hold prompt exactly when the
   * counter is 0 and a face is accepted, and the align prompt exactly when the counter is 0
   * and no face is accepted.
   */
  lemma StatusReflectsState(current: string, counter: int, detected: bool)
    requires counter >= 0
    ensures var r := Status(current, counter, detected, true);
      (|r| > |PROGRESS_PREFIX| && r[..|PROGRESS_PREFIX|] == PROGRESS_PREFIX <==> counter > 0) &&
      (r == HOLD_STATUS <==> counter == 0 && detected) &&
      (r == ALIGN_STATUS <==> counter == 0 && !detected)
  {
    var r := Status(current, counter, detected, true);
    assert HOLD_STATUS[..|PROGRESS_PREFIX|] != PROGRESS_PREFIX by {
      assert HOLD_STATUS[12] != PROGRESS_PREFIX[12];
    }
    assert ALIGN_STATUS[..|PROGRESS_PREFIX|] != PROGRESS_PREFIX by {
      assert ALIGN_STATUS[0] != PROGRESS_PREFIX[0];
    }
    if counter > 0 {
      assert r != HOLD_STATUS && r != ALIGN_STATUS by {
        assert r[..|PROGRESS_PREFIX|] == PROGRESS_PREFIX;
      }
    } else {
      assert HOLD_STATUS != ALIGN_STATUS by {
        assert HOLD_STATUS[0] != ALIGN_STATUS[0];
      }
    }
  }

  /** Once the model is loaded the loading message never comes back. */
  lemma LoadedStatusIsNeverLoading(current: string, counter: int, detected: bool)
    ensures Status(current, counter, detected, true) != LOADING_STATUS
  {
    var r := Status(current, counter, detected, true);
    assert r[0] != LOADING_STATUS[0];
  }

  /**
   * During a hold the status shows five percent per tick, and the number it shows is
   * at most 95: the threshold itself is never displayed, because the counter is reset
   * on the tick that reaches it.
   */
  lemma HoldStatusShowsFivePerTick(current: string, counter: int, detected: bool, modelLoaded: bool)
    requires 0 < counter < STABILITY_THRESHOLD
    ensures Status(current, counter, detected, modelLoaded) == PROGRESS_PREFIX + NatToString(5 * counter) + "%"
    ensures ParseNat(NatToString(5 * counter)) == 5 * counter <= 95
  {
    ProgressIsFivePerTick(counter);
    ParseNatToString(5 * counter);
  }
}
