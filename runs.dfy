/**
 * Sequences of ticks: the loop of the face detector run over a sequence of frames,
 * one tick per frame, in order, and what such runs guarantee.
 */
module Runs {
  import opened Wrappers
  import opened Geometry
  import opened Stability
  import opened StatusDisplay
  import opened Tick

  /** A capture: the tick it fired on (counted from 1) and its crop rectangle. */
  datatype Capture = Capture(tick: nat, crop: Crop)

  /** The state after a run of ticks, their outcomes, and the captures they fired. */
  datatype Trace = Trace(final: State, outcomes: seq<Outcome>, captures: seq<Capture>)

  /** A trace extended by the tick numbered `tick`. */
  function Extend(p: Trace, r: TickResult, tick: nat): Trace
  {
    Trace(r.state, p.outcomes + [r.outcome],
          if r.capture.Some? then p.captures + [Capture(tick, r.capture.value)] else p.captures)
  }

  /** A sequence of ticks from state `s`, one per frame, in order. */
  function Run(s: State, frames: seq<Frame>): (t: Trace)
    ensures |t.outcomes| == |frames|
    decreases |frames|
  {
    if frames == [] then Trace(s, [], [])
    else
      var p := Run(s, frames[..|frames| - 1]);
      Extend(p, StepTick(p.final, frames[|frames| - 1]), |frames|)
  }

  /** One more frame extends a run by one tick. */
  lemma RunSnoc(s: State, frames: seq<Frame>, f: Frame)
    ensures Run(s, frames + [f]) == Extend(Run(s, frames), StepTick(Run(s, frames).final, f), |frames| + 1)
  {
    assert (frames + [f])[..|frames|] == frames;
  }

  /** The ticks of a list of captures, in order. */
  function CaptureTicks(cs: seq<Capture>): seq<nat>
  {
    seq(|cs|, i requires 0 <= i < |cs| => cs[i].tick)
  }

  /**
   * A run's counter is the counter of its outcomes: the final counter and the ticks on
   * which captures fired are those of `CounterRun` over the outcomes of the ticks.
   */
  lemma {:induction false} RunFollowsCounter(s: State, frames: seq<Frame>)
    ensures Run(s, frames).final.counter == CounterRun(s.counter, Run(s, frames).outcomes).count
    ensures CaptureTicks(Run(s, frames).captures) == CounterRun(s.counter, Run(s, frames).outcomes).fireTicks
    decreases |frames|
  {
    if frames != [] {
      var pre, f := frames[..|frames| - 1], frames[|frames| - 1];
      assert frames == pre + [f];
      RunSnoc(s, pre, f);
      RunFollowsCounter(s, pre);
      var p := Run(s, pre);
      var os := Run(s, frames).outcomes;
      assert os[..|os| - 1] == p.outcomes;
      TickContract(p.final, f);
    }
  }

  /**
   * Over any run from a state whose counter is in `[0, 20)` the counter stays there,
   * and the captures come in tick order, at most one per tick.
   */
  lemma RunKeepsCounterInRange(s: State, frames: seq<Frame>)
    requires 0 <= s.counter < STABILITY_THRESHOLD
    ensures 0 <= Run(s, frames).final.counter < STABILITY_THRESHOLD
    ensures forall i :: 0 <= i < |Run(s, frames).captures| ==> 1 <= Run(s, frames).captures[i].tick <= |frames|
    ensures forall i, j :: 0 <= i < j < |Run(s, frames).captures| ==>
              Run(s, frames).captures[i].tick < Run(s, frames).captures[j].tick
  {
    var t := Run(s, frames);
    RunFollowsCounter(s, frames);
    CounterRunInRange(s.counter, t.outcomes);
    FireTicksIncreasing(s.counter, t.outcomes);
    var ticks := CounterRun(s.counter, t.outcomes).fireTicks;
    assert forall i :: 0 <= i < |t.captures| ==> t.captures[i].tick == ticks[i];
  }

  /** Every capture of a list crops the same rectangle. */
  predicate AllCrop(cs: seq<Capture>, c: Crop)
  {
    forall i :: 0 <= i < |cs| ==> cs[i].crop == c
  }

  /**
   * Holding the same accepted face still for `n` ticks, from a state whose smoothed
   * centre is unset or already at that face's centre, makes every tick still, and
   * every capture crops that face.
   */
  lemma {:induction false} HoldIsStill(s: State, predictions: seq<Prediction>, width: nat, height: nat, n: nat)
    requires BestFace(predictions, width, height).Some?
    requires s.smoothed.None? || s.smoothed == Some(Center(BestFace(predictions, width, height).value))
    ensures Run(s, Repeat(Ready(predictions, width, height), n)).outcomes == Repeat(Still, n)
    ensures n > 0 ==> Run(s, Repeat(Ready(predictions, width, height), n)).final.smoothed ==
                        Some(Center(BestFace(predictions, width, height).value))
    ensures AllCrop(Run(s, Repeat(Ready(predictions, width, height), n)).captures,
                    CropOf(BestFace(predictions, width, height).value, width, height))
  {
    if n > 0 {
      var f := Ready(predictions, width, height);
      var crop := CropOf(BestFace(predictions, width, height).value, width, height);
      assert Repeat(f, n) == Repeat(f, n - 1) + [f];
      RunSnoc(s, Repeat(f, n - 1), f);
      HoldIsStill(s, predictions, width, height, n - 1);
      var p := Run(s, Repeat(f, n - 1));
      StillFaceTick(p.final, predictions, width, height);
      var r := StepTick(p.final, f);
      assert Repeat(Still, n - 1) + [Still] == Repeat(Still, n);
      ExtendStill(p, r, n, crop);
    }
  }

  /** A still tick whose capture, if any, crops `crop` keeps every capture cropping `crop`. */
  lemma ExtendStill(p: Trace, r: TickResult, tick: nat, crop: Crop)
    requires r.outcome == Still && (r.capture.Some? ==> r.capture.value == crop)
    requires AllCrop(p.captures, crop)
    ensures Extend(p, r, tick).outcomes == p.outcomes + [Still]
    ensures AllCrop(Extend(p, r, tick).captures, crop)
  {
    if r.capture.Some? {
      var cs := p.captures + [Capture(tick, r.capture.value)];
      assert forall i :: 0 <= i < |cs| ==> cs[i] == if i < |p.captures| then p.captures[i] else Capture(tick, crop);
    }
  }

  /**
   * Holding the same accepted face still for `n` ticks from counter `c` fires
   * `(c + n) / 20` captures: one per crossing of the threshold, exactly on the ticks `t`
   * where `c + t` is a multiple of 20, each cropping that face, and leaves the counter at
   * `(c + n) % 20`.
   */
  lemma HoldCapturesOncePerCrossing(s: State, predictions: seq<Prediction>, width: nat, height: nat, n: nat)
    requires BestFace(predictions, width, height).Some?
    requires s.smoothed.None? || s.smoothed == Some(Center(BestFace(predictions, width, height).value))
    requires 0 <= s.counter < STABILITY_THRESHOLD
    ensures var t := Run(s, Repeat(Ready(predictions, width, height), n));
      t.final.counter == (s.counter + n) % 20 &&
      |t.captures| == (s.counter + n) / 20 &&
      AllCrop(t.captures, CropOf(BestFace(predictions, width, height).value, width, height)) &&
      OnCrossings(t.captures, s.counter, n)
  {
    var frames := Repeat(Ready(predictions, width, height), n);
    HoldIsStill(s, predictions, width, height, n);
    RunFollowsCounter(s, frames);
    HoldTrace(Run(s, frames), s.counter, n);
  }

  /**
   * Over `n` ticks from counter `c`, the captures fire exactly on the ticks `t` where
   * `c + t` is a multiple of 20: every capture is on such a tick, and every such tick
   * has a capture.
   */
  predicate OnCrossings(cs: seq<Capture>, c: int, n: nat)
  {
    (forall i :: 0 <= i < |cs| ==> (c + cs[i].tick) % STABILITY_THRESHOLD == 0) &&
    (forall t :: 1 <= t <= n && (c + t) % STABILITY_THRESHOLD == 0 ==> t in CaptureTicks(cs))
  }

  /**
   * A trace of `n` still ticks that follows the counter from `c` ends at `(c + n) % 20`
   * and captured exactly on the ticks where `c + t` is a multiple of 20.
   */
  lemma HoldTrace(t: Trace, c: int, n: nat)
    requires 0 <= c < STABILITY_THRESHOLD
    requires t.outcomes == Repeat(Still, n)
    requires t.final.counter == CounterRun(c, t.outcomes).count
    requires CaptureTicks(t.captures) == CounterRun(c, t.outcomes).fireTicks
    ensures t.final.counter == (c + n) % 20
    ensures |t.captures| == (c + n) / 20
    ensures OnCrossings(t.captures, c, n)
  {
    StillRunFiresOncePerCrossing(c, n);
    var tally := CounterRun(c, Repeat(Still, n));
    forall i | 0 <= i < |t.captures|
      ensures (c + t.captures[i].tick) % 20 == 0
    {
      assert t.captures[i].tick == tally.fireTicks[i];
    }
  }

  /** From a fresh detector, `n` still ticks on one accepted face give exactly `n / 20` captures. */
  lemma FreshHoldCaptures(predictions: seq<Prediction>, width: nat, height: nat, n: nat)
    requires BestFace(predictions, width, height).Some?
    ensures |Run(Initial, Repeat(Ready(predictions, width, height), n)).captures| == n / 20
    ensures Run(Initial, Repeat(Ready(predictions, width, height), n)).final.counter == n % 20
  {
    HoldCapturesOncePerCrossing(Initial, predictions, width, height, n);
  }

  /**
   * If every other tick (every odd position) of a run shows movement, no capture ever
   * fires, however long the run: from a counter of at most 1 the still ticks in
   * between never lift it above 2.
   */
  lemma MovingEveryOtherTickNeverCaptures(s: State, frames: seq<Frame>)
    requires 0 <= s.counter <= 1
    requires forall i :: 0 <= i < |frames| && i % 2 == 1 ==> Run(s, frames).outcomes[i] == Moving
    ensures Run(s, frames).captures == []
    ensures Run(s, frames).final.counter <= 2
  {
    RunFollowsCounter(s, frames);
    OddMovesNeverFire(s.counter, Run(s, frames).outcomes);
  }

  /**
   * Without an accepted face no capture ever fires and the counter never grows; when
   * every frame is ready the counter drops by one per tick (not below 0) and the
   * smoothed centre ends unset.
   */
  lemma {:induction false} NoFaceNeverCaptures(s: State, frames: seq<Frame>)
    requires s.counter >= 0
    requires forall i :: 0 <= i < |frames| ==> NoAcceptedFace(frames[i])
    ensures Run(s, frames).captures == []
    ensures 0 <= Run(s, frames).final.counter <= s.counter
    ensures Run(s, frames).final.detected ==> s.detected
    ensures |frames| > 0 && frames[|frames| - 1].Ready? ==> Run(s, frames).final.smoothed.None?
    ensures (forall i :: 0 <= i < |frames| ==> frames[i].Ready?) ==>
              Run(s, frames).final.counter == Max0(s.counter - |frames|)
    decreases |frames|
  {
    if frames != [] {
      var pre, f := frames[..|frames| - 1], frames[|frames| - 1];
      assert frames == pre + [f];
      assert forall i :: 0 <= i < |pre| ==> pre[i] == frames[i];
      NoFaceNeverCaptures(s, pre);
      RunSnoc(s, pre, f);
      NoFaceTick(Run(s, pre).final, f);
    }
  }

  /** The captures of a later part of a run, with their ticks renumbered after `offset` earlier ticks. */
  function Shift(cs: seq<Capture>, offset: nat): seq<Capture>
  {
    seq(|cs|, i requires 0 <= i < |cs| => Capture(cs[i].tick + offset, cs[i].crop))
  }

  /**
   * Running two sequences of frames one after the other is running their
   * concatenation: the second part starts from the state the first part left, and
   * its captures follow the first part's, renumbered after its ticks.
   */
  lemma {:induction false} RunAppend(s: State, a: seq<Frame>, b: seq<Frame>)
    ensures Run(s, a + b).final == Run(Run(s, a).final, b).final
    ensures Run(s, a + b).captures == Run(s, a).captures + Shift(Run(Run(s, a).final, b).captures, |a|)
    decreases |b|
  {
    if b == [] {
      assert a + b == a;
    } else {
      var b', f := b[..|b| - 1], b[|b| - 1];
      assert a + b == (a + b') + [f];
      assert b == b' + [f];
      RunAppend(s, a, b');
      var m := Run(s, a).final;
      RunSnoc(s, a + b', f);
      RunSnoc(m, b', f);
      var p := Run(m, b');
      var r := StepTick(p.final, f);
      if r.capture.Some? {
        assert Shift(p.captures + [Capture(|b|, r.capture.value)], |a|) ==
               Shift(p.captures, |a|) + [Capture(|a + b|, r.capture.value)];
      }
    }
  }

  /** The status text the component shows for a state once its model is loaded. */
  function StatusOf(s: State): string
  {
    Status("", s.counter, s.detected, true)
  }

  /**
   * The status shown after each tick of a session that starts from a fresh detector
   * with its model loaded: entry `k` is the status of the state after `k + 1` ticks.
   */
  function StatusTrace(frames: seq<Frame>): (ss: seq<string>)
    ensures |ss| == |frames|
    decreases |frames|
  {
    if frames == [] then []
    else StatusTrace(frames[..|frames| - 1]) + [StatusOf(Run(Initial, frames).final)]
  }

  lemma {:induction false} StatusTraceAt(frames: seq<Frame>, k: nat)
    requires k < |frames|
    ensures StatusTrace(frames)[k] == StatusOf(Run(Initial, frames[..k + 1]).final)
    decreases |frames|
  {
    if k < |frames| - 1 {
      var pre := frames[..|frames| - 1];
      StatusTraceAt(pre, k);
      assert pre[..k + 1] == frames[..k + 1];
    } else {
      assert frames[..k + 1] == frames;
    }
  }
}
