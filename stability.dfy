/**
 * The stability counter with asymmetric hysteresis: +1 on a still accepted tick,
 * -2 on an accepted tick that moved, -1 on a tick without an accepted face (never
 * below 0), and a capture that fires, and resets the counter, when the increment
 * reaches the threshold.
 */
module Stability {

  /** Number of consecutive still ticks that trigger a capture. */
  const STABILITY_THRESHOLD: int := 20

  /** What a tick contributes to the counter. `Skipped` is a tick that returned early. */
  datatype Outcome = Skipped | NoFace | Moving | Still

  /** The counter after one tick, and whether the capture fired on it. */
  datatype Update = Update(count: int, fired: bool)

  function Max0(n: int): int { if n > 0 then n else 0 }

  /**
   * One counter update. Starting from a counter in `[0, threshold)` it stays there;
   * the capture fires exactly when a still tick brings the counter to the threshold,
   * that is from `threshold - 1`, and the counter is 0 right after.
   */
  function CounterStep(prev: int, o: Outcome): (u: Update)
    ensures prev >= 0 ==> u.count >= 0
    ensures 0 <= prev < STABILITY_THRESHOLD ==> 0 <= u.count < STABILITY_THRESHOLD
    ensures u.fired <==> o == Still && prev + 1 >= STABILITY_THRESHOLD
    ensures 0 <= prev < STABILITY_THRESHOLD ==> (u.fired <==> o == Still && prev == STABILITY_THRESHOLD - 1)
    ensures u.fired ==> u.count == 0
    ensures o != Still ==> u.count <= prev || u.count == 0
  {
    match o
    case Skipped => Update(prev, false)
    case NoFace => Update(Max0(prev - 1), false)
    case Moving => Update(Max0(prev - 2), false)
    case Still =>
      var next := prev + 1;
      if next >= STABILITY_THRESHOLD then Update(0, true) else Update(next, false)
  }

  /**
   * The decay is asymmetric: an observed movement never leaves more progress than a
   * dropped detection does, and a dropped detection never more than the tick before.
   */
  lemma MovementDecaysFasterThanDropout(prev: int)
    requires prev >= 0
    ensures CounterStep(prev, Moving).count <= CounterStep(prev, NoFace).count <= prev
    ensures prev >= 2 ==> CounterStep(prev, Moving).count == prev - 2
    ensures prev >= 1 ==> CounterStep(prev, NoFace).count == prev - 1
  {
  }

  /** The counter and the ticks (counted from 1) on which the capture fired. */
  datatype Tally = Tally(count: int, fireTicks: seq<nat>)

  /** The counter over a sequence of tick outcomes, starting from `c`. */
  function CounterRun(c: int, os: seq<Outcome>): (t: Tally)
    decreases |os|
  {
    if os == [] then Tally(c, [])
    else
      var p := CounterRun(c, os[..|os| - 1]);
      var u := CounterStep(p.count, os[|os| - 1]);
      Tally(u.count, if u.fired then p.fireTicks + [|os|] else p.fireTicks)
  }

  /** Between ticks the counter stays in `[0, threshold)`, whatever the outcomes. */
  lemma {:induction false} CounterRunInRange(c: int, os: seq<Outcome>)
    requires 0 <= c < STABILITY_THRESHOLD
    ensures 0 <= CounterRun(c, os).count < STABILITY_THRESHOLD
    decreases |os|
  {
    if os != [] {
      CounterRunInRange(c, os[..|os| - 1]);
    }
  }

  /** The capture ticks lie within the run and are strictly increasing. */
  lemma {:induction false} FireTicksIncreasing(c: int, os: seq<Outcome>)
    ensures forall i :: 0 <= i < |CounterRun(c, os).fireTicks| ==>
              1 <= CounterRun(c, os).fireTicks[i] <= |os|
    ensures forall i, j :: 0 <= i < j < |CounterRun(c, os).fireTicks| ==>
              CounterRun(c, os).fireTicks[i] < CounterRun(c, os).fireTicks[j]
    decreases |os|
  {
    if os != [] {
      FireTicksIncreasing(c, os[..|os| - 1]);
    }
  }

  function Repeat<T>(x: T, n: nat): seq<T>
  {
    seq(n, _ => x)
  }

  /**
   * A hold: `n` still ticks from counter `c` fire `(c + n) / threshold` captures, one
   * per crossing, on exactly the ticks `t` where `c + t` is a multiple of the
   * threshold, and leave the counter at `(c + n) % threshold`.
   */
  lemma {:induction false} StillRunFiresOncePerCrossing(c: int, n: nat)
    requires 0 <= c < STABILITY_THRESHOLD
    ensures CounterRun(c, Repeat(Still, n)).count == (c + n) % STABILITY_THRESHOLD
    ensures |CounterRun(c, Repeat(Still, n)).fireTicks| == (c + n) / STABILITY_THRESHOLD
    ensures forall i :: 0 <= i < |CounterRun(c, Repeat(Still, n)).fireTicks| ==>
              (c + CounterRun(c, Repeat(Still, n)).fireTicks[i]) % STABILITY_THRESHOLD == 0
    ensures forall t :: 1 <= t <= n && (c + t) % STABILITY_THRESHOLD == 0 ==>
              t in CounterRun(c, Repeat(Still, n)).fireTicks
  {
    if n > 0 {
      var os := Repeat(Still, n);
      assert os[..n - 1] == Repeat(Still, n - 1);
      StillRunFiresOncePerCrossing(c, n - 1);
      var p := CounterRun(c, Repeat(Still, n - 1));
      var k := c + n - 1;
      if k % 20 == 19 {
        assert (k + 1) % 20 == 0 && (k + 1) / 20 == k / 20 + 1;
      } else {
        assert (k + 1) % 20 == k % 20 + 1 && (k + 1) / 20 == k / 20;
      }
    }
  }

  /**
   * Movement on every other tick (every odd position) keeps the counter at most 2,
   * so no capture ever fires however long the run.
   */
  lemma {:induction false} OddMovesNeverFire(c: int, os: seq<Outcome>)
    requires 0 <= c <= 1
    requires forall i :: 0 <= i < |os| && i % 2 == 1 ==> os[i] == Moving
    ensures CounterRun(c, os).fireTicks == []
    ensures 0 <= CounterRun(c, os).count <= (if |os| % 2 == 0 then 1 else 2)
    decreases |os|
  {
    if os != [] {
      var pre := os[..|os| - 1];
      assert forall i :: 0 <= i < |pre| && i % 2 == 1 ==> pre[i] == Moving by {
        forall i | 0 <= i < |pre| && i % 2 == 1 ensures pre[i] == Moving {
          assert pre[i] == os[i];
        }
      }
      OddMovesNeverFire(c, pre);
    }
  }
}
