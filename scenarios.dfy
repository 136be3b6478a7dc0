/**
 * Worked runs of the detector on a 1280x720 frame: a face too small to accept, a
 * hold, a hold interrupted by a gap, alternating movement, and no face at all.
 */
module Scenarios {
  import opened Wrappers
  import opened Geometry
  import opened Stability
  import opened StatusDisplay
  import opened Tick
  import opened Runs

  function CornersOf(x: real, y: real, w: real, h: real): Prediction
  {
    Prediction(Point(x, y), Point(x + w, y + h))
  }

  /** The 280x200 box at (500, 260): centred, but covering only 56000 of 921600 pixels. */
  function SmallFace(): Frame { Ready([CornersOf(500.0, 260.0, 280.0, 200.0)], 1280, 720) }

  /** A 400x400 box at (440, 160): centred and covering 160000 pixels, more than 12%. */
  function LargeFace(): Frame { Ready([CornersOf(440.0, 160.0, 400.0, 400.0)], 1280, 720) }

  /** A frame on which the model finds no face. */
  function Empty(): Frame { Ready([], 1280, 720) }

  /**
   * Scenario A. The 280x200 box is below the 12% area minimum (110592 pixels), so it
   * is never accepted and holding it still never captures; the crop its padding
   * would give is (460, 220, 360, 280).
   */
  lemma ScenarioA(n: nat)
    ensures BestFace(SmallFace().predictions, 1280, 720).None?
    ensures CropOf(Box(500.0, 260.0, 280.0, 200.0), 1280, 720) == Crop(460.0, 220.0, 360.0, 280.0)
    ensures Run(Initial, Repeat(SmallFace(), n)).captures == []
  {
    NoFaceNeverCaptures(Initial, Repeat(SmallFace(), n));
  }

  /** The larger box, held still for 20 ticks from a fresh detector, is captured once, on tick 20. */
  lemma ScenarioALargeFace()
    ensures Run(Initial, Repeat(LargeFace(), 20)).captures ==
              [Capture(20, Crop(400.0, 120.0, 480.0, 480.0))]
  {
    var f := LargeFace();
    assert BestFace(f.predictions, 1280, 720) == Some(Box(440.0, 160.0, 400.0, 400.0));
    HoldCapturesOncePerCrossing(Initial, f.predictions, 1280, 720, 20);
    RunKeepsCounterInRange(Initial, Repeat(f, 20));
  }

  /** The first part of scenario B: ten still ticks take a fresh detector to counter 10. */
  lemma ScenarioBFirstHold()
    ensures var t := Run(Initial, Repeat(LargeFace(), 10));
      t.captures == [] && t.final.counter == 10
  {
    var f := LargeFace();
    assert BestFace(f.predictions, 1280, 720).Some?;
    HoldCapturesOncePerCrossing(Initial, f.predictions, 1280, 720, 10);
  }

  /** The gap of scenario B: five ticks without a face drain counter 10 to 5 and clear the centre. */
  lemma ScenarioBGap(s: State)
    requires s.counter == 10
    ensures var t := Run(s, Repeat(Empty(), 5));
      t.captures == [] && t.final.counter == 5 && t.final.smoothed.None?
  {
    NoFaceNeverCaptures(s, Repeat(Empty(), 5));
  }

  /** The second hold of scenario B: from counter 5, twenty still ticks capture once, on their 15th. */
  lemma ScenarioBSecondHold(s: State)
    requires s.counter == 5 && s.smoothed.None?
    ensures var t := Run(s, Repeat(LargeFace(), 20));
      t.captures == [Capture(15, Crop(400.0, 120.0, 480.0, 480.0))] && t.final.counter == 5
  {
    var f := LargeFace();
    assert BestFace(f.predictions, 1280, 720) == Some(Box(440.0, 160.0, 400.0, 400.0));
    HoldCapturesOncePerCrossing(s, f.predictions, 1280, 720, 20);
    var c := Run(s, Repeat(f, 20)).captures;
    assert |c| == 1 && 15 in CaptureTicks(c);
  }

  /**
   * Scenario B. The face held for 10 ticks, lost for 5, then held for 20 more: the
   * counter reaches 10, drains to 5 during the gap, and climbs from 5 to 20 in 15
   * ticks, so exactly one capture fires, on tick 30, and the run ends at counter 5.
   */
  lemma ScenarioB()
    ensures var t := Run(Initial, Repeat(LargeFace(), 10) + Repeat(Empty(), 5) + Repeat(LargeFace(), 20));
      t.captures == [Capture(30, Crop(400.0, 120.0, 480.0, 480.0))] && t.final.counter == 5
  {
    var hold1, gap, hold2 := Repeat(LargeFace(), 10), Repeat(Empty(), 5), Repeat(LargeFace(), 20);
    ScenarioBFirstHold();
    var s1 := Run(Initial, hold1).final;
    ScenarioBGap(s1);
    RunAppend(Initial, hold1, gap);
    var s2 := Run(Initial, hold1 + gap).final;
    ScenarioBSecondHold(s2);
    RunAppend(Initial, hold1 + gap, hold2);
    assert Shift([Capture(15, Crop(400.0, 120.0, 480.0, 480.0))], 15) ==
           [Capture(30, Crop(400.0, 120.0, 480.0, 480.0))];
  }

  /**
   * Scenario C, at the level of tick outcomes: when the face moves on every other
   * tick the counter never exceeds 2 and no capture fires, however long the run.
   */
  lemma ScenarioC(outcomes: seq<Outcome>)
    requires forall i :: 0 <= i < |outcomes| ==> outcomes[i] == if i % 2 == 0 then Still else Moving
    ensures CounterRun(0, outcomes).fireTicks == []
    ensures CounterRun(0, outcomes).count <= 2
  {
    OddMovesNeverFire(0, outcomes);
  }

  /** A run without an accepted face leaves a fresh detector idle: counter 0, nothing detected. */
  lemma NoFaceStaysIdle(frames: seq<Frame>)
    requires forall i :: 0 <= i < |frames| ==> NoAcceptedFace(frames[i])
    ensures Run(Initial, frames).final.counter == 0 && !Run(Initial, frames).final.detected
  {
    NoFaceNeverCaptures(Initial, frames);
  }

  /** An idle detector with a loaded model shows the align prompt. */
  lemma IdleShowsAlign(s: State)
    requires s.counter == 0 && !s.detected
    ensures StatusOf(s) == ALIGN_STATUS
  {
  }

  /** The statuses of a session without an accepted face are all the align prompt. */
  lemma {:induction false} NoFaceStatusTrace(frames: seq<Frame>)
    requires forall i :: 0 <= i < |frames| ==> NoAcceptedFace(frames[i])
    ensures forall k :: 0 <= k < |frames| ==> StatusTrace(frames)[k] == ALIGN_STATUS
    decreases |frames|
  {
    if frames != [] {
      var pre := frames[..|frames| - 1];
      assert forall i :: 0 <= i < |pre| ==> pre[i] == frames[i];
      NoFaceStatusTrace(pre);
      NoFaceStaysIdle(frames);
      IdleShowsAlign(Run(Initial, frames).final);
    }
  }

  /**
   * Scenario D. When the model never returns a face (or the loop keeps returning
   * early) nothing is ever captured and the status shows the align prompt after
   * every tick.
   */
  lemma ScenarioD(frames: seq<Frame>)
    requires forall i :: 0 <= i < |frames| ==> NoAcceptedFace(frames[i])
    ensures Run(Initial, frames).captures == []
    ensures forall k :: 0 <= k < |frames| ==> StatusTrace(frames)[k] == ALIGN_STATUS
  {
    NoFaceNeverCaptures(Initial, frames);
    NoFaceStatusTrace(frames);
  }
}
