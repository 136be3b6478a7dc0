/**
 * One iteration of the face detector's loop, on values: the first prediction is
 * accepted or not, the smoothed centre is updated or cleared, the stability counter
 * moves, and on the tick the counter reaches the threshold a crop is captured.
 */
module Tick {
  import opened Wrappers
  import opened Geometry
  import opened Smoothing
  import opened Stability

  /**
   * What one iteration of the detection loop sees: either an iteration that returns
   * early because the video or canvas is not ready, or the model's predictions for a
   * frame of the given size.
   */
  datatype Frame = NotReady | Ready(predictions: seq<Prediction>, width: nat, height: nat)

  /** The component state a tick reads and writes. */
  datatype State = State(smoothed: Option<Point>, last: Option<Box>, counter: int, detected: bool)

  const Initial: State := State(None, None, 0, false)

  /** The result of one tick: the new state, its counter outcome and the capture, if any. */
  datatype TickResult = TickResult(state: State, outcome: Outcome, capture: Option<Crop>)

  /**
   * One tick. The last detection is overwritten with the current accepted box before
   * the movement test reads it, so the test compares the smoothed centre with the
   * centre of the current box, and a capture crops the current box.
   */
  function StepTick(s: State, f: Frame): TickResult
  {
    match f
    case NotReady => TickResult(s, Skipped, None)
    case Ready(predictions, width, height) =>
      match BestFace(predictions, width, height)
      case None =>
        TickResult(State(None, s.last, CounterStep(s.counter, NoFace).count, false), NoFace, None)
      case Some(b) =>
        var c := Center(b);
        var sm := Smooth(s.smoothed, c);
        var o := if Moved(sm, c, width) then Moving else Still;
        var u := CounterStep(s.counter, o);
        TickResult(State(Some(sm), Some(b), u.count, true), o,
                   if u.fired then Some(CropOf(b, width, height)) else None)
  }

  /**
   * What every tick guarantees: a tick that returns early changes nothing; the counter
   * stays in `[0, 20)`; the detection flag and the smoothed centre are set exactly when
   * a face is accepted, and the last detection is then that face and otherwise kept;
   * a capture fires exactly on a still tick that brings the counter to 20, resets the
   * counter, and crops the face of that tick.
   */
  lemma TickContract(s: State, f: Frame)
    ensures var r := StepTick(s, f);
      (f.NotReady? ==> r.state == s && r.capture.None?) &&
      (0 <= s.counter < STABILITY_THRESHOLD ==> 0 <= r.state.counter < STABILITY_THRESHOLD) &&
      (f.Ready? ==> (r.state.detected <==> BestFace(f.predictions, f.width, f.height).Some?)) &&
      (f.Ready? ==> (r.state.smoothed.Some? <==> r.state.detected)) &&
      (f.Ready? && r.state.detected ==> r.state.last == BestFace(f.predictions, f.width, f.height)) &&
      (!r.state.detected ==> r.state.last == s.last) &&
      (r.capture.Some? <==> r.outcome == Still && s.counter + 1 >= STABILITY_THRESHOLD) &&
      (r.capture.Some? ==>
         r.state.counter == 0 && r.state.detected &&
         r.capture.value == CropOf(r.state.last.value, f.width, f.height))
  {
  }

  /**
   * The smoothed centre: on an accepted tick it becomes the current centre when unset
   * and the 0.7/0.3 blend of the old value and the current centre otherwise; on a tick
   * without an accepted face it is cleared, and the last detection is kept.
   */
  lemma SmoothedCentreUpdate(s: State, predictions: seq<Prediction>, width: nat, height: nat)
    ensures var r := StepTick(s, Ready(predictions, width, height)).state;
      match BestFace(predictions, width, height)
      case None => r.smoothed.None? && r.last == s.last
      case Some(b) =>
        var c := Center(b);
        r.smoothed == Some(if s.smoothed.None? then c
                           else Point(0.7 * s.smoothed.value.x + 0.3 * c.x,
                                      0.7 * s.smoothed.value.y + 0.3 * c.y))
  {
  }

  /**
   * The counter: a tick without an accepted face decrements it (not below 0), an
   * accepted tick that moved more than 2% of the frame width subtracts 2 (not below 0),
   * and a still accepted tick adds 1, or fires the capture and resets to 0 on reaching 20.
   */
  lemma CounterUpdate(s: State, predictions: seq<Prediction>, width: nat, height: nat)
    requires s.counter >= 0
    ensures var r := StepTick(s, Ready(predictions, width, height));
      match BestFace(predictions, width, height)
      case None => r.state.counter == Max0(s.counter - 1) && r.capture.None?
      case Some(b) =>
        var sm := r.state.smoothed.value;
        if Dist2(sm, Center(b)) > (0.02 * width as real) * (0.02 * width as real) then
          r.state.counter == Max0(s.counter - 2) && r.capture.None?
        else if s.counter + 1 < 20 then
          r.state.counter == s.counter + 1 && r.capture.None?
        else
          r.state.counter == 0 && r.capture == Some(CropOf(b, width, height))
  {
  }

  /**
   * The first accepted tick after a reset is never penalised: its distance is 0, so
   * the counter goes up by one (or the capture fires).
   */
  lemma FirstAcceptedTickIsStill(s: State, predictions: seq<Prediction>, width: nat, height: nat)
    requires s.smoothed.None?
    requires BestFace(predictions, width, height).Some?
    ensures StepTick(s, Ready(predictions, width, height)).outcome == Still
    ensures s.counter + 1 < STABILITY_THRESHOLD ==>
              StepTick(s, Ready(predictions, width, height)).state.counter == s.counter + 1
  {
    FirstSampleNeverMoves(Center(BestFace(predictions, width, height).value), width);
  }

  /**
   * Holding the same accepted face: from a state whose smoothed centre is unset or
   * already at the face's centre, the tick is still, leaves the smoothed centre at
   * the face's centre, and any capture crops that face.
   */
  lemma StillFaceTick(s: State, predictions: seq<Prediction>, width: nat, height: nat)
    requires BestFace(predictions, width, height).Some?
    requires s.smoothed.None? || s.smoothed == Some(Center(BestFace(predictions, width, height).value))
    ensures var b := BestFace(predictions, width, height).value;
      var r := StepTick(s, Ready(predictions, width, height));
      r.outcome == Still && r.state.smoothed == Some(Center(b)) && r.state.last == Some(b) &&
      (r.capture.Some? ==> r.capture.value == CropOf(b, width, height))
  {
    var c := Center(BestFace(predictions, width, height).value);
    if s.smoothed.None? {
      FirstSampleNeverMoves(c, width);
    } else {
      SmoothFixedPoint(c);
    }
  }

  /** A frame on which no face is accepted (or the loop returned early). */
  predicate NoAcceptedFace(f: Frame)
  {
    f.NotReady? || BestFace(f.predictions, f.width, f.height).None?
  }

  /**
   * A tick without an accepted face never captures and never raises the counter; a
   * ready one decrements it (not below 0), clears the flag and the smoothed centre.
   */
  lemma NoFaceTick(s: State, f: Frame)
    requires NoAcceptedFace(f)
    requires s.counter >= 0
    ensures var r := StepTick(s, f);
      r.capture.None? && r.outcome != Still && 0 <= r.state.counter <= s.counter &&
      (r.state.detected ==> s.detected) &&
      (f.Ready? ==> r.state.counter == Max0(s.counter - 1) && r.state.smoothed.None? && !r.state.detected)
  {
  }
}
