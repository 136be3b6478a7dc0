/**
 * The face detector component as an object: the state that the detection loop
 * updates in place, one loop iteration as a method, the status effect, and a session
 * that runs one detector over a sequence of frames.
 */
module Detector {
  import opened Wrappers
  import opened Geometry
  import opened Smoothing
  import opened Stability
  import opened StatusDisplay
  import opened Tick
  import opened Runs

  class FaceDetector {
    var smoothed: Option<Point>
    var last: Option<Box>
    var counter: int
    var detected: bool
    var status: string

    /** Between ticks the counter lies in `[0, 20)`. */
    ghost predicate Valid()
      reads this
    {
      0 <= counter < STABILITY_THRESHOLD
    }

    function Snapshot(): State
      reads this
    {
      State(smoothed, last, counter, detected)
    }

    /** A freshly mounted component: nothing detected, counter 0, model still loading. */
    constructor ()
      ensures Valid() && Snapshot() == Initial && status == LOADING_STATUS
    {
      smoothed, last, counter, detected := None, None, 0, false;
      status := LOADING_STATUS;
    }

    /** One iteration of the detection loop on the given frame. */
    method DetectFrame(frame: Frame) returns (capture: Option<Crop>)
      requires Valid()
      modifies this
      ensures Valid()
      ensures Snapshot() == StepTick(old(Snapshot()), frame).state
      ensures capture == StepTick(old(Snapshot()), frame).capture
      ensures status == old(status)
    {
      capture := None;
      if frame.NotReady? {
        return;
      }
      ghost var before := Snapshot();
      TickContract(before, frame);
      var videoWidth, videoHeight := frame.width, frame.height;

      // the first prediction, kept only when it is large enough and centred
      var bestFace := BestFace(frame.predictions, videoWidth, videoHeight);
      var faceDetected := bestFace.Some?;

      if bestFace.Some? {
        var b := bestFace.value;
        last := bestFace;
        var currentCenter := Point(b.x + b.w / 2.0, b.y + b.h / 2.0);
        if smoothed.None? {
          smoothed := Some(currentCenter);
        } else {
          smoothed := Some(Point(smoothed.value.x * (1.0 - EMA_ALPHA) + currentCenter.x * EMA_ALPHA,
                                 smoothed.value.y * (1.0 - EMA_ALPHA) + currentCenter.y * EMA_ALPHA));
        }
      }

      detected := faceDetected;

      if faceDetected && last.Some? {
        var box := last.value;
        ghost var sm := Smooth(before.smoothed, Center(box));
        assert smoothed == Some(sm);
        ghost var o := if Moved(sm, Center(box), videoWidth) then Moving else Still;
        assert StepTick(before, frame) ==
          TickResult(State(Some(sm), Some(box), CounterStep(before.counter, o).count, true), o,
                     if CounterStep(before.counter, o).fired then Some(CropOf(box, videoWidth, videoHeight)) else None);
        // distance from the smoothed centre to the box centre above 2% of the width
        if Moved(smoothed.value, Point(box.x + box.w / 2.0, box.y + box.h / 2.0), videoWidth) {
          counter := Max0(counter - 2);
        } else {
          var newCount := counter + 1;
          if newCount >= STABILITY_THRESHOLD {
            capture := Some(CropOf(box, videoWidth, videoHeight));
            counter := 0;
          } else {
            counter := newCount;
          }
        }
      } else {
        assert StepTick(before, frame) ==
          TickResult(State(None, before.last, CounterStep(before.counter, NoFace).count, false), NoFace, None);
        counter := Max0(counter - 1);
        smoothed := None;
      }
    }

    /** The status effect that re-runs whenever the counter, the flag or the model change. */
    method RefreshStatus(modelLoaded: bool)
      modifies this`status
      ensures status == Status(old(status), counter, detected, modelLoaded)
    {
      if counter > 0 {
        var progress := Progress(counter);
        status := PROGRESS_PREFIX + NatToString(progress) + "%";
      } else if detected {
        status := HOLD_STATUS;
      } else if modelLoaded {
        status := ALIGN_STATUS;
      }
    }
  }

  /** One more iteration of a session: the run, its captures and its statuses grow by one tick. */
  lemma SessionStep(frames: seq<Frame>, i: nat)
    requires i < |frames|
    ensures var done := Run(Initial, frames[..i]);
      var r := StepTick(done.final, frames[i]);
      Run(Initial, frames[..i + 1]).final == r.state &&
      Run(Initial, frames[..i + 1]).captures ==
        (if r.capture.Some? then done.captures + [Capture(i + 1, r.capture.value)] else done.captures) &&
      StatusTrace(frames[..i + 1]) == StatusTrace(frames[..i]) + [StatusOf(r.state)]
  {
    assert frames[..i + 1] == frames[..i] + [frames[i]];
    assert frames[..i + 1][..i] == frames[..i];
    RunSnoc(Initial, frames[..i], frames[i]);
  }

  /**
   * A detection session with a loaded model: a fresh detector runs one loop iteration
   * per frame, in order, and updates its status after each. The captures are those
   * of `Run` from the initial state, and the statuses are `StatusTrace`: the status
   * after tick `i` is the status of the state `Run` reaches after `i + 1` frames.
   */
  method Session(frames: seq<Frame>) returns (captures: seq<Capture>, statuses: seq<string>)
    ensures captures == Run(Initial, frames).captures
    ensures statuses == StatusTrace(frames)
  {
    var detector := new FaceDetector();
    captures, statuses := [], [];
    var i := 0;
    while i < |frames|
      invariant 0 <= i <= |frames|
      invariant detector.Valid()
      invariant detector.Snapshot() == Run(Initial, frames[..i]).final
      invariant captures == Run(Initial, frames[..i]).captures
      invariant statuses == StatusTrace(frames[..i])
    {
      SessionStep(frames, i);
      var capture := detector.DetectFrame(frames[i]);
      if capture.Some? {
        captures := captures + [Capture(i + 1, capture.value)];
      }
      detector.RefreshStatus(true);
      StatusIgnoresPreviousWhenLoaded(detector.status, "", detector.counter, detector.detected);
      statuses := statuses + [detector.status];
      i := i + 1;
    }
    assert frames[..|frames|] == frames;
  }
}
