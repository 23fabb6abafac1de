/**
 * `processImage` as a sequential state machine over `{busy, buffer}`.
 *
 * The source runs the detection on a background thread and, on the camera
 * thread, immediately takes the save semaphore and tests the threshold. Here
 * one frame is one step taken in a fixed order: the busy guard, the
 * background completion (filter, metric, offer, clear busy), then the
 * threshold test. The steps are also exposed separately, so that a frame
 * arriving while a detection is in flight can be stated.
 */
module Pipeline {
  import opened Wrappers
  import opened Metrics
  import opened Recognitions
  import opened Selection
  import opened Burst

  /** `computingDetection` and the two queues. */
  datatype State<F> = State(busy: bool, buffer: Buffer<F>)

  /** The state when the screen starts: idle, nothing buffered. */
  function Initial<F>(): State<F> {
    State(false, Empty())
  }

  /**
   * What holds between frames in the sequential model: no detection in
   * flight, aligned queues, and fewer pairs buffered than a burst.
   */
  predicate Idle<F>(s: State<F>) {
    !s.busy && s.buffer.Aligned() && s.buffer.Size() < BurstSize
  }

  /**
   * One camera frame: the caller's capture flag, the snapshot that would be
   * buffered for it, and the model's recognitions on it.
   */
  datatype Frame<F> = Frame(isCapture: bool, snapshot: F, results: seq<Recognition>)

  /** A frame together with the report its background detection produces. */
  datatype Detected<F> = Detected(isCapture: bool, snapshot: F, report: Report)

  /** The background detection of one frame. */
  function Detection<F>(frame: Frame<F>, remap: Rect -> Rect): Detected<F> {
    Detected(frame.isCapture, frame.snapshot, Detect(frame.results, remap))
  }

  /** What a frame produced: nothing, or the tracker's input and an export. */
  datatype Outcome<F> = Dropped | Processed(forwarded: seq<Recognition>, saved: Option<F>)

  /** The busy guard: a busy pipeline refuses the frame, an idle one turns busy. */
  function Accept<F>(s: State<F>): (r: Option<State<F>>)
    ensures s.busy <==> r.None?
    ensures r.Some? ==> r.value.busy && r.value.buffer == s.buffer
  {
    if s.busy then None else Some(s.(busy := true))
  }

  /**
   * The rest of the background task: offer the frame's metric and snapshot
   * to the buffer, then clear the busy flag as the last action.
   */
  function Complete<F>(s: State<F>, d: Detected<F>): (r: State<F>)
    ensures !r.busy
    ensures d.isCapture
         ==> (&& r.buffer.metrics == s.buffer.metrics + [d.report.metric]
              && r.buffer.frames == s.buffer.frames + [d.snapshot])
    ensures !d.isCapture ==> |r.buffer.metrics| == 0 && |r.buffer.frames| == 0
    ensures s.buffer.Aligned() ==> r.buffer.Aligned()
  {
    var buffer := Offer(s.buffer, d.report.metric, d.snapshot, d.isCapture);
    assert d.isCapture ==> buffer.metrics == buffer.metrics[..|s.buffer.metrics|] + [d.report.metric];
    assert d.isCapture ==> buffer.frames == buffer.frames[..|s.buffer.frames|] + [d.snapshot];
    State(false, buffer)
  }

  /** One step of the sequential model and what it produced. */
  datatype Step<F> = Step(state: State<F>, outcome: Outcome<F>)

  /**
   * One frame whose detection result is known: drop it if a detection is in
   * flight; otherwise accept it, complete it, then run the threshold test.
   */
  function Advance<F>(s: State<F>, d: Detected<F>): (r: Step<F>)
    requires s.buffer.Aligned()
    ensures s.busy ==> r == Step(s, Dropped)
    ensures !s.busy ==> !r.state.busy && r.outcome.Processed? && r.outcome.forwarded == d.report.forwarded
    ensures r.state.buffer.Aligned()
  {
    match Accept(s)
    case None => Step(s, Dropped)
    case Some(accepted) =>
      var done := Complete(accepted, d);
      var drained := Drain(done.buffer);
      Step(done.(buffer := drained.buffer), Processed(d.report.forwarded, drained.saved))
  }

  /**
   * `processImage` for one frame. A busy pipeline drops the frame and changes
   * nothing; otherwise the pipeline ends idle and the tracker receives the
   * remapped survivors of the frame's recognitions.
   */
  function ProcessImage<F>(s: State<F>, frame: Frame<F>, remap: Rect -> Rect): (r: Step<F>)
    requires s.buffer.Aligned()
    ensures s.busy ==> r == Step(s, Dropped)
    ensures !s.busy ==> !r.state.busy && r.outcome.Processed?
    ensures !s.busy ==> r.outcome.forwarded == RemapAll(Survivors(frame.results), remap)
    ensures r.state.buffer.Aligned()
  {
    Advance(s, Detection(frame, remap))
  }

  /** Releasing the shutter empties the buffer and exports nothing. */
  lemma ReleaseClears<F>(s: State<F>, frame: Frame<F>, remap: Rect -> Rect)
    requires s.buffer.Aligned() && !s.busy && !frame.isCapture
    ensures var r := ProcessImage(s, frame, remap);
      r.state.buffer == Empty() && r.outcome.saved == None
  {
  }

  /**
   * A capture frame that leaves the burst short of its size is appended and
   * nothing is exported.
   */
  lemma CaptureBelowThreshold<F>(s: State<F>, d: Detected<F>)
    requires s.buffer.Aligned() && !s.busy && d.isCapture && s.buffer.Size() + 1 < BurstSize
    ensures var r := Advance(s, d);
      && r.state.buffer.metrics == s.buffer.metrics + [d.report.metric]
      && r.state.buffer.frames == s.buffer.frames + [d.snapshot]
      && r.outcome.saved == None
  {
  }

  /**
   * A capture frame that completes the burst empties the buffer and exports
   * the frame at the first maximal metric of the burst including itself.
   */
  lemma CaptureCompletesBurst<F>(s: State<F>, d: Detected<F>)
    requires s.buffer.Aligned() && !s.busy && d.isCapture && s.buffer.Size() + 1 >= BurstSize
    ensures var r := Advance(s, d);
      var ms := s.buffer.metrics + [d.report.metric];
      var fs := s.buffer.frames + [d.snapshot];
      && r.state == Initial()
      && r.outcome == Processed(d.report.forwarded, Some(fs[SelectIndex(ms)]))
  {
    var ms := s.buffer.metrics + [d.report.metric];
    var r := Advance(s, d);
    var k: nat :| IsFirstMax(ms, k) && r.outcome.saved == Some((s.buffer.frames + [d.snapshot])[k]);
    SelectIndexIsFirstMax(ms, k);
  }

  /**
   * A frame that arrives while a detection is in flight is dropped, and
   * neither the busy flag nor the buffer changes.
   */
  lemma ArrivalWhileBusyDropped<F>(s: State<F>, second: Frame<F>, remap: Rect -> Rect)
    requires s.buffer.Aligned() && !s.busy
    ensures Accept(s).Some?
    ensures ProcessImage(Accept(s).value, second, remap) == Step(Accept(s).value, Dropped)
  {
  }

  /** The final state and the outcome of each frame of a run. */
  datatype Trace<F> = Trace(state: State<F>, outcomes: seq<Outcome<F>>)

  /** Detected frames processed one after another. */
  function Run<F>(s: State<F>, ds: seq<Detected<F>>): (t: Trace<F>)
    requires s.buffer.Aligned()
    ensures |t.outcomes| == |ds|
    ensures t.state.buffer.Aligned()
    decreases |ds|
  {
    if ds == [] then Trace(s, [])
    else
      var step := Advance(s, ds[0]);
      var rest := Run(step.state, ds[1..]);
      Trace(rest.state, [step.outcome] + rest.outcomes)
  }

  /** Camera frames processed one after another, with one crop-to-frame mapping. */
  function RunFrames<F>(s: State<F>, frames: seq<Frame<F>>, remap: Rect -> Rect): (t: Trace<F>)
    requires s.buffer.Aligned()
  {
    Run(s, seq(|frames|, i requires 0 <= i < |frames| => Detection(frames[i], remap)))
  }

  /**
   * Processed one at a time, frames are never dropped, busy is never left
   * set, and the buffer never reaches the burst size between frames.
   */
  lemma {:induction false} RunStaysIdle<F>(s: State<F>, ds: seq<Detected<F>>)
    requires Idle(s)
    ensures Idle(Run(s, ds).state)
    ensures forall i :: 0 <= i < |ds| ==> Run(s, ds).outcomes[i].Processed?
    decreases |ds|
  {
    if ds != [] {
      var step := Advance(s, ds[0]);
      if ds[0].isCapture && s.buffer.Size() + 1 >= BurstSize {
        CaptureCompletesBurst(s, ds[0]);
      }
      RunStaysIdle(step.state, ds[1..]);
    }
  }

  /** The metrics a run contributes to the buffer, in order. */
  function MetricsOf<F>(ds: seq<Detected<F>>): (ms: seq<Metric>)
    ensures |ms| == |ds|
  {
    seq(|ds|, i requires 0 <= i < |ds| => ds[i].report.metric)
  }

  /** The snapshots of a run, in order. */
  function SnapshotsOf<F>(ds: seq<Detected<F>>): (fs: seq<F>)
    ensures |fs| == |ds|
  {
    seq(|ds|, i requires 0 <= i < |ds| => ds[i].snapshot)
  }

  /** Both projections split off their first element. */
  lemma OfCons<F>(ds: seq<Detected<F>>)
    requires ds != []
    ensures MetricsOf(ds) == [ds[0].report.metric] + MetricsOf(ds[1..])
    ensures SnapshotsOf(ds) == [ds[0].snapshot] + SnapshotsOf(ds[1..])
  {
  }

  /** Every frame of the run asks for capture. */
  predicate AllCapture<F>(ds: seq<Detected<F>>) {
    forall i :: 0 <= i < |ds| ==> ds[i].isCapture
  }

  /** Every frame was processed and none exported a photo. */
  predicate NothingSaved<F>(outcomes: seq<Outcome<F>>) {
    forall i :: 0 <= i < |outcomes| ==> outcomes[i].Processed? && outcomes[i].saved == None
  }

  /** Capture frames short of a full burst append their metrics after what was buffered. */
  lemma {:induction false} BurstMetrics<F>(s: State<F>, ds: seq<Detected<F>>)
    requires Idle(s) && AllCapture(ds) && s.buffer.Size() + |ds| < BurstSize
    ensures Run(s, ds).state.buffer.metrics == s.buffer.metrics + MetricsOf(ds)
    decreases |ds|
  {
    if ds == [] {
      assert s.buffer.metrics + MetricsOf(ds) == s.buffer.metrics;
    } else {
      var step := Advance(s, ds[0]);
      CaptureBelowThreshold(s, ds[0]);
      assert AllCapture(ds[1..]);
      BurstMetrics(step.state, ds[1..]);
      OfCons(ds);
      assert (s.buffer.metrics + [ds[0].report.metric]) + MetricsOf(ds[1..])
          == s.buffer.metrics + MetricsOf(ds);
    }
  }

  /** Capture frames short of a full burst append their snapshots after what was buffered. */
  lemma {:induction false} BurstFrames<F>(s: State<F>, ds: seq<Detected<F>>)
    requires Idle(s) && AllCapture(ds) && s.buffer.Size() + |ds| < BurstSize
    ensures Run(s, ds).state.buffer.frames == s.buffer.frames + SnapshotsOf(ds)
    decreases |ds|
  {
    if ds == [] {
      assert s.buffer.frames + SnapshotsOf(ds) == s.buffer.frames;
    } else {
      var step := Advance(s, ds[0]);
      CaptureBelowThreshold(s, ds[0]);
      assert AllCapture(ds[1..]);
      BurstFrames(step.state, ds[1..]);
      OfCons(ds);
      assert (s.buffer.frames + [ds[0].snapshot]) + SnapshotsOf(ds[1..])
          == s.buffer.frames + SnapshotsOf(ds);
    }
  }

  /**
   * Capture frames that do not complete a burst keep the pipeline idle and
   * accumulate, in arrival order, after what was already buffered.
   */
  lemma {:induction false} BurstAccumulates<F>(s: State<F>, ds: seq<Detected<F>>)
    requires Idle(s) && AllCapture(ds) && s.buffer.Size() + |ds| < BurstSize
    ensures Idle(Run(s, ds).state)
    ensures Run(s, ds).state.buffer.metrics == s.buffer.metrics + MetricsOf(ds)
    ensures Run(s, ds).state.buffer.frames == s.buffer.frames + SnapshotsOf(ds)
  {
    RunStaysIdle(s, ds);
    BurstMetrics(s, ds);
    BurstFrames(s, ds);
  }

  /** Capture frames that do not complete a burst export nothing. */
  lemma {:induction false} BurstSavesNothing<F>(s: State<F>, ds: seq<Detected<F>>)
    requires Idle(s) && AllCapture(ds) && s.buffer.Size() + |ds| < BurstSize
    ensures NothingSaved(Run(s, ds).outcomes)
    decreases |ds|
  {
    if ds != [] {
      var step := Advance(s, ds[0]);
      var rest := Run(step.state, ds[1..]);
      CaptureBelowThreshold(s, ds[0]);
      assert AllCapture(ds[1..]);
      BurstSavesNothing(step.state, ds[1..]);
      assert Run(s, ds).outcomes == [step.outcome] + rest.outcomes;
    }
  }

  /** Capture frames that exactly complete a burst leave the pipeline as it started. */
  lemma {:induction false} BurstEndsEmpty<F>(s: State<F>, ds: seq<Detected<F>>)
    requires Idle(s) && AllCapture(ds) && ds != [] && s.buffer.Size() + |ds| == BurstSize
    ensures Run(s, ds).state == Initial()
    decreases |ds|
  {
    var step := Advance(s, ds[0]);
    if |ds| == 1 {
      CaptureCompletesBurst(s, ds[0]);
    } else {
      CaptureBelowThreshold(s, ds[0]);
      assert AllCapture(ds[1..]);
      BurstEndsEmpty(step.state, ds[1..]);
    }
  }

  /** Of capture frames that exactly complete a burst, all but the last export nothing. */
  lemma {:induction false} BurstSavesOnlyAtEnd<F>(s: State<F>, ds: seq<Detected<F>>)
    requires Idle(s) && AllCapture(ds) && ds != [] && s.buffer.Size() + |ds| == BurstSize
    ensures NothingSaved(Run(s, ds).outcomes[..|ds| - 1])
    decreases |ds|
  {
    var step := Advance(s, ds[0]);
    var rest := Run(step.state, ds[1..]);
    var outcomes := [step.outcome] + rest.outcomes;
    assert Run(s, ds).outcomes == outcomes;
    if |ds| == 1 {
      assert outcomes[..0] == [];
    } else {
      CaptureBelowThreshold(s, ds[0]);
      assert AllCapture(ds[1..]);
      BurstSavesOnlyAtEnd(step.state, ds[1..]);
      assert outcomes[..|ds| - 1] == [step.outcome] + rest.outcomes[..|ds| - 2];
    }
  }

  /**
   * The last of the capture frames that exactly complete a burst exports the
   * frame of the first maximal metric of the whole burst.
   */
  lemma {:induction false} BurstSavesFirstMax<F>(s: State<F>, ds: seq<Detected<F>>)
    requires Idle(s) && AllCapture(ds) && ds != [] && s.buffer.Size() + |ds| == BurstSize
    ensures var ms := s.buffer.metrics + MetricsOf(ds);
      var fs := s.buffer.frames + SnapshotsOf(ds);
      Run(s, ds).outcomes[|ds| - 1] == Processed(ds[|ds| - 1].report.forwarded, Some(fs[SelectIndex(ms)]))
  {
    BurstSavesSelected(s, ds, s.buffer.metrics + MetricsOf(ds), s.buffer.frames + SnapshotsOf(ds));
  }

  /** The induction behind BurstSavesFirstMax, with the whole burst held fixed. */
  lemma {:induction false} BurstSavesSelected<F>(s: State<F>, ds: seq<Detected<F>>, ms: seq<Metric>, fs: seq<F>)
    requires Idle(s) && AllCapture(ds) && ds != [] && s.buffer.Size() + |ds| == BurstSize
    requires ms == s.buffer.metrics + MetricsOf(ds) && fs == s.buffer.frames + SnapshotsOf(ds)
    ensures Run(s, ds).outcomes[|ds| - 1] == Processed(ds[|ds| - 1].report.forwarded, Some(fs[SelectIndex(ms)]))
    decreases |ds|
  {
    var step := Advance(s, ds[0]);
    var rest := Run(step.state, ds[1..]);
    assert Run(s, ds).outcomes == [step.outcome] + rest.outcomes;
    OfCons(ds);
    var n := |ds|;
    if n == 1 {
      CaptureCompletesBurst(s, ds[0]);
      assert MetricsOf(ds) == [ds[0].report.metric];
      assert SnapshotsOf(ds) == [ds[0].snapshot];
    } else {
      CaptureBelowThreshold(s, ds[0]);
      assert AllCapture(ds[1..]);
      assert (s.buffer.metrics + [ds[0].report.metric]) + MetricsOf(ds[1..]) == ms;
      assert (s.buffer.frames + [ds[0].snapshot]) + SnapshotsOf(ds[1..]) == fs;
      BurstSavesSelected(step.state, ds[1..], ms, fs);
      assert ds[1..][n - 2] == ds[n - 1];
    }
  }

  /** The metric of each camera frame, in order. */
  function FrameMetrics<F>(frames: seq<Frame<F>>, remap: Rect -> Rect): (ms: seq<Metric>)
    ensures |ms| == |frames|
  {
    seq(|frames|, i requires 0 <= i < |frames| => Detect(frames[i].results, remap).metric)
  }

  /**
   * From the initial state, holding the shutter for exactly a burst of camera
   * frames exports the frame of the first maximal metric and leaves the
   * pipeline as it started; every earlier frame exports nothing.
   */
  lemma BurstExportsFirstMax<F>(frames: seq<Frame<F>>, remap: Rect -> Rect)
    requires |frames| == BurstSize
    requires forall i :: 0 <= i < |frames| ==> frames[i].isCapture
    ensures var t := RunFrames(Initial(), frames, remap);
      && t.state == Initial()
      && NothingSaved(t.outcomes[..|frames| - 1])
      && t.outcomes[|frames| - 1] == Processed(
           RemapAll(Survivors(frames[|frames| - 1].results), remap),
           Some(frames[SelectIndex(FrameMetrics(frames, remap))].snapshot))
  {
    var init: State<F> := Initial();
    var ds := seq(|frames|, i requires 0 <= i < |frames| => Detection(frames[i], remap));
    assert AllCapture(ds);
    BurstEndsEmpty(init, ds);
    BurstSavesOnlyAtEnd(init, ds);
    BurstSavesFirstMax(init, ds);
    assert [] + MetricsOf(ds) == FrameMetrics(frames, remap);
    assert [] + SnapshotsOf(ds) == SnapshotsOf(ds);
  }

  /**
   * A capture frame on which the model reports nothing at all has metric
   * 0.0 / 0, which is NaN; NaN outranks every number, so a burst containing
   * such a frame exports the first of them whatever the other frames show.
   */
  lemma EmptyFrameWinsBurst<F>(frames: seq<Frame<F>>, remap: Rect -> Rect, j: nat)
    requires |frames| == BurstSize
    requires forall i :: 0 <= i < |frames| ==> frames[i].isCapture
    requires j < |frames| && frames[j].results == []
    requires forall i :: 0 <= i < j ==> frames[i].results != []
    ensures var t := RunFrames(Initial(), frames, remap);
      t.outcomes[|frames| - 1] == Processed(
        RemapAll(Survivors(frames[|frames| - 1].results), remap), Some(frames[j].snapshot))
  {
    var ms := FrameMetrics(frames, remap);
    BurstExportsFirstMax(frames, remap);
    forall i | 0 <= i < j
      ensures ms[i] != NaN
    {
      assert ms[i] == Detect(frames[i].results, remap).metric;
    }
    FirstNaNWins(ms, j);
  }
}
