/**
 * The capture loop of the main script: a per-frame transition over the
 * script's globals that counts motion, debounces the start of a recording
 * by the rate of activity, snapshots the frame that crosses the retention
 * threshold, stops after a quiet period, and issues the calls to the
 * asynchronous writer.
 */
module Wildlife {
  import opened Wrappers
  import opened Clock
  import Naming

  /** The configuration fields the loop reads. */
  datatype Config = Config(
    motionDetection: bool,
    storeVideo: bool,
    storeThreshold: int,
    minRecordingSeconds: int,
    storePath: string)

  datatype Status = Off | On

  /** `start_recording_threshold_t1` (latest checkpoint) and `_t2` (the one before). */
  datatype Window = Window(t1: Option<Instant>, t2: Option<Instant>)

  /** A checkpoint is taken on every 5th activity. */
  const CheckpointEvery: int := 5

  /**
   * `start_recording_threshold(activity_count)`, with `datetime.now()` as
   * `now`: off a checkpoint it answers False and keeps the window; on a
   * checkpoint it shifts `t1` into `t2`, stores `now` as `t1`, and answers
   * True exactly when there was an earlier checkpoint whose gap to `now` has
   * a seconds component below one.
   */
  function StartRecordingThreshold(w: Window, activityCount: int, now: Instant): (r: (Window, bool))
    ensures activityCount % CheckpointEvery != 0 ==> r == (w, false)
    ensures activityCount % CheckpointEvery == 0 ==> r.0 == Window(Some(now), w.t1)
    ensures r.1 <==> activityCount % CheckpointEvery == 0 && w.t1.Some? && SecondsComponent(now, w.t1.value) < 1
  {
    if activityCount % CheckpointEvery == 0 then
      var w' := Window(Some(now), w.t1);
      (w', w'.t2.Some? && SecondsComponent(now, w'.t2.value) < 1)
    else
      (w, false)
  }

  /** The module globals the loop updates. */
  datatype Globals<F> = Globals(
    frameCount: int,
    motionDetected: bool,
    lastActivity: Option<Instant>,
    status: Status,
    startTime: Option<Instant>,
    filename: string,
    total: int,          // activity_count_total
    session: int,        // activity_count_during_recording
    snapshot: Option<F>, // last_recording_snapshot
    window: Window)

  /** What the loop asks of the `AsyncVideoWriter`, in order. */
  datatype WriterCall<F> = Start(filename: string) | Stop(activityCount: int) | Write(frame: F)

  /**
   * The three `datetime.now()` readings of one pass: `timestamp` (line 114),
   * `last_activity` (line 122) and the checkpoint time (line 40).
   */
  datatype Readings = Readings(frameTime: Instant, activityTime: Instant, checkpointTime: Instant)

  /** A clock that does not go back during the pass. */
  predicate Monotone(r: Readings) {
    r.frameTime <= r.activityTime <= r.checkpointTime
  }

  /**
   * One `capture.read()` and what the pass sees: the frame (None when the
   * camera had none), what `detect_motion` would answer for it, the clock,
   * and the frame's capture timestamp.
   */
  datatype FrameInput<F> = FrameInput(frame: Option<F>, detected: bool, clock: Readings, frameTimestamp: Instant)

  /** The relations between the globals that every pass keeps. */
  ghost predicate Valid<F>(s: Globals<F>) {
    && 0 <= s.frameCount
    && (s.status == On ==> s.lastActivity.Some? && s.startTime.Some?)
    && 0 <= s.session <= s.total
    && (s.window.t2.Some? ==> s.window.t1.Some?)
    && (s.window.t1.Some? ==> s.total >= CheckpointEvery)
  }

  /** The globals at module load. */
  function Init<F>(): (s: Globals<F>)
    ensures Valid(s) && s.status == Off && s.total == 0 && s.session == 0
  {
    Globals(0, false, None, Off, None, "", 0, 0, None, Window(None, None))
  }

  /** Lines 112-117: count the frame and, on every third one, ask the detector. */
  function Sample<F>(cfg: Config, s: Globals<F>, detected: bool): Globals<F> {
    var n := s.frameCount + 1;
    s.(frameCount := n,
       motionDetected := if cfg.motionDetection && n % 3 == 0 then detected else s.motionDetected)
  }

  /** Lines 122-136: a frame with motion. */
  function OnMotion<F>(cfg: Config, s: Globals<F>, frame: F, clock: Readings, frameTimestamp: Instant)
    : (Globals<F>, seq<WriterCall<F>>)
  {
    var s1 := s.(lastActivity := Some(clock.activityTime), total := s.total + 1);
    var (s2, calls) :=
      if s1.status == Off then
        var (w, trigger) := StartRecordingThreshold(s1.window, s1.total, clock.checkpointTime);
        if trigger then
          var name := Naming.VideoFilename(frameTimestamp, cfg.storePath);
          var started := s1.(window := w, status := On, startTime := Some(frameTimestamp), filename := name);
          if cfg.storeVideo then (started.(session := 0), [Start(name)]) else (started, [])
        else
          (s1.(window := w), [])
      else
        (s1, []);
    var session := s2.session + 1;
    (s2.(session := session, snapshot := if session == cfg.storeThreshold + 1 then Some(frame) else s2.snapshot),
     calls)
  }

  /** The stop condition of lines 144-145, on the globals after the motion branch. */
  predicate StopDue<F>(cfg: Config, s: Globals<F>, timestamp: Instant) {
    s.status == On && s.lastActivity.Some? && s.lastActivity.value < timestamp
    && SecondsComponent(timestamp, s.lastActivity.value) >= cfg.minRecordingSeconds
  }

  /** Lines 144-151. */
  function StopCheck<F>(cfg: Config, s: Globals<F>, timestamp: Instant): (Globals<F>, seq<WriterCall<F>>) {
    if StopDue(cfg, s, timestamp) then
      (s.(status := Off), if cfg.storeVideo then [Stop(s.session)] else [])
    else
      (s, [])
  }

  /** The globals after the motion branch of a pass over `frame`. */
  function AfterMotion<F>(cfg: Config, s: Globals<F>, frame: F, input: FrameInput<F>): (Globals<F>, seq<WriterCall<F>>) {
    var s1 := Sample(cfg, s, input.detected);
    if s1.motionDetected then OnMotion(cfg, s1, frame, input.clock, input.frameTimestamp) else (s1, [])
  }

  /**
   * One pass of the capture loop (lines 107-165): a missing frame is skipped;
   * otherwise sample, the motion branch, the stop check, and the frame handed
   * to the writer when videos are stored.
   */
  function Step<F>(cfg: Config, s: Globals<F>, input: FrameInput<F>): (Globals<F>, seq<WriterCall<F>>) {
    match input.frame
    case None => (s, [])
    case Some(frame) =>
      var (s2, c2) := AfterMotion(cfg, s, frame, input);
      var (s3, c3) := StopCheck(cfg, s2, input.clock.frameTime);
      (s3, c2 + c3 + (if cfg.storeVideo then [Write(frame)] else []))
  }

  /** The passes over `inputs`, from the globals at module load. */
  function Run<F>(cfg: Config, inputs: seq<FrameInput<F>>): (r: (Globals<F>, seq<WriterCall<F>>))
    ensures Valid(r.0)
  {
    if inputs == [] then
      (Init(), [])
    else
      var (s, calls) := Run(cfg, inputs[..|inputs| - 1]);
      StepKeepsValid(cfg, s, inputs[|inputs| - 1]);
      var (s', calls') := Step(cfg, s, inputs[|inputs| - 1]);
      (s', calls + calls')
  }

  /** Every pass keeps the relations between the globals. */
  lemma StepKeepsValid<F>(cfg: Config, s: Globals<F>, input: FrameInput<F>)
    requires Valid(s)
    ensures Valid(Step(cfg, s, input).0)
  {
  }

  /**
   * The capture loop followed by the shutdown: the passes over `inputs`,
   * then `writer.stop(0)` (line 181) whatever the state.
   */
  method MainLoop<F>(cfg: Config, inputs: seq<FrameInput<F>>) returns (s: Globals<F>, calls: seq<WriterCall<F>>)
    ensures Valid(s)
    ensures (s, calls) == (Run(cfg, inputs).0, Run(cfg, inputs).1 + [Stop(0)])
  {
    s := Init();
    calls := [];
    var i := 0;
    while i < |inputs|
      invariant 0 <= i <= |inputs|
      invariant (s, calls) == Run(cfg, inputs[..i])
    {
      assert inputs[..i + 1][..i] == inputs[..i];
      var (s', calls') := Step(cfg, s, inputs[i]);
      s, calls := s', calls + calls';
      i := i + 1;
    }
    assert inputs[..i] == inputs;
    calls := calls + [Stop(0)];
  }
}
