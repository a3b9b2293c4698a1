/**
 * The capture loop of the Raspberry Pi script: any motion rectangle turns
 * recording on, opening a video writer only on the edge from off to on;
 * inactivity turns it off and releases the writer; frames go to the writer
 * while one is open.
 */
module WildlifePi {
  import opened Wrappers
  import opened Clock
  import Naming
  import W = Wildlife

  /** The configuration fields the loop reads. */
  datatype Config = Config(storeVideo: bool, minRecordingSeconds: int, storePath: string)

  /** An open `cv2.VideoWriter`: its file and the frames written to it so far. */
  datatype Output<F> = Output(filename: string, frames: seq<F>)

  /** The module globals the loop updates, and the writers it has released. */
  datatype PiGlobals<F> = PiGlobals(
    lastActivity: Option<Instant>,
    status: W.Status,
    startTime: Option<Instant>,
    filename: string,
    videoOut: Option<Output<F>>,
    released: seq<Output<F>>)

  /**
   * One pass of `capture_continuous`: the `timestamp` read first (line 62),
   * one `datetime.now()` reading per motion rectangle (line 69) — only their
   * number and times matter, the geometry is for drawing — and the frame.
   */
  datatype PiInput<F> = PiInput(timestamp: Instant, readings: seq<Instant>, frame: F)

  /** A writer is open exactly while recording, and it writes the current file. */
  ghost predicate Valid<F>(s: PiGlobals<F>) {
    && (s.status == W.On <==> s.videoOut.Some?)
    && (s.status == W.On ==> s.lastActivity.Some? && s.startTime.Some? && s.videoOut.value.filename == s.filename)
  }

  function Init<F>(): (s: PiGlobals<F>)
    ensures Valid(s) && s.status == W.Off && s.released == []
  {
    PiGlobals(None, W.Off, None, "", None, [])
  }

  /**
   * What the loop over the rectangles (lines 68-79) leaves: nothing changes
   * without rectangles; with some, the last one's reading is the activity
   * time, recording is on, and if it was off a writer was opened on the file
   * named after `timestamp`.
   */
  function AfterRectangles<F>(cfg: Config, s: PiGlobals<F>, timestamp: Instant, readings: seq<Instant>): PiGlobals<F> {
    if readings == [] then s
    else
      var withWriter :=
        if s.status == W.Off then
          var name := Naming.VideoFilename(timestamp, cfg.storePath);
          s.(startTime := Some(timestamp), filename := name, videoOut := Some(Output(name, [])))
        else s;
      withWriter.(lastActivity := Some(readings[|readings| - 1]), status := W.On)
  }

  /** The loop over the rectangles, statement by statement. */
  method RectangleLoop<F>(cfg: Config, s: PiGlobals<F>, timestamp: Instant, readings: seq<Instant>)
    returns (s': PiGlobals<F>)
    ensures s' == AfterRectangles(cfg, s, timestamp, readings)
  {
    s' := s;
    for i := 0 to |readings|
      invariant s' == AfterRectangles(cfg, s, timestamp, readings[..i])
    {
      s' := s'.(lastActivity := Some(readings[i]));
      if s'.status == W.Off {
        var name := Naming.VideoFilename(timestamp, cfg.storePath);
        s' := s'.(startTime := Some(timestamp), filename := name, videoOut := Some(Output(name, [])));
      }
      s' := s'.(status := W.On);
      assert readings[..i + 1][..i] == readings[..i];
    }
    assert readings[..|readings|] == readings;
  }

  /** The stop condition of lines 81-82. */
  predicate StopDue<F>(cfg: Config, s: PiGlobals<F>, timestamp: Instant) {
    s.status == W.On && s.lastActivity.Some? && s.lastActivity.value < timestamp
    && SecondsComponent(timestamp, s.lastActivity.value) >= cfg.minRecordingSeconds
  }

  /** Lines 81-88: release the writer and turn recording off. */
  function StopCheck<F>(cfg: Config, s: PiGlobals<F>, timestamp: Instant): PiGlobals<F>
    requires Valid(s)
  {
    if StopDue(cfg, s, timestamp) then
      s.(released := s.released + [s.videoOut.value], videoOut := None, status := W.Off)
    else s
  }

  /** Lines 100-101: write the frame if a writer is open and videos are stored. */
  function StoreFrame<F>(cfg: Config, s: PiGlobals<F>, frame: F): PiGlobals<F> {
    if s.videoOut.Some? && cfg.storeVideo then
      s.(videoOut := Some(s.videoOut.value.(frames := s.videoOut.value.frames + [frame])))
    else s
  }

  lemma AfterRectanglesKeepsValid<F>(cfg: Config, s: PiGlobals<F>, timestamp: Instant, readings: seq<Instant>)
    requires Valid(s)
    ensures Valid(AfterRectangles(cfg, s, timestamp, readings))
  {
  }

  /** One pass of the capture loop (lines 62-101). */
  function PiStep<F>(cfg: Config, s: PiGlobals<F>, input: PiInput<F>): (s': PiGlobals<F>)
    requires Valid(s)
    ensures Valid(s')
  {
    var s1 := AfterRectangles(cfg, s, input.timestamp, input.readings);
    AfterRectanglesKeepsValid(cfg, s, input.timestamp, input.readings);
    StoreFrame(cfg, StopCheck(cfg, s1, input.timestamp), input.frame)
  }

  /** The body of the capture loop, with the rectangle loop run statement by statement. */
  method CaptureLoopBody<F>(cfg: Config, s: PiGlobals<F>, input: PiInput<F>) returns (s': PiGlobals<F>)
    requires Valid(s)
    ensures s' == PiStep(cfg, s, input)
  {
    s' := RectangleLoop(cfg, s, input.timestamp, input.readings);
    AfterRectanglesKeepsValid(cfg, s, input.timestamp, input.readings);
    if StopDue(cfg, s', input.timestamp) {
      s' := s'.(released := s'.released + [s'.videoOut.value], videoOut := None, status := W.Off);
    }
    if s'.videoOut.Some? && cfg.storeVideo {
      s' := s'.(videoOut := Some(s'.videoOut.value.(frames := s'.videoOut.value.frames + [input.frame])));
    }
  }

  /** The passes over `inputs`, from the globals at start-up. */
  function PiRun<F>(cfg: Config, inputs: seq<PiInput<F>>): (s: PiGlobals<F>)
    ensures Valid(s)
  {
    if inputs == [] then Init() else PiStep(cfg, PiRun(cfg, inputs[..|inputs| - 1]), inputs[|inputs| - 1])
  }

  /** The capture loop over `inputs` (its end stands for the `q` key). */
  method CaptureLoop<F>(cfg: Config, inputs: seq<PiInput<F>>) returns (s: PiGlobals<F>)
    ensures s == PiRun(cfg, inputs)
  {
    s := Init();
    for i := 0 to |inputs|
      invariant s == PiRun(cfg, inputs[..i])
    {
      assert inputs[..i + 1][..i] == inputs[..i];
      s := CaptureLoopBody(cfg, s, inputs[i]);
    }
    assert inputs[..|inputs|] == inputs;
  }
}
