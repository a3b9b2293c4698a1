/** What one pass of the Raspberry Pi capture loop guarantees. */
module WildlifePiProofs {
  import opened Wrappers
  import opened Clock
  import Naming
  import W = Wildlife
  import opened WildlifePi

  /** Every rectangle's reading comes no earlier than the pass's timestamp. */
  predicate MonotoneReadings(input: PiInput) {
    forall i :: 0 <= i < |input.readings| ==> input.timestamp <= input.readings[i]
  }

  /**
   * A pass with at least one rectangle leaves recording on with the last
   * rectangle's reading as the activity time; on a clock that does not go
   * back, the stop check of the same pass cannot turn it off again.
   */
  lemma RectangleTurnsOn<F>(cfg: Config, s: PiGlobals<F>, input: PiInput<F>)
    requires Valid(s) && input.readings != []
    ensures var s1 := AfterRectangles(cfg, s, input.timestamp, input.readings);
      s1.status == W.On && s1.lastActivity == Some(input.readings[|input.readings| - 1])
    ensures MonotoneReadings(input) ==>
      PiStep(cfg, s, input).status == W.On
      && PiStep(cfg, s, input).lastActivity == Some(input.readings[|input.readings| - 1])
  {
    var s1 := AfterRectangles(cfg, s, input.timestamp, input.readings);
    AfterRectanglesKeepsValid(cfg, s, input.timestamp, input.readings);
    if MonotoneReadings(input) {
      assert input.timestamp <= input.readings[|input.readings| - 1];
      assert !StopDue(cfg, s1, input.timestamp);
      assert StopCheck(cfg, s1, input.timestamp) == s1;
      assert PiStep(cfg, s, input) == StoreFrame(cfg, s1, input.frame);
    }
  }

  /**
   * A writer is opened, and the start time and file name set, only when
   * recording was off; when it was already on they are kept. Either way the
   * outcome does not depend on how many rectangles there were.
   */
  lemma WriterOpensOnlyOnEdge<F>(cfg: Config, s: PiGlobals<F>, timestamp: Instant, readings: seq<Instant>)
    requires readings != []
    ensures var s1 := AfterRectangles(cfg, s, timestamp, readings);
      && (s.status == W.Off ==>
            var name := Naming.VideoFilename(timestamp, cfg.storePath);
            s1.startTime == Some(timestamp) && s1.filename == name && s1.videoOut == Some(Output(name, [])))
      && (s.status == W.On ==>
            s1.startTime == s.startTime && s1.filename == s.filename && s1.videoOut == s.videoOut)
      && s1.released == s.released
  {
  }

  /** Two passes that differ only in the number of rectangles open the same writer. */
  lemma RectangleCountIrrelevant<F>(cfg: Config, s: PiGlobals<F>, timestamp: Instant, r1: seq<Instant>, r2: seq<Instant>)
    requires r1 != [] && r2 != [] && r1[|r1| - 1] == r2[|r2| - 1]
    ensures AfterRectangles(cfg, s, timestamp, r1) == AfterRectangles(cfg, s, timestamp, r2)
  {
  }

  /** A pass without rectangles while off stays off and opens nothing. */
  lemma NoRectanglesWhileOff<F>(cfg: Config, s: PiGlobals<F>, input: PiInput<F>)
    requires Valid(s) && s.status == W.Off && input.readings == []
    ensures PiStep(cfg, s, input) == s
  {
  }

  /**
   * On to off happens exactly when, after the rectangle loop, recording is on,
   * the last activity lies strictly before the timestamp and the gap's
   * seconds component reaches the minimum; the open writer is then released
   * (without this pass's frame) and set to None.
   */
  lemma StopReleasesWriter<F>(cfg: Config, s: PiGlobals<F>, input: PiInput<F>)
    requires Valid(s)
    ensures var s1 := AfterRectangles(cfg, s, input.timestamp, input.readings);
      var s' := PiStep(cfg, s, input);
      && (s1.status == W.On && s'.status == W.Off <==> StopDue(cfg, s1, input.timestamp))
      && (StopDue(cfg, s1, input.timestamp) ==>
            s'.videoOut == None && s'.released == s.released + [s1.videoOut.value])
      && (!StopDue(cfg, s1, input.timestamp) ==> s'.released == s.released && s'.status == s1.status)
  {
    AfterRectanglesKeepsValid(cfg, s, input.timestamp, input.readings);
  }

  /**
   * The frame of a pass is written exactly when videos are stored and a writer
   * is open after the stop check, that is, while recording is on; a pass that
   * ends off writes nothing anywhere.
   */
  lemma FrameWrittenOnlyWhileOn<F>(cfg: Config, s: PiGlobals<F>, input: PiInput<F>)
    requires Valid(s)
    ensures var s1 := AfterRectangles(cfg, s, input.timestamp, input.readings);
      var s' := PiStep(cfg, s, input);
      && (s'.status == W.On && cfg.storeVideo ==>
            s'.videoOut.value.frames == s1.videoOut.value.frames + [input.frame]
            && s'.released == s.released)
      && (s'.status == W.On && !cfg.storeVideo ==> s'.videoOut == s1.videoOut)
      && (s'.status == W.Off ==>
            && s'.videoOut == None
            && (s'.released == s.released || s'.released == s.released + [s1.videoOut.value]))
  {
    AfterRectanglesKeepsValid(cfg, s, input.timestamp, input.readings);
  }

  /** `name` lies directly in the storage folder `path`. */
  predicate InStore(name: string, path: string) {
    |name| > |path| && name[..|path| + 1] == path + "/" && '/' !in name[|path| + 1..]
  }

  /** Every writer opened during a run, released or still open, writes a file in the storage folder. */
  lemma {:induction false} ReleasedWritersNamed<F>(cfg: Config, inputs: seq<PiInput<F>>)
    ensures forall i :: 0 <= i < |PiRun(cfg, inputs).released| ==>
      InStore(PiRun(cfg, inputs).released[i].filename, cfg.storePath)
    ensures PiRun(cfg, inputs).videoOut.Some? ==>
      InStore(PiRun(cfg, inputs).videoOut.value.filename, cfg.storePath)
    decreases |inputs|
  {
    if inputs != [] {
      var init := inputs[..|inputs| - 1];
      ReleasedWritersNamed(cfg, init);
      var s := PiRun(cfg, init);
      var input := inputs[|inputs| - 1];
      AfterRectanglesKeepsValid(cfg, s, input.timestamp, input.readings);
      var name := Naming.VideoFilename(input.timestamp, cfg.storePath);
      assert InStore(name, cfg.storePath);
    }
  }
}
