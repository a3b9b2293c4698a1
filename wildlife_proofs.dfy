/** What the per-frame transition of the main script guarantees, pass by pass and over a run. */
module WildlifeProofs {
  import opened Wrappers
  import opened Clock
  import opened Wildlife
  import Naming

  // ---------------------------------------------------------------------------
  // The start debouncer
  // ---------------------------------------------------------------------------

  /** Before any checkpoint exists, a checkpoint only records itself: it never starts a recording. */
  lemma FirstCheckpointNeverStarts(activityCount: int, now: Instant)
    ensures StartRecordingThreshold(Window(None, None), activityCount, now).1 == false
    ensures activityCount % CheckpointEvery == 0 ==>
              StartRecordingThreshold(Window(None, None), activityCount, now).0 == Window(Some(now), None)
  {
  }

  /**
   * With a clock that moved forward by less than a day since the previous
   * checkpoint, a checkpoint starts a recording exactly when it comes less
   * than one second after the previous one.
   */
  lemma DenseCheckpointsStart(w: Window, activityCount: int, now: Instant)
    requires w.t1.Some? && 0 <= now - w.t1.value < SecondsPerDay * MicrosPerSecond
    ensures StartRecordingThreshold(w, activityCount, now).1
        <==> activityCount % CheckpointEvery == 0 && now - w.t1.value < MicrosPerSecond
  {
    SecondsComponentWithinDay(now, w.t1.value);
  }

  /**
   * Because `.seconds` drops whole days, two checkpoints a day and half a
   * second apart also count as dense.
   */
  lemma DayApartCheckpointsStart(w: Window, activityCount: int, now: Instant)
    requires w.t1.Some? && activityCount % CheckpointEvery == 0
    requires now == w.t1.value + SecondsPerDay * MicrosPerSecond + MicrosPerSecond / 2
    ensures StartRecordingThreshold(w, activityCount, now).1
  {
    SecondsComponentDropsDays(w.t1.value + MicrosPerSecond / 2, w.t1.value, 1);
  }

  // ---------------------------------------------------------------------------
  // One pass
  // ---------------------------------------------------------------------------

  /** `if frame is None: continue` — nothing changes, nothing is issued. */
  lemma SkippedFrameChangesNothing<F>(cfg: Config, s: Globals<F>, input: FrameInput<F>)
    requires input.frame.None?
    ensures Step(cfg, s, input) == (s, [])
  {
  }

  /** How many of `inputs` delivered a frame. */
  function FramesIn<F>(inputs: seq<FrameInput<F>>): nat {
    if inputs == [] then 0
    else FramesIn(inputs[..|inputs| - 1]) + (if inputs[|inputs| - 1].frame.Some? then 1 else 0)
  }

  /** Pass `i` of `inputs` asked the detector: it had a frame, and that frame was a third one. */
  predicate Sampled<F>(cfg: Config, inputs: seq<FrameInput<F>>, i: int) {
    0 <= i < |inputs| && inputs[i].frame.Some? && cfg.motionDetection && FramesIn(inputs[..i + 1]) % 3 == 0
  }

  /** A pass counts its frame and refreshes the detector's answer only on a third frame with detection on. */
  lemma StepSamples<F>(cfg: Config, s: Globals<F>, input: FrameInput<F>)
    ensures Step(cfg, s, input).0.frameCount == s.frameCount + (if input.frame.Some? then 1 else 0)
    ensures Step(cfg, s, input).0.motionDetected ==
      if input.frame.Some? && cfg.motionDetection && (s.frameCount + 1) % 3 == 0 then input.detected else s.motionDetected
  {
  }

  /** Some pass of `inputs` asked the detector and saw motion, and no later pass asked. */
  ghost predicate LastSampleDetects<F>(cfg: Config, inputs: seq<FrameInput<F>>) {
    exists i :: Sampled(cfg, inputs, i) && inputs[i].detected && forall j :: i < j < |inputs| ==> !Sampled(cfg, inputs, j)
  }

  /** Whether an earlier pass asked the detector does not depend on the passes after it. */
  lemma SampledPrefix<F>(cfg: Config, inputs: seq<FrameInput<F>>, i: int)
    requires 0 <= i < |inputs| - 1
    ensures Sampled(cfg, inputs, i) == Sampled(cfg, inputs[..|inputs| - 1], i)
  {
    assert inputs[..i + 1] == inputs[..|inputs| - 1][..i + 1];
  }

  /** The last pass decides if it asked the detector; otherwise the earlier passes do. */
  lemma LastSampleSnoc<F>(cfg: Config, inputs: seq<FrameInput<F>>)
    requires inputs != []
    ensures LastSampleDetects(cfg, inputs) <==>
      if Sampled(cfg, inputs, |inputs| - 1) then inputs[|inputs| - 1].detected
      else LastSampleDetects(cfg, inputs[..|inputs| - 1])
  {
    var init := inputs[..|inputs| - 1];
    var last := |inputs| - 1;
    if Sampled(cfg, inputs, last) {
      if inputs[last].detected {
        assert Sampled(cfg, inputs, last) && inputs[last].detected;
      }
    } else {
      if LastSampleDetects(cfg, init) {
        var i :| Sampled(cfg, init, i) && init[i].detected && forall j :: i < j < |init| ==> !Sampled(cfg, init, j);
        SampledPrefix(cfg, inputs, i);
        forall j | i < j < |inputs|
          ensures !Sampled(cfg, inputs, j)
        {
          if j < last {
            SampledPrefix(cfg, inputs, j);
          }
        }
        assert Sampled(cfg, inputs, i) && inputs[i].detected;
      }
      if LastSampleDetects(cfg, inputs) {
        var i :| Sampled(cfg, inputs, i) && inputs[i].detected && forall j :: i < j < |inputs| ==> !Sampled(cfg, inputs, j);
        assert i < last;
        SampledPrefix(cfg, inputs, i);
        forall j | i < j < |init|
          ensures !Sampled(cfg, init, j)
        {
          SampledPrefix(cfg, inputs, j);
        }
        assert Sampled(cfg, init, i) && init[i].detected;
      }
    }
  }

  /**
   * The frame counter counts the frames delivered, and `motion_detected` holds
   * the answer of the last pass that asked the detector: true exactly when
   * some pass asked, that pass's answer was motion, and no later pass asked.
   * With detection off it is never true.
   */
  lemma {:induction false} MotionDetectedIsLastSample<F>(cfg: Config, inputs: seq<FrameInput<F>>)
    ensures Run(cfg, inputs).0.frameCount == FramesIn(inputs)
    ensures Run(cfg, inputs).0.motionDetected <==>
      exists i :: Sampled(cfg, inputs, i) && inputs[i].detected && forall j :: i < j < |inputs| ==> !Sampled(cfg, inputs, j)
    ensures !cfg.motionDetection ==> !Run(cfg, inputs).0.motionDetected
    decreases |inputs|
  {
    if inputs != [] {
      var init := inputs[..|inputs| - 1];
      var last := |inputs| - 1;
      MotionDetectedIsLastSample(cfg, init);
      LastSampleSnoc(cfg, inputs);
      assert inputs[..last + 1] == inputs;
      var s := Run(cfg, init).0;
      assert Run(cfg, inputs).0 == Step(cfg, s, inputs[last]).0;
      StepSamples(cfg, s, inputs[last]);
    }
  }

  /**
   * A motion pass counts one activity and records its time; a pass without
   * motion leaves the counters, the activity time, the snapshot and the
   * debounce window as they were.
   */
  lemma MotionCounting<F>(cfg: Config, s: Globals<F>, input: FrameInput<F>)
    requires input.frame.Some?
    ensures var s' := Step(cfg, s, input).0;
      if Sample(cfg, s, input.detected).motionDetected then
        s'.total == s.total + 1 && s'.lastActivity == Some(input.clock.activityTime)
      else
        s'.total == s.total && s'.session == s.session && s'.lastActivity == s.lastActivity
        && s'.snapshot == s.snapshot && s'.window == s.window
  {
  }

  /** The debouncer is only consulted while recording is off: while on, its checkpoints are frozen. */
  lemma WindowFrozenWhileOn<F>(cfg: Config, s: Globals<F>, input: FrameInput<F>)
    requires s.status == On
    ensures Step(cfg, s, input).0.window == s.window
  {
  }

  /** Whether the debouncer fires on this pass (it is consulted only on a motion pass while off). */
  predicate Triggers<F>(cfg: Config, s: Globals<F>, input: FrameInput<F>) {
    input.frame.Some? && s.status == Off && Sample(cfg, s, input.detected).motionDetected
    && StartRecordingThreshold(s.window, s.total + 1, input.clock.checkpointTime).1
  }

  /**
   * Off to on: the session starts at the frame's capture time under its file
   * name; with video storing on, the per-session counter is reset and then
   * counts the triggering frame, ending at 1, and `start` is the first call.
   * Without a trigger no `start` is issued and a motion pass just adds one.
   */
  lemma StartEdge<F>(cfg: Config, s: Globals<F>, input: FrameInput<F>)
    requires input.frame.Some?
    ensures var (s', calls) := Step(cfg, s, input);
      && (Triggers(cfg, s, input) ==>
            && s'.startTime == Some(input.frameTimestamp)
            && s'.filename == Naming.VideoFilename(input.frameTimestamp, cfg.storePath)
            && (cfg.storeVideo ==> s'.session == 1 && calls[0] == Start(s'.filename))
            && (!cfg.storeVideo ==> s'.session == s.session + 1))
      && (!Triggers(cfg, s, input) ==>
            && (forall i :: 0 <= i < |calls| ==> !calls[i].Start?)
            && s'.startTime == s.startTime && s'.filename == s.filename
            && s'.session == s.session + (if Sample(cfg, s, input.detected).motionDetected then 1 else 0))
  {
    var frame := input.frame.value;
    var (s2, c2) := AfterMotion(cfg, s, frame, input);
    if Triggers(cfg, s, input) {
      MotionBranchStarts(cfg, s, frame, input);
    } else {
      MotionBranchQuiet(cfg, s, frame, input);
    }
    StopCheckOnlyStops(cfg, s2, input.clock.frameTime);
    var (s3, c3) := StopCheck(cfg, s2, input.clock.frameTime);
    var calls := c2 + c3 + (if cfg.storeVideo then [Write(frame)] else []);
    assert Step(cfg, s, input) == (s3, calls);
    if Triggers(cfg, s, input) && cfg.storeVideo {
      assert calls[0] == c2[0];
    } else if !Triggers(cfg, s, input) {
      assert forall i :: 0 <= i < |calls| ==> calls[i] in c3 || calls[i].Write?;
    }
  }

  /** The motion branch of a pass on which the debouncer fires. */
  lemma MotionBranchStarts<F>(cfg: Config, s: Globals<F>, frame: F, input: FrameInput<F>)
    requires input.frame == Some(frame) && Triggers(cfg, s, input)
    ensures var (s2, c2) := AfterMotion(cfg, s, frame, input);
      && s2.startTime == Some(input.frameTimestamp)
      && s2.filename == Naming.VideoFilename(input.frameTimestamp, cfg.storePath)
      && (cfg.storeVideo ==> s2.session == 1 && c2 == [Start(s2.filename)])
      && (!cfg.storeVideo ==> s2.session == s.session + 1)
  {
    var s1 := Sample(cfg, s, input.detected);
    var (w, trigger) := StartRecordingThreshold(s1.window, s1.total + 1, input.clock.checkpointTime);
    assert trigger;
  }

  /** The motion branch of a pass on which the debouncer does not fire. */
  lemma MotionBranchQuiet<F>(cfg: Config, s: Globals<F>, frame: F, input: FrameInput<F>)
    requires input.frame == Some(frame) && !Triggers(cfg, s, input)
    ensures var (s2, c2) := AfterMotion(cfg, s, frame, input);
      && c2 == [] && s2.startTime == s.startTime && s2.filename == s.filename
      && s2.status == s.status
      && s2.session == s.session + (if Sample(cfg, s, input.detected).motionDetected then 1 else 0)
  {
    var s1 := Sample(cfg, s, input.detected);
    if !s1.motionDetected {
      assert AfterMotion(cfg, s, frame, input) == (s1, []);
    } else if s.status == On {
      var s1' := s1.(lastActivity := Some(input.clock.activityTime), total := s1.total + 1);
      var n := s1'.session + 1;
      assert OnMotion(cfg, s1, frame, input.clock, input.frameTimestamp)
          == (s1'.(session := n, snapshot := if n == cfg.storeThreshold + 1 then Some(frame) else s1'.snapshot), []);
    } else {
      var s1' := s1.(lastActivity := Some(input.clock.activityTime), total := s1.total + 1);
      var (w, trigger) := StartRecordingThreshold(s1'.window, s1'.total, input.clock.checkpointTime);
      assert !trigger;
      var n := s1'.session + 1;
      assert OnMotion(cfg, s1, frame, input.clock, input.frameTimestamp)
          == (s1'.(window := w, session := n, snapshot := if n == cfg.storeThreshold + 1 then Some(frame) else s1'.snapshot), []);
    }
  }

  /** The stop check changes only the status, and issues at most a `stop` with the session count. */
  lemma StopCheckOnlyStops<F>(cfg: Config, s: Globals<F>, timestamp: Instant)
    ensures StopCheck(cfg, s, timestamp).0 == s.(status := if StopDue(cfg, s, timestamp) then Off else s.status)
    ensures forall c :: c in StopCheck(cfg, s, timestamp).1 ==> c == Stop(s.session)
  {
  }

  /** The snapshot is taken exactly on the motion pass whose per-session count reaches threshold + 1. */
  lemma SnapshotAtThresholdPlusOne<F>(cfg: Config, s: Globals<F>, input: FrameInput<F>)
    requires input.frame.Some?
    ensures var s' := Step(cfg, s, input).0;
      s'.snapshot == if Sample(cfg, s, input.detected).motionDetected && s'.session == cfg.storeThreshold + 1
                     then Some(input.frame.value) else s.snapshot
  {
  }

  /**
   * On to off: a pass ends the recording exactly when, after its motion
   * branch, recording is on, the last activity lies strictly before the
   * pass's timestamp and the gap's seconds component reaches the minimum. It
   * then issues `stop` with the per-session count, and otherwise no `stop`.
   */
  lemma StopEdge<F>(cfg: Config, s: Globals<F>, input: FrameInput<F>)
    requires input.frame.Some?
    ensures var (s2, _) := AfterMotion(cfg, s, input.frame.value, input);
      var (s', calls) := Step(cfg, s, input);
      && s'.status == (if StopDue(cfg, s2, input.clock.frameTime) then Off else s2.status)
      && s'.session == s2.session
      && (Stop(s2.session) in calls <==> cfg.storeVideo && StopDue(cfg, s2, input.clock.frameTime))
      && (forall i :: 0 <= i < |calls| && calls[i].Stop? ==> calls[i] == Stop(s2.session))
  {
    var (s2, c2) := AfterMotion(cfg, s, input.frame.value, input);
    assert forall i :: 0 <= i < |c2| ==> c2[i].Start?;
  }

  /**
   * `last_activity` is read after `timestamp`, so on a clock that does not go
   * back a motion pass never ends the recording in the same pass.
   */
  lemma MotionNeverStopsSamePass<F>(cfg: Config, s: Globals<F>, input: FrameInput<F>)
    requires input.frame.Some? && Monotone(input.clock)
    requires Sample(cfg, s, input.detected).motionDetected
    ensures var (s', calls) := Step(cfg, s, input);
      && (s.status == On || Triggers(cfg, s, input) ==> s'.status == On)
      && (forall i :: 0 <= i < |calls| ==> !calls[i].Stop?)
  {
    var (s2, c2) := AfterMotion(cfg, s, input.frame.value, input);
    assert !StopDue(cfg, s2, input.clock.frameTime);
    assert forall i :: 0 <= i < |c2| ==> c2[i].Start?;
  }

  /**
   * In real time: while recording, a pass without motion that comes less than
   * a day after the last activity stops the recording exactly when at least
   * the minimum number of whole seconds have passed.
   */
  lemma QuietPeriodStops<F>(cfg: Config, s: Globals<F>, input: FrameInput<F>)
    requires Valid(s) && s.status == On && input.frame.Some?
    requires !Sample(cfg, s, input.detected).motionDetected
    requires 0 < input.clock.frameTime - s.lastActivity.value < SecondsPerDay * MicrosPerSecond
    ensures Step(cfg, s, input).0.status == Off
        <==> (input.clock.frameTime - s.lastActivity.value) / MicrosPerSecond >= cfg.minRecordingSeconds
  {
    SecondsComponentWithinDay(input.clock.frameTime, s.lastActivity.value);
  }

  /**
   * A recording starts on a checkpoint after an earlier checkpoint, so never
   * before the tenth activity, and always on a multiple of five.
   */
  lemma StartNeedsTenActivities<F>(cfg: Config, s: Globals<F>, input: FrameInput<F>)
    requires Valid(s) && Triggers(cfg, s, input)
    ensures var s' := Step(cfg, s, input).0;
      s'.total % CheckpointEvery == 0 && s'.total >= 2 * CheckpointEvery
  {
    var n := s.total + 1;
    assert s.window.t1.Some? && n % CheckpointEvery == 0;
    CheckpointAfterCheckpoint(n);
    MotionCounting(cfg, s, input);
  }

  /** A multiple of five above five is at least ten. */
  lemma CheckpointAfterCheckpoint(n: int)
    requires n % CheckpointEvery == 0 && n > CheckpointEvery
    ensures n >= 2 * CheckpointEvery
  {
  }

  // ---------------------------------------------------------------------------
  // A run
  // ---------------------------------------------------------------------------

  /** The `start` and `stop` calls among `calls`, in order. */
  function SessionCalls<F>(calls: seq<WriterCall<F>>): (r: seq<WriterCall<F>>)
    ensures forall i :: 0 <= i < |r| ==> !r[i].Write?
  {
    if calls == [] then []
    else SessionCalls(calls[..|calls| - 1]) + (if calls[|calls| - 1].Write? then [] else [calls[|calls| - 1]])
  }

  lemma {:induction false} SessionCallsAppend<F>(a: seq<WriterCall<F>>, b: seq<WriterCall<F>>)
    ensures SessionCalls(a + b) == SessionCalls(a) + SessionCalls(b)
    decreases |b|
  {
    if b == [] {
      assert a + b == a;
    } else {
      assert (a + b)[..|a + b| - 1] == a + b[..|b| - 1];
      SessionCallsAppend(a, b[..|b| - 1]);
    }
  }

  /**
   * `start` and `stop` alternate, beginning with a `start` when no session is
   * `open` and with a `stop` when one is.
   */
  predicate Alternates<F>(cmds: seq<WriterCall<F>>, open: bool) {
    forall i :: 0 <= i < |cmds| ==> (cmds[i].Start? <==> (i % 2 == 0) == !open)
  }

  /** Whether a session is open after `cmds`, starting from `open`. */
  function OpenAfter<F>(cmds: seq<WriterCall<F>>, open: bool): bool {
    if |cmds| % 2 == 0 then open else !open
  }

  lemma AlternatesAppend<F>(a: seq<WriterCall<F>>, b: seq<WriterCall<F>>, open: bool)
    requires Alternates(a, open) && Alternates(b, OpenAfter(a, open))
    ensures Alternates(a + b, open)
    ensures OpenAfter(a + b, open) == OpenAfter(b, OpenAfter(a, open))
  {
    forall i | |a| <= i < |a + b|
      ensures ((a + b)[i].Start? <==> (i % 2 == 0) == !open)
    {
      assert (a + b)[i] == b[i - |a|];
    }
  }

  /** The motion branch issues at most a `start`, and only on the edge from off to on. */
  lemma MotionBranchCalls<F>(cfg: Config, s: Globals<F>, frame: F, input: FrameInput<F>)
    requires cfg.storeVideo
    ensures var (s2, c2) := AfterMotion(cfg, s, frame, input);
      || (c2 == [] && s2.status == s.status)
      || (|c2| == 1 && c2[0].Start? && s.status == Off && s2.status == On)
  {
  }

  /** The stop check issues at most a `stop`, and only on the edge from on to off. */
  lemma StopCheckCalls<F>(cfg: Config, s: Globals<F>, timestamp: Instant)
    requires cfg.storeVideo
    ensures var (s3, c3) := StopCheck(cfg, s, timestamp);
      || (c3 == [] && s3.status == s.status)
      || (|c3| == 1 && c3[0].Stop? && s.status == On && s3.status == Off)
  {
  }

  /** A call sequence of at most one `start` or `stop` is its own session calls. */
  lemma SingleSessionCall<F>(c: seq<WriterCall<F>>)
    requires c == [] || (|c| == 1 && !c[0].Write?)
    ensures SessionCalls(c) == c
  {
    if c != [] {
      assert c[..0] == [];
    }
  }

  /**
   * With video storing on, the session calls of one pass continue the
   * alternation, and recording is on afterwards exactly when a session is
   * open.
   */
  lemma StepSessionCalls<F>(cfg: Config, s: Globals<F>, input: FrameInput<F>)
    requires cfg.storeVideo
    ensures var (s', calls) := Step(cfg, s, input);
      Alternates(SessionCalls(calls), s.status == On)
      && (s'.status == On <==> OpenAfter(SessionCalls(calls), s.status == On))
  {
    match input.frame
    case None =>
    case Some(frame) =>
      var (s2, c2) := AfterMotion(cfg, s, frame, input);
      var (s3, c3) := StopCheck(cfg, s2, input.clock.frameTime);
      var w: seq<WriterCall<F>> := [Write(frame)];
      assert Step(cfg, s, input) == (s3, c2 + c3 + w);
      MotionBranchCalls(cfg, s, frame, input);
      StopCheckCalls(cfg, s2, input.clock.frameTime);
      SessionCallsAppend(c2, c3);
      SessionCallsAppend(c2 + c3, w);
      assert w[..0] == [];
      SingleSessionCall(c2);
      SingleSessionCall(c3);
      assert SessionCalls(c2 + c3 + w) == c2 + c3;
      AlternatesAppend(c2, c3, s.status == On);
  }

  /**
   * Over a whole run with video storing on, `start` and `stop` alternate
   * beginning with a `start` (one session at a time, never a `start` while
   * recording), and recording is on exactly when the last of them is a
   * `start`.
   */
  lemma {:induction false} SessionsAlternate<F>(cfg: Config, inputs: seq<FrameInput<F>>)
    requires cfg.storeVideo
    ensures var (s, calls) := Run(cfg, inputs);
      Alternates(SessionCalls(calls), false) && (s.status == On <==> OpenAfter(SessionCalls(calls), false))
    decreases |inputs|
  {
    if inputs != [] {
      var init := inputs[..|inputs| - 1];
      var (s, calls) := Run(cfg, init);
      SessionsAlternate(cfg, init);
      var (s', calls') := Step(cfg, s, inputs[|inputs| - 1]);
      StepSessionCalls(cfg, s, inputs[|inputs| - 1]);
      SessionCallsAppend(calls, calls');
      AlternatesAppend(SessionCalls(calls), SessionCalls(calls'), false);
    }
  }

  /** With video storing off, the loop never calls the writer. */
  lemma {:induction false} NoCallsWithoutStoring<F>(cfg: Config, inputs: seq<FrameInput<F>>)
    requires !cfg.storeVideo
    ensures Run(cfg, inputs).1 == []
    decreases |inputs|
  {
    if inputs != [] {
      NoCallsWithoutStoring(cfg, inputs[..|inputs| - 1]);
    }
  }

  /** The total activity count never goes down. */
  lemma {:induction false} TotalNeverDecreases<F>(cfg: Config, inputs: seq<FrameInput<F>>, k: int)
    requires 0 <= k <= |inputs|
    ensures Run(cfg, inputs[..k]).0.total <= Run(cfg, inputs).0.total
    decreases |inputs|
  {
    if k < |inputs| {
      var init := inputs[..|inputs| - 1];
      assert inputs[..k] == init[..k];
      TotalNeverDecreases(cfg, init, k);
    } else {
      assert inputs[..k] == inputs;
    }
  }

  /** From off, a pass with fewer than ten activities in all stays off and issues no `start`. */
  lemma EarlyPassStaysOff<F>(cfg: Config, s: Globals<F>, input: FrameInput<F>)
    requires Valid(s) && s.status == Off
    requires Step(cfg, s, input).0.total < 2 * CheckpointEvery
    ensures Step(cfg, s, input).0.status == Off
    ensures forall c :: c in Step(cfg, s, input).1 ==> !c.Start?
  {
    if input.frame.Some? {
      var frame := input.frame.value;
      var (s2, c2) := AfterMotion(cfg, s, frame, input);
      StopCheckOnlyStops(cfg, s2, input.clock.frameTime);
      var (s3, c3) := StopCheck(cfg, s2, input.clock.frameTime);
      assert Step(cfg, s, input) == (s3, c2 + c3 + (if cfg.storeVideo then [Write(frame)] else []));
      if Triggers(cfg, s, input) {
        StartNeedsTenActivities(cfg, s, input);
      }
      MotionBranchQuiet(cfg, s, frame, input);
    }
  }

  /** A run with fewer than ten activities in all never starts a recording. */
  lemma {:induction false} NoSessionBeforeTenActivities<F>(cfg: Config, inputs: seq<FrameInput<F>>)
    requires Run(cfg, inputs).0.total < 2 * CheckpointEvery
    ensures forall i :: 0 <= i < |Run(cfg, inputs).1| ==> !Run(cfg, inputs).1[i].Start?
    ensures Run(cfg, inputs).0.status == Off
    decreases |inputs|
  {
    if inputs != [] {
      var init := inputs[..|inputs| - 1];
      var last := inputs[|inputs| - 1];
      var (s, calls) := Run(cfg, init);
      TotalNeverDecreases(cfg, inputs, |inputs| - 1);
      assert inputs[..|inputs| - 1] == init;
      NoSessionBeforeTenActivities(cfg, init);
      var (s', calls') := Step(cfg, s, last);
      assert Run(cfg, inputs) == (s', calls + calls');
      EarlyPassStaysOff(cfg, s, last);
      assert forall i :: 0 <= i < |calls'| ==> calls'[i] in calls';
    }
  }
}
