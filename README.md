# OpenWildlifeCam recording core in Dafny

This project models the control logic of a motion-triggered video recorder
(`fermat2a/OpenWildlifeCam`) and proves properties of it:

- `AsyncVideoWriter` (`video_writer.py`): a session guarded by the flags
  `stopped` and `is_writing`; a bounded FIFO of 1024 frames whose whole
  backlog is dropped when it is full; a worker that drains the FIFO into the
  encoder until it has seen `stopped` after a `get` timed out; and the
  retention rule that removes the file when the session's activity count is
  below the threshold and otherwise calls `finished(filename)`.
- The per-frame pass of the main capture loop (`wildlife.py`): the detector
  is asked on every third frame; motion frames are counted; a rate-based
  debouncer (`start_recording_threshold`) takes a checkpoint on every fifth
  activity and starts a recording when two checkpoints come less than a
  second apart; the frame that brings the per-session count to threshold + 1
  is kept as the snapshot; a quiet period stops the recording; the pass issues
  `start`, `stop` and `write` to the writer, and shutdown issues `stop(0)`.
- The simpler loop of the Raspberry Pi script (`wildlife_pi.py`): any motion
  rectangle turns recording on and opens a writer only on the edge from off
  to on; inactivity turns it off and releases the writer; frames are written
  while a writer is open.
- `create_video_filename`, the same in both scripts:
  `{path}/{YYYYMMDD-HHMMSS}-wildlife.avi`, including the calendar arithmetic
  that turns an instant into its civil date.

Modules: `Wrappers` (Option), `Clock` (instants and `timedelta.seconds`),
`Calendar` (proleptic Gregorian calendar), `Naming` (the file name),
`VideoWriter`, `Wildlife` and `WildlifeProofs`, `WildlifePi` and
`WildlifePiProofs`.

Time: an instant is an integer count of microseconds since
0001-01-01T00:00:00, the origin of Python's `datetime`, bounded by the end of
year 9999. `(a - b).seconds` is modelled exactly as
`((a - b) / 1000000) % 86400`: the seconds component of a `timedelta`, with
whole days dropped and a negative difference wrapping into the previous day.
Every `datetime.now()` of a pass is a separate input (the pass timestamp, the
activity time read after it, the checkpoint time read after that), so the
model does not assume a monotone clock; lemmas that need one say so.

Behaviour of the code worth knowing:

- The controller ignores the answer of `writer.start`. If the previous worker
  is still writing, `start` returns False and changes nothing, yet the loop
  turns recording on. The writer is still stopped from the previous session,
  so the later `stop(n)` is a no-op and every `write` is ignored: that session
  is lost (`VideoWriter.RefusedStartLosesSession`). `Wildlife.Step` issues
  `Start` and `Stop` without checking them.
- The debouncer compares the seconds component of the gap, which drops whole
  days, so two checkpoints a day and half a second apart also start a
  recording (`WildlifeProofs.DayApartCheckpointsStart`).
- The per-session counter is reset only when a recording starts with video
  storing on. It also counts motion frames while recording is off, so the
  snapshot can be taken while off.
- The worker opens the encoder itself and nothing checks that it opened.
- The worker's retention step has no `try`: when `os.remove` or `finished`
  raises, the thread ends with `is_writing` still set, and every later
  `start` is refused (`VideoWriter.AsyncVideoWriter.WriterThread` takes
  whether it raised as an input).

## Model

| member | source | states |
|---|---|---|
| `Clock.SecondsComponent` | wildlife.py:144-145 | `(later - earlier).seconds` always lies in [0, 86400) |
| `Clock.SecondsComponentWithinDay` | wildlife.py:41-42 | for a gap in [0, 1 day) the component is the number of whole seconds, and it is below 1 exactly when the gap is below one second |
| `Clock.SecondsComponentDropsDays` | wildlife.py:41-42 | adding whole days to the gap does not change the component |
| `Clock.SecondsComponentOfNegative` | wildlife.py:144 | a clock that went back by up to a second reads 86399 seconds, which is why the stop test also requires `last_activity < timestamp` |
| `Calendar.FromSeconds` | wildlife.py:28 | the civil date and time of a second count is a valid date in years 1-9999 whose second count is the input |
| `Calendar.FromInstant` | wildlife.py:28 | what `strftime` reads of an instant: a valid date whose second count is the instant's whole seconds |
| `Calendar.FromSecondsInverse` | wildlife.py:28 | every valid date lies in range, and converting its second count back gives the same date |
| `Naming.Stamp` | wildlife.py:28 | `%Y%m%d-%H%M%S` is 15 characters: a dash at position 8 and decimal digits everywhere else |
| `Naming.StampRoundTrip` | wildlife.py:28 | the `%Y%m%d-%H%M%S` stamp is 15 characters with a dash at position 8, and parsing it back gives the date |
| `Naming.VideoFilename` | wildlife.py:27-28 | the name is `path`, a slash, a 15-character stamp and `-wildlife.avi`, with no further slash after `path`; the stamp parses back to the civil time of the start instant |
| `Naming.VideoFilenameUnique` | wildlife_pi.py:17-18 | two start instants give the same name exactly when they fall in the same second |
| `VideoWriter.GotFramesAppend` | video_writer.py:60-67 | the frames encoded for two consecutive stretches of checks are the first stretch's frames followed by the second's |
| `VideoWriter.GotFramesCount` | video_writer.py:62-67 | the encoder gets exactly one frame per successful `get` |
| `VideoWriter.Drain` | video_writer.py:59-67 | the loop leaves exactly at the first check that reads `stopped` after a `get` timed out; every earlier check goes on; the frames of the successful `get`s are encoded in delivery order |
| `VideoWriter.EmptyIsNeverReset` | video_writer.py:59-66 | once a `get` has timed out, `empty` stays true for all later checks |
| `VideoWriter.DrainNeedsTimeout` | video_writer.py:60-66 | if no `get` times out the loop never ends, whatever `stopped` reads |
| `VideoWriter.DrainNeedsStop` | video_writer.py:60 | if `stopped` never reads true the loop never ends and encodes every delivered frame |
| `VideoWriter.AsyncVideoWriter.constructor` | video_writer.py:12-23 | a new writer is stopped and not writing, with count 0, no file name and an empty queue |
| `VideoWriter.AsyncVideoWriter.Start` | video_writer.py:25-34 | returns True and sets `stopped` false, `is_writing` true and the file name when not writing; otherwise returns False and changes nothing |
| `VideoWriter.AsyncVideoWriter.Stop` | video_writer.py:36-40 | the first stop records the count and sets `stopped`; a stop while stopped keeps the recorded count |
| `VideoWriter.AsyncVideoWriter.Write` | video_writer.py:47-54 | ignored while stopped; appends the frame when the queue holds fewer than 1024; empties the queue (dropping the frame) when it is full; the queue never exceeds 1024 |
| `VideoWriter.AsyncVideoWriter.Dequeue` | video_writer.py:62-65 | a `get` with no producer running takes the front frame, or times out on an empty queue; the queue stays within 1024 |
| `VideoWriter.AsyncVideoWriter.CleanQueue` | video_writer.py:81-86 | repeated `get_nowait` until `Empty` leaves the queue empty |
| `VideoWriter.AsyncVideoWriter.WriterThread` | video_writer.py:56-79 | the drain outcome of `Drain`; after the loop ends, a count below the threshold removes the file and calls nothing, otherwise `finished(filename)` is called once when given; `is_writing` ends false unless `os.remove` or the `finished` call raised, in which case it stays as it was and a failed removal removes nothing; while the loop runs nothing of that happens |
| `VideoWriter.QueueIsFifo` | video_writer.py:47-65 | from any backlog, writing frames that fit while recording and then taking as many frames as the queue holds delivers the backlog and then the new frames, in order, and empties the queue |
| `VideoWriter.RefusedStartLosesSession` | video_writer.py:25-54 | while the previous worker is still writing and the writer is stopped, `start` is refused and the session's writes and `stop` leave the queue, the recorded count and the file name unchanged |
| `Wildlife.StartRecordingThreshold` | wildlife.py:35-44 | off a checkpoint: False and the window unchanged; on a checkpoint: `t2` becomes the old `t1` and `t1` the current time; True exactly on a checkpoint with an earlier checkpoint whose gap has seconds component below 1 |
| `Wildlife.Init` | wildlife.py:47-58 | the globals at load keep the invariant, with recording off and both counters 0 |
| `Wildlife.Step` | wildlife.py:107-165 | one pass: a missing frame is skipped, then sampling, the motion branch, the stop check, and the frame written when storing; its properties are the single-pass lemmas of `WildlifeProofs` (`SkippedFrameChangesNothing`, `StepSamples`, `MotionCounting`, `StartEdge`, `StopEdge`, `StepSessionCalls`) |
| `Wildlife.Sample` | wildlife.py:112-117 | frame counting and the every-third-frame detector call, stated by `WildlifeProofs.StepSamples` and `WildlifeProofs.MotionDetectedIsLastSample` |
| `Wildlife.OnMotion` | wildlife.py:121-136 | the motion branch, stated by `WildlifeProofs.MotionCounting`, `WindowFrozenWhileOn`, `StartEdge`, `SnapshotAtThresholdPlusOne` and `MotionBranchCalls` |
| `Wildlife.StopCheck` | wildlife.py:144-151 | the stop check, stated by `WildlifeProofs.StopEdge`, `QuietPeriodStops` and `StopCheckCalls` |
| `Wildlife.Run` | wildlife.py:106-175 | every sequence of passes keeps the invariant: on implies a last activity and start time, per-session count between 0 and the total, `t2` only with `t1`, `t1` only after five activities |
| `Wildlife.MainLoop` | wildlife.py:106-181 | the loop's state and calls are those of the passes over the frames, followed by the shutdown `stop(0)` |
| `WildlifeProofs.FirstCheckpointNeverStarts` | wildlife.py:38-43 | with no earlier checkpoint the debouncer answers False and only records the checkpoint |
| `WildlifeProofs.DenseCheckpointsStart` | wildlife.py:38-43 | with the clock less than a day past the previous checkpoint, it starts exactly on a checkpoint less than one second after the previous one |
| `WildlifeProofs.DayApartCheckpointsStart` | wildlife.py:41-42 | two checkpoints a day and half a second apart also start a recording |
| `WildlifeProofs.SkippedFrameChangesNothing` | wildlife.py:109-110 | a pass without a frame changes nothing and calls nothing |
| `WildlifeProofs.StepSamples` | wildlife.py:109-117 | a pass counts its frame and refreshes the detector's answer only on a third frame with detection on; the rest of the pass leaves both alone |
| `WildlifeProofs.MotionDetectedIsLastSample` | wildlife.py:105-117 | over any run the frame count is the number of frames delivered, and `motion_detected` is true exactly when the last pass that asked the detector saw motion; never true with detection off |
| `WildlifeProofs.MotionCounting` | wildlife.py:121-123 | a motion pass adds exactly one to the total and sets the activity time; a pass without motion leaves counters, activity time, snapshot and window unchanged |
| `WildlifeProofs.WindowFrozenWhileOn` | wildlife.py:125 | while recording is on, the debounce checkpoints do not change |
| `WildlifeProofs.StartEdge` | wildlife.py:125-134 | when the debouncer fires, the start time is the frame time, the file name is built from it, and with storing on the session count ends at 1 and `start` is the first call; otherwise no `start` and a motion pass adds one to the session count |
| `WildlifeProofs.MotionBranchStarts` | wildlife.py:125-136 | when the debouncer fires, the motion branch sets the start time and file name and, with storing on, resets the session count to end at 1 and issues exactly `start(filename)` |
| `WildlifeProofs.MotionBranchQuiet` | wildlife.py:121-136 | when the debouncer does not fire, the motion branch issues nothing, keeps the status, start time and file name, and adds one to the session count exactly on a motion pass |
| `WildlifeProofs.StopCheckOnlyStops` | wildlife.py:144-151 | the stop check changes only the status, and any call it issues is `stop` with the session count |
| `WildlifeProofs.EarlyPassStaysOff` | wildlife.py:121-151 | from off, a pass that leaves fewer than ten activities in all stays off and issues no `start` |
| `WildlifeProofs.SnapshotAtThresholdPlusOne` | wildlife.py:134-136 | the snapshot is the pass's frame exactly on a motion pass whose session count becomes threshold + 1, and is unchanged otherwise |
| `WildlifeProofs.StopEdge` | wildlife.py:144-151 | recording turns off exactly when, after the motion branch, it is on, the activity time is before the timestamp and the gap's seconds reach the minimum; `stop` with the session count is issued exactly then, with storing on |
| `WildlifeProofs.MotionNeverStopsSamePass` | wildlife.py:114-148 | with a clock that does not go back, a motion pass never issues `stop` and leaves recording on if it was on or just started |
| `WildlifeProofs.QuietPeriodStops` | wildlife.py:144-145 | while on, a pass without motion less than a day after the last activity stops exactly when at least the minimum number of whole seconds have passed |
| `WildlifeProofs.StartNeedsTenActivities` | wildlife.py:123-125 | a recording starts only on a multiple of five activities and never before the tenth |
| `WildlifeProofs.MotionBranchCalls` | wildlife.py:125-132 | the motion branch issues nothing, or one `start` on the edge from off to on |
| `WildlifeProofs.StopCheckCalls` | wildlife.py:144-148 | the stop check issues nothing, or one `stop` on the edge from on to off |
| `WildlifeProofs.StepSessionCalls` | wildlife.py:121-151 | the `start`/`stop` calls of a pass continue the alternation, and recording is on afterwards exactly when a session is open |
| `WildlifeProofs.SessionsAlternate` | wildlife.py:106-151 | over any run with storing on, `start` and `stop` alternate beginning with `start`, and recording is on exactly when the last of them is a `start` |
| `WildlifeProofs.NoCallsWithoutStoring` | wildlife.py:130-165 | with storing off the loop never calls the writer |
| `WildlifeProofs.TotalNeverDecreases` | wildlife.py:123 | the total activity count never goes down over a run |
| `WildlifeProofs.NoSessionBeforeTenActivities` | wildlife.py:121-134 | a run with fewer than ten activities never issues `start` and ends with recording off |
| `WildlifePi.Init` | wildlife_pi.py:21-28 | the globals at start-up keep the invariant: off, no writer, nothing released |
| `WildlifePi.RectangleLoop` | wildlife_pi.py:68-79 | the loop over rectangles ends in the state given by the closed form `AfterRectangles` |
| `WildlifePi.AfterRectanglesKeepsValid` | wildlife_pi.py:68-75 | the rectangle loop keeps "a writer is open exactly while on, on the current file" |
| `WildlifePi.AfterRectangles` | wildlife_pi.py:68-79 | the closed form of the rectangle loop, stated by `WildlifePi.RectangleLoop`, `WildlifePiProofs.RectangleTurnsOn`, `WriterOpensOnlyOnEdge`, `RectangleCountIrrelevant` and `NoRectanglesWhileOff` |
| `WildlifePi.StopCheck` | wildlife_pi.py:81-88 | the release on inactivity, stated by `WildlifePiProofs.StopReleasesWriter` |
| `WildlifePi.StoreFrame` | wildlife_pi.py:100-101 | the frame appended to an open writer, stated by `WildlifePiProofs.FrameWrittenOnlyWhileOn` |
| `WildlifePi.PiStep` | wildlife_pi.py:62-101 | one pass keeps the invariant |
| `WildlifePi.CaptureLoopBody` | wildlife_pi.py:62-101 | the loop body run statement by statement gives the state of `PiStep` |
| `WildlifePi.PiRun` | wildlife_pi.py:58-109 | every run keeps the invariant |
| `WildlifePi.CaptureLoop` | wildlife_pi.py:58-109 | the capture loop's state is that of the passes over the frames |
| `WildlifePiProofs.RectangleTurnsOn` | wildlife_pi.py:68-88 | a pass with rectangles sets recording on and the activity time to the last rectangle's reading; with readings no earlier than the timestamp the pass ends on |
| `WildlifePiProofs.WriterOpensOnlyOnEdge` | wildlife_pi.py:70-74 | the writer, start time and file name are set only when recording was off, and kept when it was on |
| `WildlifePiProofs.RectangleCountIrrelevant` | wildlife_pi.py:68-75 | how many rectangles a pass has does not change what it opens |
| `WildlifePiProofs.NoRectanglesWhileOff` | wildlife_pi.py:66-79 | a pass without rectangles while off changes nothing |
| `WildlifePiProofs.StopReleasesWriter` | wildlife_pi.py:81-88 | recording turns off exactly when the stop condition holds, and the writer is then released without this frame and set to None |
| `WildlifePiProofs.FrameWrittenOnlyWhileOn` | wildlife_pi.py:100-101 | the pass's frame is appended to the open writer exactly when recording stays on and storing is on; a pass that ends off writes nothing |
| `WildlifePiProofs.ReleasedWritersNamed` | wildlife_pi.py:72-84 | every writer opened in a run, released or open, writes a file directly in the storage folder: `path`, a slash, and no further slash |

## Left out

- Threads: `Thread` creation and start (video_writer.py:30-31) and every interleaving of the producer with the worker. The worker is a sequential method over an explicit sequence of checks.
- `VideoWriter.AsyncVideoWriter.WriterThread`: whether `os.remove` or `finished` raises is an input, not derived from the file system or the notifier; the `stopped` values it reads and the outcomes of its `get`s are inputs, as they are shared with the producer thread, so the model does not tie the delivered frames to the queue's contents or `stopped` to the field.
- `VideoWriter.AsyncVideoWriter.Dequeue`: models a `get` with no producer running; a real `get` can also wait for a frame put during its timeout.
- OpenCV: the encoder's internals (in `AsyncVideoWriter` the encoder is the sequence of frames handed to it; in the Pi loop a `cv2.VideoWriter` is its file name and the list of frames written to it), `putText`, `rectangle`, `imshow`, `waitKey`, `imwrite`. Frames are opaque values, and the annotated frame handed to the writer is the captured frame in the model.
- Camera capture, `MotionDetection.detect_motion` and the rectangle geometry: the detector's answer and the per-rectangle clock readings are inputs.
- `TelegramNotifier` and the body of `writer_finished` (wildlife.py:84-89): only the call of `finished` is modelled.
- argparse, `WildlifeConfig`, `shutil.rmtree`, `os.mkdir`, the SIGINT handler and the FPS counter: process plumbing and I/O. The end of the input sequence stands for `q` or the signal.
- `time.perf_counter`, `stop_time`, the lag report and all printing and logging. They are observability only.
- Display-only globals: `recording_color`, `recording_info`, `stop_recording_time`, and `strftime("%A %d %B %Y %I:%M:%S%p")` for the overlay.
- `Naming.VideoFilename`: years below 1000 are zero-padded to four digits; older Python versions on some platforms print them unpadded.
- Time zones and daylight saving: instants are naive local time, as `datetime.now()` returns them.
