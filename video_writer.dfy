/**
 * `AsyncVideoWriter`: the recorder's control object. It guards a session with
 * two flags, buffers frames in a bounded FIFO that is emptied completely when
 * it overflows, and runs a worker that drains the FIFO into the encoder and
 * then keeps or removes the file according to the session's activity count.
 */
module VideoWriter {
  import opened Wrappers

  /** `Queue(1024)`. */
  const QueueCapacity: int := 1024

  /** What one `frame_queue.get(block=True, timeout=1)` of the worker returned. */
  datatype Poll<F> = Got(frame: F) | TimedOut

  /**
   * One evaluation of the worker's loop condition: the value of `stopped` it
   * read, and the outcome of the `get` that follows if the loop goes on. Both
   * are shared with the producer thread, so they are inputs of the model.
   */
  datatype Check<F> = Check(stopped: bool, poll: Poll<F>)

  /** Some `get` among `checks` timed out. */
  predicate TimedOutIn<F>(checks: seq<Check<F>>) {
    exists i :: 0 <= i < |checks| && checks[i].poll.TimedOut?
  }

  /** The loop `while not stopped or not empty` ends at check `i`. */
  predicate ExitsAt<F>(checks: seq<Check<F>>, i: int)
    requires 0 <= i < |checks|
  {
    checks[i].stopped && TimedOutIn(checks[..i])
  }

  /** The frame one `get` delivered, if any. */
  function Delivered<F>(c: Check<F>): seq<F> {
    match c.poll
    case Got(f) => [f]
    case TimedOut => []
  }

  /** The frames the `get`s in `checks` delivered, in delivery order. */
  function GotFrames<F>(checks: seq<Check<F>>): seq<F> {
    if checks == [] then [] else GotFrames(checks[..|checks| - 1]) + Delivered(checks[|checks| - 1])
  }

  /** Delivering `a` and then `b` hands the encoder `a`'s frames and then `b`'s. */
  lemma {:induction false} GotFramesAppend<F>(a: seq<Check<F>>, b: seq<Check<F>>)
    ensures GotFrames(a + b) == GotFrames(a) + GotFrames(b)
    decreases |b|
  {
    if b != [] {
      var b' := b[..|b| - 1];
      assert (a + b)[..|a + b| - 1] == a + b';
      GotFramesAppend(a, b');
    } else {
      assert a + b == a;
    }
  }

  /** Each delivered frame is encoded once, in place: nothing reordered, nothing skipped. */
  lemma {:induction false} GotFramesCount<F>(checks: seq<Check<F>>)
    ensures |GotFrames(checks)| == |set i | 0 <= i < |checks| && checks[i].poll.Got?|
    decreases |checks|
  {
    if checks != [] {
      var init := checks[..|checks| - 1];
      GotFramesCount(init);
      var before := set i | 0 <= i < |init| && init[i].poll.Got?;
      var all := set i | 0 <= i < |checks| && checks[i].poll.Got?;
      if checks[|checks| - 1].poll.Got? {
        assert all == before + {|checks| - 1};
      } else {
        assert all == before;
      }
    }
  }

  /**
   * The outcome of the drain loop (lines 59-67 of the worker) on `checks`: it
   * stopped after `consumed` checks, all earlier checks let it go on, it left
   * (`exited`) only on a check that read `stopped` after some `get` had timed
   * out, and the encoder got the delivered frames of the consumed checks in
   * order. If `checks` runs out first, the worker is still draining.
   */
  ghost predicate DrainOutcome<F>(checks: seq<Check<F>>, exited: bool, consumed: int, written: seq<F>) {
    && 0 <= consumed <= |checks|
    && (exited ==> consumed < |checks| && ExitsAt(checks, consumed))
    && (!exited ==> consumed == |checks|)
    && (forall i :: 0 <= i < consumed ==> !ExitsAt(checks, i))
    && written == GotFrames(checks[..consumed])
  }

  /** The worker's drain loop (lines 59-67), with its shared reads as inputs. */
  method Drain<F>(checks: seq<Check<F>>) returns (exited: bool, consumed: nat, written: seq<F>)
    ensures DrainOutcome(checks, exited, consumed, written)
  {
    var empty := false;
    var i := 0;
    written := [];
    exited := false;
    while i < |checks|
      invariant 0 <= i <= |checks|
      invariant empty == TimedOutIn(checks[..i])
      invariant forall j :: 0 <= j < i ==> !ExitsAt(checks, j)
      invariant written == GotFrames(checks[..i])
    {
      if checks[i].stopped && empty {
        exited := true;
        break;
      }
      assert checks[..i + 1][..i] == checks[..i];
      if checks[i].poll.TimedOut? {
        empty := true;
      } else {
        assert !TimedOutIn(checks[..i]) ==> !TimedOutIn(checks[..i + 1]);
        written := written + [checks[i].poll.frame];
      }
      i := i + 1;
    }
    consumed := i;
  }

  /** Once a `get` has timed out, `empty` stays set for every later check. */
  lemma EmptyIsNeverReset<F>(checks: seq<Check<F>>, i: int, j: int)
    requires 0 <= i <= j <= |checks|
    requires TimedOutIn(checks[..i])
    ensures TimedOutIn(checks[..j])
  {
    var k :| 0 <= k < i && checks[..i][k].poll.TimedOut?;
    assert checks[..j][k] == checks[..i][k];
  }

  /** A drain in which no `get` ever times out does not end, whatever `stopped` reads. */
  lemma DrainNeedsTimeout<F>(checks: seq<Check<F>>, exited: bool, consumed: int, written: seq<F>)
    requires DrainOutcome(checks, exited, consumed, written)
    requires forall i :: 0 <= i < |checks| ==> checks[i].poll.Got?
    ensures !exited && written == GotFrames(checks)
  {
    assert checks[..|checks|] == checks;
    if exited {
      assert false;
    }
  }

  /** A drain that never reads `stopped` as true does not end, and encodes every delivered frame. */
  lemma DrainNeedsStop<F>(checks: seq<Check<F>>, exited: bool, consumed: int, written: seq<F>)
    requires DrainOutcome(checks, exited, consumed, written)
    requires forall i :: 0 <= i < |checks| ==> !checks[i].stopped
    ensures !exited && written == GotFrames(checks)
  {
    assert checks[..|checks|] == checks;
  }

  class AsyncVideoWriter<F> {
    /** `config.store_activity_count_threshold`. */
    const storeThreshold: int
    /** Whether a `finished` callback was given. */
    const hasCallback: bool

    var stopped: bool
    var activityCount: int
    var isWriting: bool
    var filename: Option<string>
    var frameQueue: seq<F>
    /** The files removed by the retention rule, in order. */
    var removedFiles: seq<string>
    /** The arguments of every `finished(filename)` call, in order. */
    var finishedCalls: seq<string>

    ghost predicate Valid()
      reads this
    {
      |frameQueue| <= QueueCapacity
    }

    /** `__init__`: stopped, not writing, no file, an empty queue. */
    constructor (storeThreshold: int, hasCallback: bool)
      ensures Valid()
      ensures this.storeThreshold == storeThreshold && this.hasCallback == hasCallback
      ensures stopped && activityCount == 0 && !isWriting && filename == None
      ensures frameQueue == [] && removedFiles == [] && finishedCalls == []
    {
      this.storeThreshold := storeThreshold;
      this.hasCallback := hasCallback;
      stopped := true;
      activityCount := 0;
      isWriting := false;
      filename := None;
      frameQueue := [];
      removedFiles := [];
      finishedCalls := [];
    }

    /**
     * `start(filename)`: opens a session unless the previous worker is still
     * writing, in which case nothing changes and the answer is False.
     */
    method Start(name: string) returns (started: bool)
      modifies this`stopped, this`isWriting, this`filename
      ensures started == !old(isWriting)
      ensures started ==> !stopped && isWriting && filename == Some(name)
      ensures !started ==> stopped == old(stopped) && isWriting == old(isWriting) && filename == old(filename)
    {
      if !isWriting {
        stopped := false;
        isWriting := true;
        filename := Some(name);
        return true;
      }
      return false;
    }

    /**
     * `stop(activity_count)`: the first stop of a session records the count;
     * a stop while already stopped changes nothing, so a later count cannot
     * overwrite it.
     */
    method Stop(count: int)
      modifies this`stopped, this`activityCount
      ensures stopped
      ensures !old(stopped) ==> activityCount == count
      ensures old(stopped) ==> activityCount == old(activityCount)
    {
      if !stopped {
        stopped := true;
        activityCount := count;
      }
    }

    /**
     * `write(frame)`: ignored while stopped; appended at the back while there
     * is room; on a full queue the whole backlog is dropped and the incoming
     * frame is not enqueued.
     */
    method Write(frame: F)
      requires Valid()
      modifies this`frameQueue
      ensures Valid()
      ensures stopped ==> frameQueue == old(frameQueue)
      ensures !stopped && |old(frameQueue)| < QueueCapacity ==> frameQueue == old(frameQueue) + [frame]
      ensures !stopped && |old(frameQueue)| == QueueCapacity ==> frameQueue == []
    {
      if !stopped {
        if |frameQueue| < QueueCapacity {
          frameQueue := frameQueue + [frame];
        } else {
          CleanQueue();
        }
      }
    }

    /**
     * One `get` (or `get_nowait`) on the queue with no concurrent producer:
     * the frame at the front if there is one, otherwise a timeout.
     */
    method Dequeue() returns (p: Poll<F>)
      requires Valid()
      modifies this`frameQueue
      ensures Valid()
      ensures old(frameQueue) == [] ==> p == TimedOut && frameQueue == []
      ensures old(frameQueue) != [] ==> p == Got(old(frameQueue)[0]) && frameQueue == old(frameQueue)[1..]
    {
      if frameQueue == [] {
        p := TimedOut;
      } else {
        p := Got(frameQueue[0]);
        frameQueue := frameQueue[1..];
      }
    }

    /** `_clean_queue`: `get_nowait` until `Empty`. */
    method CleanQueue()
      requires Valid()
      modifies this`frameQueue
      ensures Valid() && frameQueue == []
    {
      while true
        invariant Valid()
        decreases |frameQueue|
      {
        var p := Dequeue();
        if p.TimedOut? {
          break;
        }
      }
    }

    /**
     * `_writer_thread` as a sequential method: the drain loop over the shared
     * reads in `checks`, then, once the loop has ended, the retention rule.
     * Below the threshold the file is removed and `finished` is not called;
     * otherwise `finished(filename)` is called once (if given). The thread then
     * clears `is_writing`, unless the retention step raised: `os.remove` of a
     * file the encoder never created, or an exception out of `finished`
     * (`retentionRaises`), ends the thread first and leaves `is_writing` as it
     * was, so every later `start` is refused. While the loop has not ended,
     * nothing of that happens yet.
     */
    method WriterThread(checks: seq<Check<F>>, retentionRaises: bool) returns (exited: bool, consumed: nat, written: seq<F>)
      requires filename.Some?
      modifies this`isWriting, this`removedFiles, this`finishedCalls
      ensures DrainOutcome(checks, exited, consumed, written)
      ensures !exited ==> isWriting == old(isWriting) && removedFiles == old(removedFiles)
                          && finishedCalls == old(finishedCalls)
      ensures exited ==>
                isWriting == (old(isWriting) && retentionRaises && (activityCount < storeThreshold || hasCallback))
      ensures exited && activityCount < storeThreshold ==>
                removedFiles == old(removedFiles) + (if retentionRaises then [] else [filename.value])
                && finishedCalls == old(finishedCalls)
      ensures exited && activityCount >= storeThreshold ==>
                removedFiles == old(removedFiles)
                && finishedCalls == old(finishedCalls) + (if hasCallback then [filename.value] else [])
    {
      exited, consumed, written := Drain(checks);
      if exited {
        if activityCount < storeThreshold {
          if retentionRaises {
            return;
          }
          removedFiles := removedFiles + [filename.value];
        } else if hasCallback {
          finishedCalls := finishedCalls + [filename.value];
          if retentionRaises {
            return;
          }
        }
        isWriting := false;
      }
    }
  }

  /** What `get` returns for each of `fs`, front first. */
  function Gots<F>(fs: seq<F>): seq<Poll<F>> {
    seq(|fs|, i requires 0 <= i < |fs| => Got(fs[i]))
  }

  /**
   * Frames put on the queue come out of `get` in the order they were put:
   * writing `fs` while recording, with room for all of them, and then taking
   * as many frames as the queue holds delivers the earlier backlog followed
   * by `fs`, in order, and leaves the queue empty.
   */
  method QueueIsFifo<F>(w: AsyncVideoWriter<F>, fs: seq<F>) returns (polls: seq<Poll<F>>)
    requires w.Valid() && !w.stopped && |w.frameQueue| + |fs| <= QueueCapacity
    modifies w
    ensures |polls| == |old(w.frameQueue)| + |fs|
    ensures polls == Gots(old(w.frameQueue) + fs) && w.frameQueue == []
  {
    ghost var q := w.frameQueue + fs;
    var i := 0;
    while i < |fs|
      invariant 0 <= i <= |fs|
      invariant w.Valid() && !w.stopped
      invariant w.frameQueue == old(w.frameQueue) + fs[..i]
    {
      w.Write(fs[i]);
      assert fs[..i + 1] == fs[..i] + [fs[i]];
      i := i + 1;
    }
    assert fs[..i] == fs;
    var n := |w.frameQueue|;
    polls := [];
    var k := 0;
    while k < n
      invariant 0 <= k <= n && n == |q|
      invariant w.Valid() && w.frameQueue == q[k..]
      invariant polls == Gots(q[..k])
    {
      var p := w.Dequeue();
      assert q[..k + 1] == q[..k] + [q[k]];
      polls := polls + [p];
      k := k + 1;
    }
    assert q[..k] == q;
  }

  /**
   * A session whose `start` is refused, because the previous worker is still
   * writing, is lost: the previous `stop` left the writer stopped, so the
   * frames written and the `stop` issued for the new session change nothing.
   */
  method RefusedStartLosesSession<F>(w: AsyncVideoWriter<F>, name: string, fs: seq<F>, count: int)
    returns (started: bool)
    requires w.Valid() && w.isWriting && w.stopped
    modifies w
    ensures !started && w.stopped && w.isWriting
    ensures w.frameQueue == old(w.frameQueue) && w.activityCount == old(w.activityCount)
    ensures w.filename == old(w.filename)
  {
    started := w.Start(name);
    for i := 0 to |fs|
      invariant w.Valid() && w.stopped && w.isWriting
      invariant w.frameQueue == old(w.frameQueue) && w.activityCount == old(w.activityCount)
      invariant w.filename == old(w.filename)
    {
      w.Write(fs[i]);
    }
    w.Stop(count);
  }
}
