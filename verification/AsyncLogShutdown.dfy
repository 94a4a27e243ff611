/**
What the asynchronous logger guarantees over whole runs: which messages reach the sinks and
in which order, and that the worker drains the queue, flushes and exits.
*/
module AsyncLogShutdown {
  import opened Wrappers
  import opened MpmcQueue
  import opened MpmcFifo
  import opened MpmcProgress
  import opened AsyncLog
  import opened AsyncLogSafety

  // ----- Runs -----

  ghost predicate SysNext(s: System, s': System)
    requires s.Shape()
  {
    || (WorkerEnabled(s) && exists spurious, interval :: s' == WorkerStep(s, spurious, interval))
    || (exists t: nat, spurious :: 1 <= t < |s.programs| && ProducerEnabled(s, t) && s' == ProducerStep(s, t, spurious))
  }

  /** Consecutive states of any interleaving, from the constructor on. */
  ghost predicate SysRun(states: seq<System>)
  {
    && |states| > 0
    && (exists size: nat, sinkCount: nat ::
          size >= 2 && states[0] == InitSystem(size, states[0].policy, states[0].programs, sinkCount))
    && (forall k: nat :: k < |states| ==> states[k].Shape())
    && (forall k: nat :: k + 1 < |states| ==> SysNext(states[k], states[k + 1]))
  }

  lemma WorkerConstants(s: System, spurious: bool, interval: bool)
    requires s.Shape() && WorkerEnabled(s)
    ensures var s' := WorkerStep(s, spurious, interval);
            s'.programs == s.programs && s'.policy == s.policy && s'.next == s.next && s'.pushing == s.pushing
  {
  }

  lemma ProducerConstants(s: System, t: nat, spurious: bool)
    requires s.Shape() && 1 <= t < |s.programs| && ProducerEnabled(s, t)
    ensures var s' := ProducerStep(s, t, spurious); s'.programs == s.programs && s'.policy == s.policy
  {
  }

  lemma SysNextInv(s: System, s': System)
    requires SysInv(s) && SysNext(s, s')
    ensures SysInv(s') && s'.programs == s.programs && s'.policy == s.policy
  {
    if t: nat, spurious :| 1 <= t < |s.programs| && ProducerEnabled(s, t) && s' == ProducerStep(s, t, spurious) {
      ProducerStepInv(s, t, spurious);
      ProducerConstants(s, t, spurious);
    } else {
      var spurious, interval :| s' == WorkerStep(s, spurious, interval);
      WorkerStepInv(s, spurious, interval);
      WorkerConstants(s, spurious, interval);
    }
  }

  lemma {:induction false} SysRunInv(states: seq<System>, k: nat)
    requires SysRun(states) && k < |states|
    ensures SysInv(states[k])
    ensures states[k].programs == states[0].programs && states[k].policy == states[0].policy
  {
    if k == 0 {
      var size: nat, sinkCount: nat :|
        size >= 2 && states[0] == InitSystem(size, states[0].policy, states[0].programs, sinkCount);
      InitSysInv(size, states[0].policy, states[0].programs, sinkCount);
    } else {
      SysRunInv(states, k - 1);
      assert k - 1 + 1 < |states|;
      SysNextInv(states[k - 1], states[k]);
    }
  }

  // ----- Which messages reach a sink -----

  /** What a sink was asked to log for thread `t`. */
  function LoggedFor(outputs: seq<Output>, t: nat): seq<Output> {
    if outputs == [] then []
    else
      var last := outputs[|outputs| - 1];
      LoggedFor(outputs[..|outputs| - 1], t) + (if last.Logged? && last.item.source == t then [last] else [])
  }

  /** What thread `t` asks to have logged over its whole program. */
  function LogCalls(s: System, t: nat): seq<Output>
    requires t < |s.programs|
  {
    LogsOf(AsItems(s.programs[t], t, |s.programs[t]|))
  }

  lemma {:induction false} FlushesDoNotLog(outputs: seq<Output>, t: nat)
    ensures LoggedFor(WithoutFlushes(outputs), t) == LoggedFor(outputs, t)
  {
    if outputs != [] {
      var init, last := outputs[..|outputs| - 1], outputs[|outputs| - 1];
      FlushesDoNotLog(init, t);
      if last.Flushed? {
        assert WithoutFlushes(outputs) == WithoutFlushes(init);
      } else {
        assert WithoutFlushes(outputs)[..|WithoutFlushes(outputs)| - 1] == WithoutFlushes(init);
      }
    }
  }

  lemma {:induction false} LogsOfOneThread(items: seq<Item>, t: nat)
    ensures LoggedFor(LogsOf(items), t) == LogsOf(From(items, t))
  {
    if items != [] {
      var init, last := items[..|items| - 1], items[|items| - 1];
      LogsOfOneThread(init, t);
      if last.msg.Log? {
        assert LogsOf(items)[..|LogsOf(items)| - 1] == LogsOf(init);
      } else {
        assert LogsOf(items) == LogsOf(init);
      }
      if last.source == t {
        assert From(items, t)[..|From(items, t)| - 1] == From(init, t);
      } else {
        assert From(items, t) == From(init, t);
      }
    }
  }

  lemma {:induction false} SubsequenceRefl<T>(a: seq<T>)
    ensures Subsequence(a, a)
  {
    if a != [] {
      SubsequenceRefl(a[..|a| - 1]);
    }
  }

  lemma {:induction false} PrefixSubsequence<T>(a: seq<T>, b: seq<T>)
    requires a <= b
    ensures Subsequence(a, b)
  {
    if a == b {
      SubsequenceRefl(a);
    } else {
      PrefixSubsequence(a, b[..|b| - 1]);
    }
  }

  lemma {:induction false} SubsequenceTransitive<T>(a: seq<T>, b: seq<T>, c: seq<T>)
    requires Subsequence(a, b) && Subsequence(b, c)
    ensures Subsequence(a, c)
    decreases |c|, |b|
  {
    if a != [] {
      var c', b', a' := c[..|c| - 1], b[..|b| - 1], a[..|a| - 1];
      if Subsequence(b, c') {
        SubsequenceTransitive(a, b, c');
      } else if Subsequence(a, b') {
        SubsequenceTransitive(a, b', c');
      } else {
        SubsequenceTransitive(a', b', c');
      }
    }
  }

  lemma {:induction false} LogsOfSubsequence(a: seq<Item>, b: seq<Item>)
    requires Subsequence(a, b)
    ensures Subsequence(LogsOf(a), LogsOf(b))
    decreases |b|
  {
    if a != [] {
      var a', b', last := a[..|a| - 1], b[..|b| - 1], b[|b| - 1];
      var more: seq<Output> := if last.msg.Log? then [Logged(last)] else [];
      assert LogsOf(b) == LogsOf(b') + more;
      PrefixSubsequence(LogsOf(b'), LogsOf(b));
      if Subsequence(a, b') {
        LogsOfSubsequence(a, b');
        SubsequenceTransitive(LogsOf(a), LogsOf(b'), LogsOf(b));
      } else {
        LogsOfSubsequence(a', b');
        if last.msg.Log? {
          SubsequenceAppend(LogsOf(a'), LogsOf(b'), Logged(last));
        } else {
          assert LogsOf(a) == LogsOf(a');
          SubsequenceTransitive(LogsOf(a'), LogsOf(b'), LogsOf(b));
        }
      }
    }
  }

  lemma {:induction false} FromPrefix(items: seq<Item>, d: nat, t: nat)
    requires d <= |items|
    ensures From(items[..d], t) <= From(items, t)
    decreases |items|
  {
    if d == |items| {
      assert items[..d] == items;
    } else {
      var init := items[..|items| - 1];
      FromPrefix(init, d, t);
      assert init[..d] == items[..d];
    }
  }

  /**
  At any moment of any run and under either policy, what a sink has logged for a thread is
  that thread's log calls in order, possibly with some left out, and all sinks agree.
  */
  lemma SinkLogsInOrder(s: System, k: nat, t: nat)
    requires SysInv(s) && k < |s.sinks| && 1 <= t < |s.programs|
    ensures Subsequence(LoggedFor(s.sinks[k], t), LogCalls(s, t))
    ensures WithoutFlushes(s.sinks[k]) == LogsOf(s.q.enqueued[..Delivered(s)])
  {
    var items, d := s.q.enqueued, Delivered(s);
    FlushesDoNotLog(s.sinks[k], t);
    LogsOfOneThread(items[..d], t);
    FromPrefix(items, d, t);
    PrefixSubsequence(From(items[..d], t), From(items, t));
    assert HistoryInv(s, t);
    var pushed := AsItems(s.programs[t], t, Pushed(s, t));
    var all := AsItems(s.programs[t], t, |s.programs[t]|);
    PrefixSubsequence(pushed, all);
    SubsequenceTransitive(From(items, t), pushed, all);
    SubsequenceTransitive(From(items[..d], t), From(items, t), all);
    LogsOfSubsequence(From(items[..d], t), all);
  }

  // ----- Flushes -----

  lemma LastMoves(all: seq<Output>, a: seq<Output>, b: seq<Output>, last: Output)
    requires all == a + b + [last]
    ensures all == a + (b + [last])
  {
  }

  /** A sink up to its last flush, and behind it. */
  lemma {:induction false} SinceFlushSplits(outputs: seq<Output>) returns (flushed: seq<Output>)
    ensures outputs == flushed + SinceFlush(outputs)
    ensures WithoutFlushes(outputs) == WithoutFlushes(flushed) + SinceFlush(outputs)
    ensures flushed != [] ==> flushed[|flushed| - 1] == Flushed
  {
    flushed := outputs;
    if outputs != [] && !outputs[|outputs| - 1].Flushed? {
      var init, last := outputs[..|outputs| - 1], outputs[|outputs| - 1];
      flushed := SinceFlushSplits(init);
      assert outputs == init + [last];
      LastMoves(outputs, flushed, SinceFlush(init), last);
      LastMoves(WithoutFlushes(outputs), WithoutFlushes(flushed), SinceFlush(init), last);
    }
  }

  lemma {:induction false} LogsOfTwo(items: seq<Item>, f: nat, d: nat)
    requires f <= d <= |items|
    ensures LogsOf(items[..d]) == LogsOf(items[..f]) + LogsOf(items[f..d])
  {
    if f == d {
      assert items[f..d] == [];
    } else {
      LogsOfTwo(items, f, d - 1);
      LogsAppend(items, d - 1);
      LogsOfSlice(items, f, d - 1);
    }
  }

  lemma SameFront(a: seq<Output>, b: seq<Output>, c: seq<Output>)
    requires a + c == b + c
    ensures a == b
  {
    assert (a + c)[..|a|] == a && (b + c)[..|b|] == b;
  }

  /**
  At any moment of any run each sink falls into two parts: the log messages among the items taken
  before its last flush, ending in that flush, and those among the items taken since.
  */
  lemma FlushSplitsSink(s: System, k: nat) returns (flushed: seq<Output>, since: seq<Output>)
    requires SysInv(s) && k < |s.sinks|
    ensures s.flushedUpTo <= Delivered(s) <= |s.q.enqueued| && s.sinks[k] == flushed + since
    ensures WithoutFlushes(flushed) == LogsOf(s.q.enqueued[..s.flushedUpTo])
    ensures since == LogsOf(s.q.enqueued[s.flushedUpTo..Delivered(s)])
    ensures s.flushedUpTo > 0 ==> flushed != []
    ensures flushed != [] ==> flushed[|flushed| - 1] == Flushed
  {
    flushed := SinceFlushSplits(s.sinks[k]);
    since := SinceFlush(s.sinks[k]);
    LogsOfTwo(s.q.enqueued, s.flushedUpTo, Delivered(s));
    SameFront(WithoutFlushes(flushed), LogsOf(s.q.enqueued[..s.flushedUpTo]), since);
  }

  /**
  When the worker finds the queue empty it flushes every sink exactly if a flush or terminate
  message was taken since the last flush, or the interval has passed; otherwise it leaves the
  sinks alone.  After that no flush message that was taken is still waiting.
  */
  lemma FlushesIff(s: System, interval: bool)
    requires SysInv(s) && s.worker.Processing? && s.q.pcs[WORKER] == DeqReturned(None)
    ensures var s' := WorkerStep(s, false, interval);
            && |s'.sinks| == |s.sinks|
            && (forall k :: 0 <= k < |s.sinks| ==>
                  s'.sinks[k] == if FlushPending(s) || interval then s.sinks[k] + [Flushed] else s.sinks[k])
            && SysInv(s') && !s'.flushRequested
            && (forall p :: 0 <= p < Delivered(s') && s'.q.enqueued[p].msg in {Flush, Terminate} ==> p < s'.flushedUpTo)
  {
    WorkerStepInv(s, false, interval);
    var s' := WorkerStep(s, false, interval);
    forall p | 0 <= p < Delivered(s') && s'.q.enqueued[p].msg in {Flush, Terminate} ensures p < s'.flushedUpTo {
      assert AsksForFlush(s'.q.enqueued[p]) && !FlushPending(s');
    }
  }

  /**
  When the worker has exited, every logging thread is finished, nothing is left in the queue
  and each sink was flushed after the last message; with block_retry each sink has logged
  every message of every thread exactly once, in that thread's order.
  */
  lemma ExitDeliversEverything(s: System, k: nat, t: nat)
    requires SysInv(s) && s.worker.Exited? && k < |s.sinks| && 2 <= t < |s.programs|
    ensures s.LoggersFinished() && s.q.deqPos == s.q.enqPos == Delivered(s)
    ensures s.sinks[k] != [] && s.sinks[k][|s.sinks[k]| - 1] == Flushed
    ensures s.policy.BlockRetry? ==> LoggedFor(s.sinks[k], t) == LogCalls(s, t)
  {
    var items := s.q.enqueued;
    var p :| 0 <= p < Delivered(s) && items[p].msg == Terminate;
    assert items[..Delivered(s)] == items;
    FlushesDoNotLog(s.sinks[k], t);
    LogsOfOneThread(items, t);
    assert s.Finished(t) && HistoryInv(s, t);
  }

  /** The worker exits at the moment it finds the queue empty with nothing left to come. */
  lemma NeverExitsEarly(s: System, spurious: bool, interval: bool)
    requires SysInv(s) && WorkerEnabled(s) && WorkerStep(s, spurious, interval).worker.Exited?
    ensures Delivered(s) == |s.q.enqueued| && s.LoggersFinished() && s.flushRequested
  {
    var items := s.q.enqueued;
    var p :| 0 <= p < Delivered(s) && items[p].msg == Terminate;
    assert p == |items| - 1;
  }

  // ----- The worker ends -----

  /** Every push_msg call, the destructor's too, has returned. */
  ghost predicate AllPushed(s: System)
    requires s.Shape()
  {
    s.policy.BlockRetry? && forall t :: 1 <= t < |s.programs| ==> s.Finished(t)
  }

  lemma {:induction false} FromMember(items: seq<Item>, t: nat, item: Item)
    requires item in From(items, t)
    ensures item in items
  {
    if items[|items| - 1] != item {
      FromMember(items[..|items| - 1], t, item);
    }
  }

  /** Once the queue has been drained to its end, the terminate message has been seen. */
  lemma DrainedMeansTerminated(s: System)
    requires SysInv(s) && AllPushed(s) && Delivered(s) == |s.q.enqueued|
    ensures s.terminateRequested
  {
    assert s.Finished(DESTRUCTOR) && HistoryInv(s, DESTRUCTOR);
    var mine := From(s.q.enqueued, DESTRUCTOR);
    assert mine == [Item(DESTRUCTOR, 0, Terminate)];
    FromMember(s.q.enqueued, DESTRUCTOR, mine[0]);
    var p :| 0 <= p < |s.q.enqueued| && s.q.enqueued[p] == mine[0];
    assert 0 <= p < Delivered(s) && s.q.enqueued[p].msg == Terminate;
  }

  /** A dequeue has found the head unpublished, before the terminate message was processed. */
  predicate StaleEmpty(s: System)
    requires s.Shape()
  {
    s.worker.Processing? && s.q.pcs[WORKER] == DeqReturned(None) && !s.terminateRequested
  }

  function WorkerRank(s: System): nat
    requires s.Shape() && 0 <= Delivered(s) <= |s.q.enqueued|
  {
    8 * (|s.q.enqueued| - Delivered(s)) +
    match s.worker
    case Exited => 0
    case AtTop => 7
    case Processing =>
      match s.q.pcs[WORKER]
      case DeqLoadPos => 6
      case DeqLoadSeq(_) => 5
      case DeqCas(_) => 4
      case DeqRead(_) => 3
      case DeqRelease(_, _) => 2
      case _ => if StaleEmpty(s) then 9 else 1
  }

  /** How many times process_next_msg still returns: once per item left, and once more to exit. */
  function Iterations(s: System): nat
    requires s.Shape() && 0 <= Delivered(s) <= |s.q.enqueued|
  {
    |s.q.enqueued| - Delivered(s) + (if s.worker.Exited? then 0 else 1) + (if StaleEmpty(s) then 1 else 0)
  }

  lemma WorkerNeverBlocks(s: System)
    requires SysInv(s)
    ensures s.worker.Exited? || WorkerEnabled(s)
  {
  }

  /** With all producers finished, a dequeue fails only on a queue that is drained. */
  lemma EmptyIsDrained(s: System, spurious: bool)
    requires SysInv(s) && AllPushed(s) && s.worker.Processing? && s.q.pcs[WORKER].DeqLoadSeq?
    ensures Step(s.q, WORKER, spurious).pcs[WORKER] == DeqReturned(None) ==> s.terminateRequested
    ensures !Step(s.q, WORKER, spurious).pcs[WORKER].DeqLoadPos?
  {
    DequeueFailsIff(s.q, WORKER, spurious);
    RetryIsPaidFor(s.q, WORKER);
    if Step(s.q, WORKER, spurious).pcs[WORKER] == DeqReturned(None) {
      assert !HasStorer(s.q.pcs, s.q.deqPos) by {
        forall t | 0 <= t < |s.q.pcs| ensures !s.q.pcs[t].Storing(s.q.deqPos) {
          assert t >= 1 ==> ProducerInv(s, t) && s.Finished(t);
        }
      }
      DrainedMeansTerminated(s);
    }
  }

  lemma AllPushedKept(s: System, s': System)
    requires s.Shape() && s'.Shape() && AllPushed(s)
    requires s'.policy == s.policy && s'.programs == s.programs && s'.next == s.next && s'.pushing == s.pushing
    ensures AllPushed(s')
  {
    forall t | 1 <= t < |s.programs| ensures s'.Finished(t) {
      assert s.Finished(t);
    }
  }

  /** Inside dequeue, once a failing compare-and-swap or a stale load is ruled out. */
  lemma RankInsideDequeue(s: System, q': State<Item>, spurious: bool)
    requires LogInv(s) && s.worker.Processing? && DequeuerMoved(s.q, q', WORKER) && LogInv(s.(q := q'))
    requires s.q.pcs[WORKER].DeqLoadSeq? ==> !q'.pcs[WORKER].DeqLoadPos?
    requires s.q.pcs[WORKER].DeqLoadSeq? && q'.pcs[WORKER] == DeqReturned(None) ==> s.terminateRequested
    requires s.q.pcs[WORKER].DeqCas? && q'.pcs[WORKER].DeqLoadSeq? ==> spurious
    ensures WorkerRank(s.(q := q')) + 1 <= WorkerRank(s) + (if spurious then 2 else 0)
    ensures Iterations(s.(q := q')) == Iterations(s)
  {
    assert Delivered(s.(q := q')) == Delivered(s);
  }

  lemma RankAtReturn(s: System, interval: bool)
    requires LogInv(s) && s.worker.Processing? && s.q.pcs[WORKER].DeqReturned?
    requires var s' := WorkerStep(s, false, interval);
             LogInv(s') && Delivered(s') == Delivered(s) + (if s.q.pcs[WORKER].result.Some? then 1 else 0)
    ensures var s' := WorkerStep(s, false, interval);
            WorkerRank(s') + 1 <= WorkerRank(s) && Iterations(s') == Iterations(s) - 1
  {
  }

  lemma InsideDequeue(s: System, spurious: bool)
    requires SysInv(s) && AllPushed(s) && s.worker.Processing? && !s.q.pcs[WORKER].AtRest()
    ensures var pc, pc' := s.q.pcs[WORKER], Step(s.q, WORKER, spurious).pcs[WORKER];
            && (pc.DeqLoadSeq? ==> !pc'.DeqLoadPos? && (pc' == DeqReturned(None) ==> s.terminateRequested))
            && (pc.DeqCas? && pc'.DeqLoadSeq? ==> spurious)
  {
    if s.q.pcs[WORKER].DeqLoadSeq? {
      EmptyIsDrained(s, spurious);
    } else if s.q.pcs[WORKER].DeqCas? && !spurious {
      RetryIsPaidFor(s.q, WORKER);
    }
  }

  lemma RankOfDequeueStep(s: System, spurious: bool)
    requires SysInv(s) && AllPushed(s) && s.worker.Processing? && !s.q.pcs[WORKER].AtRest()
    ensures var s' := s.(q := Step(s.q, WORKER, spurious));
            && LogInv(s')
            && WorkerRank(s') + 1 <= WorkerRank(s) + (if spurious then 2 else 0)
            && Iterations(s') == Iterations(s)
  {
    DequeuerStep(s.q, WORKER, spurious);
    InsideDequeue(s, spurious);
    WorkerMoves(s, Step(s.q, WORKER, spurious));
    RankInsideDequeue(s, Step(s.q, WORKER, spurious), spurious);
  }

  /**
  Once all pushes have returned, every step of the worker brings it closer to its exit, and
  every return of process_next_msg uses up one of the iterations left.
  */
  lemma WorkerStepUsesRank(s: System, spurious: bool, interval: bool)
    requires SysInv(s) && AllPushed(s) && WorkerEnabled(s)
    ensures var s' := WorkerStep(s, spurious, interval);
            && SysInv(s') && AllPushed(s')
            && WorkerRank(s') + 1 <= WorkerRank(s) + (if spurious then 2 else 0)
            && Iterations(s') == Iterations(s) - (if s.worker.Processing? && !s'.worker.Processing? then 1 else 0)
  {
    WorkerStepInv(s, spurious, interval);
    WorkerConstants(s, spurious, interval);
    AllPushedKept(s, WorkerStep(s, spurious, interval));
    if s.worker.AtTop? {
      WorkerCalls(s);
    } else if !s.q.pcs[WORKER].AtRest() {
      RankOfDequeueStep(s, spurious);
    } else {
      if s.q.pcs[WORKER].result.Some? {
        ProcessInv(s);
      } else {
        EmptyInv(s, interval);
      }
      RankAtReturn(s, interval);
    }
  }

  /** A run of the worker: per step, whether a compare-and-swap fails spuriously and the interval has passed. */
  ghost predicate WorkerRuns(s: System, schedule: seq<(bool, bool)>)
    requires s.Shape()
    decreases |schedule|
  {
    schedule == [] ||
    (WorkerEnabled(s) &&
     var s' := WorkerStep(s, schedule[0].0, schedule[0].1);
     s'.Shape() && WorkerRuns(s', schedule[1..]))
  }

  function AfterWorker(s: System, schedule: seq<(bool, bool)>): System
    requires s.Shape() && WorkerRuns(s, schedule)
    decreases |schedule|
  {
    if schedule == [] then s else AfterWorker(WorkerStep(s, schedule[0].0, schedule[0].1), schedule[1..])
  }

  function Spurious(schedule: seq<(bool, bool)>): nat {
    if schedule == [] then 0 else (if schedule[0].0 then 1 else 0) + Spurious(schedule[1..])
  }

  /** The number of times process_next_msg returns along the schedule. */
  function Returns(s: System, schedule: seq<(bool, bool)>): nat
    requires s.Shape() && WorkerRuns(s, schedule)
    decreases |schedule|
  {
    if schedule == [] then 0
    else
      var s' := WorkerStep(s, schedule[0].0, schedule[0].1);
      (if s.worker.Processing? && !s'.worker.Processing? then 1 else 0) + Returns(s', schedule[1..])
  }

  /**
  With block_retry, once every push has returned the worker loop ends: its steps are bounded,
  process_next_msg returns at most once per item left and once more (twice if a dequeue had
  failed just before), and it stops stepping only by exiting, with everything delivered.
  */
  lemma {:induction false} WorkerEnds(s: System, schedule: seq<(bool, bool)>)
    requires SysInv(s) && AllPushed(s) && WorkerRuns(s, schedule)
    ensures |schedule| <= WorkerRank(s) + 2 * Spurious(schedule)
    ensures Returns(s, schedule) <= Iterations(s) <= |s.q.enqueued| - Delivered(s) + 2
    ensures var end := AfterWorker(s, schedule);
            && SysInv(end)
            && (end.worker.Exited? <==> !WorkerEnabled(end))
            && (end.worker.Exited? ==> Delivered(end) == |end.q.enqueued|)
    decreases |schedule|
  {
    if schedule == [] {
      WorkerNeverBlocks(s);
      if s.worker.Exited? {
        var p :| 0 <= p < Delivered(s) && s.q.enqueued[p].msg == Terminate;
        assert p == |s.q.enqueued| - 1;
      }
    } else {
      WorkerStepUsesRank(s, schedule[0].0, schedule[0].1);
      WorkerEnds(WorkerStep(s, schedule[0].0, schedule[0].1), schedule[1..]);
    }
  }
}
