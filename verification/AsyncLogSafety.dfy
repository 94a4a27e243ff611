/** Safety of the asynchronous logger over every interleaving of its threads. */
module AsyncLogSafety {
  import opened Wrappers
  import opened MpmcQueue
  import opened MpmcSafety
  import opened AsyncLog

  // ----- The invariant -----

  ghost predicate ProducerInv(s: System, t: nat)
    requires s.Shape() && 1 <= t < |s.programs|
  {
    var pc := s.q.pcs[t];
    && s.next[t] <= |s.programs[t]|
    && !Dequeuing(pc)
    && (s.pushing[t] ==> s.next[t] < |s.programs[t]| && Enqueuing(pc) && pc.item == s.Current(t))
    && (!s.pushing[t] ==> pc.AtRest())
    && (t == DESTRUCTOR && (s.pushing[t] || s.next[t] > 0) ==> s.LoggersFinished())
  }

  ghost predicate WorkerInv(s: System)
    requires s.Shape() && |s.q.enqueued| == s.q.enqPos && s.q.deqPos <= s.q.enqPos
  {
    var pc := s.q.pcs[WORKER];
    && !Enqueuing(pc)
    && (s.worker.Processing? ==> Dequeuing(pc))
    && (!s.worker.Processing? ==> pc.AtRest())
    && (pc.DeqLoadSeq? || pc.DeqCas? ==> pc.pos == s.q.deqPos)
    && (pc.DeqRead? || pc.DeqRelease? ==> pc.pos == s.q.deqPos - 1)
    && (s.worker.Processing? && pc.DeqReturned? && pc.result.Some? ==>
          s.q.deqPos >= 1 && pc.result.value == s.q.enqueued[s.q.deqPos - 1])
  }

  ghost predicate ItemInv(s: System, item: Item)
    requires s.Shape()
  {
    && 1 <= item.source < |s.programs|
    && item.index < |s.programs[item.source]|
    && item.msg == s.programs[item.source][item.index]
    && (item.source == DESTRUCTOR ==> Pushed(s, DESTRUCTOR) == 1)
  }

  /** What has been enqueued for thread `t`, against its program. */
  ghost predicate HistoryInv(s: System, t: nat)
    requires s.Shape() && 1 <= t < |s.programs|
  {
    Pushed(s, t) <= |s.programs[t]| &&
    var mine, expected := From(s.q.enqueued, t), AsItems(s.programs[t], t, Pushed(s, t));
    Subsequence(mine, expected) && (s.policy.BlockRetry? ==> mine == expected)
  }

  ghost predicate ShutdownInv(s: System)
    requires s.Shape() && 0 <= Delivered(s) <= |s.q.enqueued|
  {
    var items := s.q.enqueued;
    && (forall p :: 0 <= p < |items| && items[p].msg == Terminate ==> p == |items| - 1 && s.LoggersFinished())
    && (s.terminateRequested <==> exists p :: 0 <= p < Delivered(s) && items[p].msg == Terminate)
    && (s.terminateRequested && !s.worker.Exited? ==> s.flushRequested)
    && (s.worker.Exited? ==> s.terminateRequested)
    && (s.worker.Exited? ==> forall k :: 0 <= k < |s.sinks| ==> s.sinks[k] != [] && s.sinks[k][|s.sinks[k]| - 1] == Flushed)
  }

  ghost predicate SinksInv(s: System)
    requires s.Shape() && 0 <= Delivered(s) <= |s.q.enqueued|
  {
    forall k :: 0 <= k < |s.sinks| ==> WithoutFlushes(s.sinks[k]) == LogsOf(s.q.enqueued[..Delivered(s)])
  }

  ghost predicate FlushPending(s: System)
    requires s.Shape() && 0 <= Delivered(s) <= |s.q.enqueued|
  {
    exists p :: s.flushedUpTo <= p < Delivered(s) && AsksForFlush(s.q.enqueued[p])
  }

  /**
  A flush is due exactly if one was asked for since the last one, and since then every sink has
  got the log messages taken since then.
  */
  ghost predicate FlushInv(s: System)
    requires s.Shape() && 0 <= Delivered(s) <= |s.q.enqueued|
  {
    && s.flushedUpTo <= Delivered(s)
    && (s.flushRequested <==> FlushPending(s))
    && (forall k :: 0 <= k < |s.sinks| ==>
          && SinceFlush(s.sinks[k]) == LogsOf(s.q.enqueued[s.flushedUpTo..Delivered(s)])
          && (s.flushedUpTo > 0 ==> SinceFlush(s.sinks[k]) != s.sinks[k]))
  }

  /** Everything but the invariant of the queue itself. */
  ghost predicate LogInv(s: System)
  {
    && s.Shape() && |s.q.enqueued| == s.q.enqPos && s.q.deqPos <= s.q.enqPos
    && WorkerInv(s)
    && 0 <= Delivered(s) <= |s.q.enqueued|
    && (forall t: nat :: 1 <= t < |s.programs| ==> ProducerInv(s, t) && HistoryInv(s, t))
    && (forall p :: 0 <= p < |s.q.enqueued| ==> ItemInv(s, s.q.enqueued[p]))
    && ShutdownInv(s)
    && SinksInv(s)
    && FlushInv(s)
  }

  ghost predicate SysInv(s: System)
  {
    Inv(s.q) && LogInv(s)
  }

  lemma InitSysInv(size: nat, policy: Policy, programs: seq<seq<Msg>>, sinkCount: nat)
    requires size >= 2 && InitSystem(size, policy, programs, sinkCount).Shape()
    ensures SysInv(InitSystem(size, policy, programs, sinkCount))
  {
    var s := InitSystem(size, policy, programs, sinkCount);
    InitInv<Item>(size, |programs|);
    forall t: nat | 1 <= t < |programs| ensures HistoryInv(s, t) {
      assert AsItems(programs[t], t, 0) == [];
    }
  }

  // ----- Queue steps, seen from the logger -----

  ghost predicate SameShape(q: State<Item>, q': State<Item>, t: nat)
    requires t < |q.pcs|
  {
    && q'.WellFormed() && q'.size == q.size
    && |q'.pcs| == |q.pcs| && q'.pcs == q.pcs[t := q'.pcs[t]]
    && |q'.enqueued| == q'.enqPos && q'.deqPos <= q'.enqPos
  }

  ghost predicate EnqueuerMoved(q: State<Item>, q': State<Item>, t: nat)
    requires t < |q.pcs| && Enqueuing(q.pcs[t])
  {
    var pc := q.pcs[t];
    && SameShape(q, q', t) && q'.deqPos == q.deqPos
    && Enqueuing(q'.pcs[t]) && q'.pcs[t].item == pc.item
    && (if Claimed(q'.pcs[t]) && !Claimed(pc) then q'.enqueued == q.enqueued + [pc.item]
        else q'.enqueued == q.enqueued && (Claimed(pc) <==> Claimed(q'.pcs[t])))
  }

  lemma EnqueuerStep(q: State<Item>, t: nat, spurious: bool)
    requires Inv(q) && t < |q.pcs| && Enqueuing(q.pcs[t]) && !q.pcs[t].AtRest()
    ensures Inv(Step(q, t, spurious)) && EnqueuerMoved(q, Step(q, t, spurious), t)
  {
    StepInv(q, t, spurious);
    assert ThreadInv(q, q.pcs[t]);
  }

  ghost predicate DequeuerMoved(q: State<Item>, q': State<Item>, t: nat)
    requires t < |q.pcs|
  {
    && SameShape(q, q', t) && q'.enqueued == q.enqueued
    && var pc' := q'.pcs[t];
    match q.pcs[t]
    case DeqCas(pos) =>
      (pc' == DeqRead(pos) && q'.deqPos == pos + 1) || (pc' == DeqLoadSeq(q.deqPos) && q'.deqPos == q.deqPos)
    case DeqRead(pos) => pos < |q.enqueued| && pc' == DeqRelease(q.enqueued[pos], pos) && q'.deqPos == q.deqPos
    case DeqRelease(v, pos) =>
      pos < |q.enqueued| && v == q.enqueued[pos] && pc' == DeqReturned(Some(v)) && q'.deqPos == q.deqPos
    case DeqLoadPos => pc' == DeqLoadSeq(q.deqPos) && q'.deqPos == q.deqPos
    case DeqLoadSeq(pos) =>
      (pc' == DeqCas(pos) || pc' == DeqReturned(None) || pc' == DeqLoadPos) && q'.deqPos == q.deqPos
    case _ => false
  }

  lemma DequeuerStep(q: State<Item>, t: nat, spurious: bool)
    requires Inv(q) && t < |q.pcs| && Dequeuing(q.pcs[t]) && !q.pcs[t].AtRest()
    ensures Inv(Step(q, t, spurious)) && DequeuerMoved(q, Step(q, t, spurious), t)
  {
    StepInv(q, t, spurious);
    assert ThreadInv(q, q.pcs[t]);
  }

  lemma CallInv(q: State<Item>, t: nat, item: Item)
    requires Inv(q) && t < |q.pcs| && q.pcs[t].AtRest()
    ensures Inv(CallEnqueue(q, t, item)) && Inv(CallDequeue(q, t))
  {
    MoveInv(q, t, EnqLoadPos(item));
    MoveInv(q, t, DeqLoadPos);
  }

  // ----- Sequences -----

  lemma FromAppend(items: seq<Item>, item: Item, t: nat)
    ensures From(items + [item], t) == From(items, t) + (if item.source == t then [item] else [])
  {
    assert (items + [item])[..|items|] == items;
  }

  lemma LogsAppend(items: seq<Item>, d: nat)
    requires d < |items|
    ensures LogsOf(items[..d + 1]) == LogsOf(items[..d]) + (if items[d].msg.Log? then [Logged(items[d])] else [])
  {
    assert items[..d + 1][..d] == items[..d];
  }

  lemma WithoutFlushesAppend(outputs: seq<Output>, o: Output)
    ensures WithoutFlushes(outputs + [o]) == WithoutFlushes(outputs) + (if o.Flushed? then [] else [o])
  {
    assert (outputs + [o])[..|outputs|] == outputs;
  }

  lemma AsItemsAppend(program: seq<Msg>, t: nat, k: nat)
    requires k < |program|
    ensures AsItems(program, t, k + 1) == AsItems(program, t, k) + [Item(t, k, program[k])]
  {
  }

  lemma SubsequenceAppend<T>(a: seq<T>, b: seq<T>, x: T)
    requires Subsequence(a, b)
    ensures Subsequence(a, b + [x]) && Subsequence(a + [x], b + [x])
  {
    assert (b + [x])[..|b|] == b && (a + [x])[..|a|] == a;
  }

  // ----- Producer steps -----

  /** Thread `t` reaches its next message: with a new position, or because it gave the message up. */
  lemma HistoryAdvances(s: System, s': System, t: nat)
    requires s.Shape() && s'.Shape() && 1 <= t < |s.programs| && s.programs == s'.programs && s.policy == s'.policy
    requires HistoryInv(s, t) && Pushed(s, t) < |s.programs[t]| && Pushed(s', t) == Pushed(s, t) + 1
    requires var item := Item(t, Pushed(s, t), s.programs[t][Pushed(s, t)]);
             || s'.q.enqueued == s.q.enqueued + [item]
             || (s'.q.enqueued == s.q.enqueued && s.policy.DiscardLogMsg?)
    ensures HistoryInv(s', t)
  {
    var k := Pushed(s, t);
    var item := Item(t, k, s.programs[t][k]);
    AsItemsAppend(s.programs[t], t, k);
    FromAppend(s.q.enqueued, item, t);
    SubsequenceAppend(From(s.q.enqueued, t), AsItems(s.programs[t], t, k), item);
  }

  lemma HistoryKept(s: System, s': System, t: nat)
    requires s.Shape() && s'.Shape() && 1 <= t < |s.programs| && s.programs == s'.programs && s.policy == s'.policy
    requires HistoryInv(s, t) && Pushed(s', t) == Pushed(s, t)
    requires s'.q.enqueued == s.q.enqueued ||
             (exists item: Item :: item.source != t && s'.q.enqueued == s.q.enqueued + [item])
    ensures HistoryInv(s', t)
  {
    if s'.q.enqueued != s.q.enqueued {
      var item: Item :| item.source != t && s'.q.enqueued == s.q.enqueued + [item];
      FromAppend(s.q.enqueued, item, t);
      assert From(s'.q.enqueued, t) == From(s.q.enqueued, t);
    }
  }

  /** `s'` differs from `s` only in producer `t`, which may have enqueued its current message. */
  ghost predicate ProducerMoved(s: System, s': System, t: nat)
    requires s.Shape() && 1 <= t < |s.programs|
  {
    && s'.Shape() && s' == s.(q := s'.q, next := s'.next, pushing := s'.pushing)
    && SameShape(s.q, s'.q, t)
    && s'.next == s.next[t := s'.next[t]] && s'.pushing == s.pushing[t := s'.pushing[t]]
    && s'.q.deqPos == s.q.deqPos
    && ProducerEnabled(s, t)
    && (s'.q.enqueued == s.q.enqueued ||
        (s.next[t] < |s.programs[t]| && s'.q.enqueued == s.q.enqueued + [s.Current(t)]
         && s.pushing[t] && Pushed(s, t) == s.next[t] && Pushed(s', t) == s.next[t] + 1))
    && Pushed(s, t) <= Pushed(s', t) <= |s.programs[t]|
  }

  /** A producer that can move is not finished; so it is the destructor if the loggers are. */
  lemma LoggersStayFinished(s: System, s': System, t: nat)
    requires LogInv(s) && 1 <= t < |s.programs| && ProducerMoved(s, s', t)
    ensures s.LoggersFinished() ==> t == DESTRUCTOR && s'.LoggersFinished()
  {
    assert ProducerInv(s, t);
    if s.LoggersFinished() {
      assert t >= 2 ==> s.Finished(t);
      forall u | 2 <= u < |s.programs| ensures s'.Finished(u) {
        assert s.Finished(u);
      }
    }
  }

  lemma OtherProducers(s: System, s': System, t: nat, u: nat)
    requires LogInv(s) && 1 <= t < |s.programs| && ProducerMoved(s, s', t)
    requires 1 <= u < |s.programs| && u != t
    ensures ProducerInv(s', u) && HistoryInv(s', u)
  {
    assert ProducerInv(s, u) && HistoryInv(s, u);
    LoggersStayFinished(s, s', t);
    assert ProducerInv(s', u);
    HistoryKept(s, s', u);
  }

  lemma ItemsAfterMove(s: System, s': System, t: nat, p: nat)
    requires LogInv(s) && 1 <= t < |s.programs| && ProducerMoved(s, s', t) && p < |s'.q.enqueued|
    ensures ItemInv(s', s'.q.enqueued[p])
  {
    if p < |s.q.enqueued| {
      assert ItemInv(s, s.q.enqueued[p]);
    }
  }

  lemma ShutdownAfterMove(s: System, s': System, t: nat)
    requires LogInv(s) && 1 <= t < |s.programs| && ProducerMoved(s, s', t)
    requires ProducerInv(s', t)
    ensures Delivered(s') == Delivered(s) && ShutdownInv(s')
  {
    var items, items' := s.q.enqueued, s'.q.enqueued;
    LoggersStayFinished(s, s', t);
    forall p | 0 <= p < |items'| && items'[p].msg == Terminate
      ensures p == |items'| - 1 && s'.LoggersFinished()
    {
      ItemsAfterMove(s, s', t, p);
      if p < |items| {
        assert ItemInv(s, items[p]) && items[p].source == DESTRUCTOR;
      }
    }
    assert items == items'[..|items|];
  }

  /** A move that delivers nothing and flushes nothing. */
  lemma FlushKept(s: System, s': System)
    requires s.Shape() && s'.Shape() && 0 <= Delivered(s) == Delivered(s') <= |s.q.enqueued|
    requires FlushInv(s) && s.q.enqueued <= s'.q.enqueued
    requires s'.sinks == s.sinks && s'.flushRequested == s.flushRequested && s'.flushedUpTo == s.flushedUpTo
    ensures FlushInv(s')
  {
    var d, f := Delivered(s), s.flushedUpTo;
    assert s'.q.enqueued[f..d] == s.q.enqueued[f..d];
    assert forall p :: 0 <= p < d ==> s'.q.enqueued[p] == s.q.enqueued[p];
  }

  /** The worker does not notice a producer's move. */
  lemma WorkerAfterMove(s: System, s': System, t: nat)
    requires LogInv(s) && 1 <= t < |s.programs| && ProducerMoved(s, s', t)
    ensures WorkerInv(s') && Delivered(s') == Delivered(s) && SinksInv(s') && FlushInv(s')
  {
    assert s'.q.pcs[WORKER] == s.q.pcs[WORKER];
    assert s.q.enqueued <= s'.q.enqueued;
    assert s'.q.enqueued[..Delivered(s)] == s.q.enqueued[..Delivered(s)];
    FlushKept(s, s');
  }

  lemma ProducerMoveInv(s: System, s': System, t: nat)
    requires LogInv(s) && 1 <= t < |s.programs| && ProducerMoved(s, s', t)
    requires ProducerInv(s', t) && HistoryInv(s', t)
    ensures LogInv(s')
  {
    WorkerAfterMove(s, s', t);
    ShutdownAfterMove(s, s', t);
    forall u: nat | 1 <= u < |s.programs| ensures ProducerInv(s', u) && HistoryInv(s', u) {
      if u != t {
        OtherProducers(s, s', t, u);
      }
    }
    forall p | 0 <= p < |s'.q.enqueued| ensures ItemInv(s', s'.q.enqueued[p]) {
      ItemsAfterMove(s, s', t, p);
    }
  }

  /** The destructor's own moves do not unfinish a logger. */
  lemma FinishedKept(s: System, s': System, t: nat)
    requires s.Shape() && s'.Shape() && 1 <= t < |s.programs| && s'.programs == s.programs
    requires s'.next == s.next[t := s'.next[t]] && s'.pushing == s.pushing[t := s'.pushing[t]]
    ensures t == DESTRUCTOR && s.LoggersFinished() ==> s'.LoggersFinished()
  {
    if t == DESTRUCTOR && s.LoggersFinished() {
      forall u | 2 <= u < |s.programs| ensures s'.Finished(u) {
        assert s.Finished(u);
      }
    }
  }

  /** A producer starts push_msg, or pushes the same message again after a failed attempt. */
  lemma ProducerCalls(s: System, t: nat)
    requires LogInv(s) && 1 <= t < |s.programs| && ProducerEnabled(s, t) && s.q.pcs[t].AtRest()
    requires s.pushing[t] ==> !s.q.pcs[t].ok && s.policy.BlockRetry?
    ensures var s' := ProducerStep(s, t, false); ProducerMoved(s, s', t) && ProducerInv(s', t) && HistoryInv(s', t)
  {
    var s' := ProducerStep(s, t, false);
    assert ProducerInv(s, t) && HistoryInv(s, t);
    HistoryKept(s, s', t);
    FinishedKept(s, s', t);
  }

  lemma ProducerEnqueues(s: System, t: nat, q': State<Item>)
    requires LogInv(s) && 1 <= t < |s.programs| && ProducerEnabled(s, t) && s.pushing[t]
    requires Enqueuing(s.q.pcs[t]) && EnqueuerMoved(s.q, q', t)
    ensures var s' := s.(q := q'); ProducerMoved(s, s', t) && ProducerInv(s', t) && HistoryInv(s', t)
  {
    assert ProducerInv(s, t) && HistoryInv(s, t);
    var s' := s.(q := q');
    FinishedKept(s, s', t);
    if Pushed(s', t) == Pushed(s, t) {
      HistoryKept(s, s', t);
    } else {
      HistoryAdvances(s, s', t);
    }
  }

  lemma ProducerReturns(s: System, t: nat)
    requires LogInv(s) && 1 <= t < |s.programs| && ProducerEnabled(s, t)
    requires s.pushing[t] && s.q.pcs[t].EnqReturned? && (s.q.pcs[t].ok || s.policy.DiscardLogMsg?)
    ensures var s' := ProducerStep(s, t, false); ProducerMoved(s, s', t) && ProducerInv(s', t) && HistoryInv(s', t)
  {
    assert ProducerInv(s, t) && HistoryInv(s, t);
    var s' := ProducerStep(s, t, false);
    FinishedKept(s, s', t);
    if s.q.pcs[t].ok {
      HistoryKept(s, s', t);
    } else {
      HistoryAdvances(s, s', t);
    }
  }

  lemma ProducerStepInv(s: System, t: nat, spurious: bool)
    requires SysInv(s) && 1 <= t < |s.programs| && ProducerEnabled(s, t)
    ensures SysInv(ProducerStep(s, t, spurious))
  {
    assert ProducerInv(s, t);
    if !s.q.pcs[t].AtRest() {
      EnqueuerStep(s.q, t, spurious);
      ProducerEnqueues(s, t, Step(s.q, t, spurious));
    } else if s.pushing[t] && (s.q.pcs[t].ok || s.policy.DiscardLogMsg?) {
      ProducerReturns(s, t);
    } else {
      CallInv(s.q, t, s.Current(t));
      ProducerCalls(s, t);
    }
    ProducerMoveInv(s, ProducerStep(s, t, spurious), t);
  }

  // ----- Worker steps -----

  lemma OthersWhileWorking(s: System, s': System)
    requires LogInv(s) && s'.Shape() && s'.programs == s.programs && s'.policy == s.policy
    requires s'.next == s.next && s'.pushing == s.pushing && s'.q.enqueued == s.q.enqueued
    requires |s'.q.pcs| == |s.q.pcs| && s'.q.pcs == s.q.pcs[WORKER := s'.q.pcs[WORKER]]
    ensures forall t: nat :: 1 <= t < |s.programs| ==> ProducerInv(s', t) && HistoryInv(s', t)
    ensures forall p :: 0 <= p < |s'.q.enqueued| ==> ItemInv(s', s'.q.enqueued[p])
    ensures s'.LoggersFinished() <==> s.LoggersFinished()
  {
    assert s'.LoggersFinished() <==> s.LoggersFinished() by {
      forall u | 2 <= u < |s.programs| ensures s'.Finished(u) <==> s.Finished(u) {
      }
    }
    forall t: nat | 1 <= t < |s.programs| ensures ProducerInv(s', t) && HistoryInv(s', t) {
      assert ProducerInv(s, t) && HistoryInv(s, t);
    }
    forall p | 0 <= p < |s'.q.enqueued| ensures ItemInv(s', s'.q.enqueued[p]) {
      assert ItemInv(s, s.q.enqueued[p]);
    }
  }

  /** The worker moves inside dequeue. */
  lemma WorkerMoves(s: System, q': State<Item>)
    requires LogInv(s) && s.worker.Processing? && DequeuerMoved(s.q, q', WORKER)
    ensures LogInv(s.(q := q')) && Delivered(s.(q := q')) == Delivered(s)
  {
    var s' := s.(q := q');
    OthersWhileWorking(s, s');
    FlushKept(s, s');
  }

  lemma WorkerCalls(s: System)
    requires LogInv(s) && s.worker.AtTop?
    ensures WorkerEnabled(s)
    ensures var s' := WorkerStep(s, false, false); LogInv(s') && Delivered(s') == Delivered(s)
  {
    OthersWhileWorking(s, WorkerStep(s, false, false));
    FlushKept(s, WorkerStep(s, false, false));
  }

  /** Logging the item in the worker's hand keeps every sink in step with the queue. */
  lemma ProcessSinks(s: System)
    requires LogInv(s) && s.worker.Processing? && s.q.pcs[WORKER].DeqReturned? && s.q.pcs[WORKER].result.Some?
    ensures var s' := WorkerStep(s, false, false);
            && Delivered(s') == Delivered(s) + 1 <= |s.q.enqueued|
            && s.q.pcs[WORKER].result.value == s.q.enqueued[Delivered(s)]
            && SinksInv(s')
  {
    var s', d, items := WorkerStep(s, false, false), Delivered(s), s.q.enqueued;
    assert items[d] == s.q.pcs[WORKER].result.value;
    LogsAppend(items, d);
    forall k | 0 <= k < |s.sinks| ensures WithoutFlushes(s'.sinks[k]) == LogsOf(items[..d + 1]) {
      if items[d].msg.Log? {
        WithoutFlushesAppend(s.sinks[k], Logged(items[d]));
      }
    }
  }

  lemma LogsOfSlice(items: seq<Item>, f: nat, d: nat)
    requires f <= d < |items|
    ensures LogsOf(items[f..d + 1]) == LogsOf(items[f..d]) + (if items[d].msg.Log? then [Logged(items[d])] else [])
  {
    assert items[f..d + 1][..d - f] == items[f..d];
  }

  lemma SinceFlushAppend(outputs: seq<Output>, o: Output)
    ensures SinceFlush(outputs + [o]) == if o.Flushed? then [] else SinceFlush(outputs) + [o]
  {
    assert (outputs + [o])[..|outputs|] == outputs;
  }

  lemma SinceItem(outputs: seq<Output>, items: seq<Item>, f: nat, d: nat)
    requires f <= d < |items| && SinceFlush(outputs) == LogsOf(items[f..d])
    ensures var outputs' := if items[d].msg.Log? then outputs + [Logged(items[d])] else outputs;
            && SinceFlush(outputs') == LogsOf(items[f..d + 1])
            && (SinceFlush(outputs) != outputs ==> SinceFlush(outputs') != outputs')
  {
    LogsOfSlice(items, f, d);
    if items[d].msg.Log? {
      SinceFlushAppend(outputs, Logged(items[d]));
    } else {
      assert LogsOf(items[f..d]) + [] == LogsOf(items[f..d]);
    }
  }

  /** What processing the item in the worker's hand does to flags and sinks. */
  lemma ProcessedItem(s: System)
    requires LogInv(s) && s.worker.Processing? && s.q.pcs[WORKER].DeqReturned? && s.q.pcs[WORKER].result.Some?
    ensures var s', d := WorkerStep(s, false, false), Delivered(s);
            && d < |s.q.enqueued| && Delivered(s') == d + 1 && s'.Shape()
            && s'.q.enqueued == s.q.enqueued && s'.flushedUpTo == s.flushedUpTo && |s'.sinks| == |s.sinks|
            && (s'.flushRequested <==> s.flushRequested || AsksForFlush(s.q.enqueued[d]))
            && forall k :: 0 <= k < |s.sinks| ==>
                 s'.sinks[k] == if s.q.enqueued[d].msg.Log? then s.sinks[k] + [Logged(s.q.enqueued[d])] else s.sinks[k]
  {
    assert s.q.enqueued[Delivered(s)] == s.q.pcs[WORKER].result.value;
  }

  /** Every sink has one more log message since its last flush, or a flush has been asked for. */
  lemma ProcessFlush(s: System)
    requires LogInv(s) && s.worker.Processing? && s.q.pcs[WORKER].DeqReturned? && s.q.pcs[WORKER].result.Some?
    ensures var s' := WorkerStep(s, false, false); Delivered(s') == Delivered(s) + 1 <= |s.q.enqueued| && FlushInv(s')
  {
    var s', d, f, items := WorkerStep(s, false, false), Delivered(s), s.flushedUpTo, s.q.enqueued;
    ProcessedItem(s);
    assert FlushPending(s') <==> FlushPending(s) || AsksForFlush(items[d]);
    forall k | 0 <= k < |s.sinks|
      ensures SinceFlush(s'.sinks[k]) == LogsOf(items[f..d + 1])
      ensures f > 0 ==> SinceFlush(s'.sinks[k]) != s'.sinks[k]
    {
      SinceItem(s.sinks[k], items, f, d);
    }
  }

  lemma EmptyFlush(s: System, interval: bool)
    requires LogInv(s) && s.worker.Processing? && s.q.pcs[WORKER] == DeqReturned(None)
    ensures var s' := WorkerStep(s, false, interval); Delivered(s') == Delivered(s) && FlushInv(s')
  {
    var s', d := WorkerStep(s, false, interval), Delivered(s);
    if s.flushRequested || interval {
      assert s.q.enqueued[d..d] == [];
      forall k | 0 <= k < |s.sinks| ensures SinceFlush(s'.sinks[k]) == [] {
        SinceFlushAppend(s.sinks[k], Flushed);
      }
    } else {
      FlushKept(s, s');
    }
  }

  /** The item in the worker's hand is the next to deliver. */
  lemma ProcessInv(s: System)
    requires LogInv(s) && s.worker.Processing? && s.q.pcs[WORKER].DeqReturned? && s.q.pcs[WORKER].result.Some?
    ensures var s' := WorkerStep(s, false, false);
            LogInv(s') && Delivered(s') == Delivered(s) + 1
  {
    var s' := WorkerStep(s, false, false);
    ProcessSinks(s);
    ProcessFlush(s);
    OthersWhileWorking(s, s');
  }

  lemma EmptyInv(s: System, interval: bool)
    requires LogInv(s) && s.worker.Processing? && s.q.pcs[WORKER] == DeqReturned(None)
    ensures var s' := WorkerStep(s, false, interval);
            LogInv(s') && Delivered(s') == Delivered(s)
  {
    var s' := WorkerStep(s, false, interval);
    OthersWhileWorking(s, s');
    EmptyFlush(s, interval);
    forall k | 0 <= k < |s.sinks| ensures WithoutFlushes(s'.sinks[k]) == WithoutFlushes(s.sinks[k]) {
      WithoutFlushesAppend(s.sinks[k], Flushed);
    }
  }

  lemma WorkerStepInv(s: System, spurious: bool, interval: bool)
    requires SysInv(s) && WorkerEnabled(s)
    ensures SysInv(WorkerStep(s, spurious, interval))
  {
    if s.worker.AtTop? {
      CallInv(s.q, WORKER, Item(0, 0, Flush));
      WorkerCalls(s);
    } else if !s.q.pcs[WORKER].AtRest() {
      DequeuerStep(s.q, WORKER, spurious);
      WorkerMoves(s, Step(s.q, WORKER, spurious));
    } else if s.q.pcs[WORKER].result.Some? {
      ProcessInv(s);
    } else {
      EmptyInv(s, interval);
    }
  }

  /**
  push_msg returns once enqueue has, if it succeeded or the policy is to discard; otherwise the
  same message is pushed again.  So a message is given up only under discard_log_msg.
  */
  lemma PushReturnsIff(s: System, t: nat, spurious: bool)
    requires SysInv(s) && 1 <= t < |s.programs| && ProducerEnabled(s, t) && s.pushing[t]
    ensures var s', pc := ProducerStep(s, t, spurious), s.q.pcs[t];
            && (!s'.pushing[t] <==> pc.EnqReturned? && (pc.ok || s.policy == DiscardLogMsg))
            && (pc.EnqReturned? && !pc.ok && s.policy == BlockRetry ==> s'.q.pcs[t] == EnqLoadPos(pc.item))
            && s'.next[t] == s.next[t] + (if s'.pushing[t] then 0 else 1)
  {
    assert ProducerInv(s, t);
  }
}
