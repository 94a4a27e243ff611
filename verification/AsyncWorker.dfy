/**
async_log_helper as an object, run by one thread at a time on the queue class: push_msg, and
the worker's loop, which drains the queue, flushes and returns.
*/
module AsyncWorker {
  import opened AsyncLog
  import opened BoundedQueueClass

  /** What process_next_msg changes besides the queue. */
  datatype WorkerState = WorkerState(flushRequested: bool, terminateRequested: bool, sinks: seq<seq<Output>>)

  /** A message that was dequeued. */
  function AfterItem(s: WorkerState, item: Item): WorkerState {
    match item.msg
    case Flush => s.(flushRequested := true)
    case Terminate => s.(flushRequested := true, terminateRequested := true)
    case Log(_) => s.(sinks := ToEverySink(s.sinks, Logged(item)))
  }

  /** An empty queue. */
  function AfterFlush(s: WorkerState, due: bool): WorkerState {
    if s.flushRequested || due then s.(sinks := ToEverySink(s.sinks, Flushed), flushRequested := false) else s
  }

  function AfterItems(s: WorkerState, items: seq<Item>): WorkerState
    decreases |items|
  {
    if items == [] then s else AfterItems(AfterItem(s, items[0]), items[1..])
  }

  ghost predicate HasTerminate(items: seq<Item>) {
    exists k :: 0 <= k < |items| && items[k].msg == Terminate
  }

  function LogOf(item: Item): seq<Output> {
    if item.msg.Log? then [Logged(item)] else []
  }

  lemma LogsOfLast(items: seq<Item>)
    requires items != []
    ensures LogsOf(items) == LogsOf(items[..|items| - 1]) + LogOf(items[|items| - 1])
  {
  }

  lemma Regroup(a: seq<Output>, b: seq<Output>, c: seq<Output>)
    ensures (a + b) + c == a + (b + c)
  {
  }

  lemma {:induction false} LogsOfFirst(items: seq<Item>)
    requires items != []
    ensures LogsOf(items) == LogOf(items[0]) + LogsOf(items[1..])
    decreases |items|
  {
    var init, last, later := items[..|items| - 1], items[|items| - 1], items[1..];
    LogsOfLast(items);
    if init == [] {
      assert later == [] && LogsOf(init) == [] && LogsOf(later) == [];
    } else {
      LogsOfFirst(init);
      LogsOfLast(later);
      assert init[1..] == later[..|later| - 1] && later[|later| - 1] == last;
      Regroup(LogOf(items[0]), LogsOf(init[1..]), LogOf(last));
    }
  }

  /** A flush or terminate message is among the items. */
  ghost predicate AskForFlush(items: seq<Item>) {
    exists k :: 0 <= k < |items| && AsksForFlush(items[k])
  }

  lemma AskFirst(items: seq<Item>)
    requires items != []
    ensures AskForFlush(items) <==> AsksForFlush(items[0]) || AskForFlush(items[1..])
  {
    if k :| 0 <= k < |items[1..]| && AsksForFlush(items[1..][k]) {
      assert AsksForFlush(items[k + 1]);
    }
    if k :| 0 < k < |items| && AsksForFlush(items[k]) {
      assert AsksForFlush(items[1..][k - 1]);
    }
  }

  lemma TerminateFirst(items: seq<Item>)
    requires items != []
    ensures HasTerminate(items) <==> items[0].msg == Terminate || HasTerminate(items[1..])
  {
    if k :| 0 <= k < |items[1..]| && items[1..][k].msg == Terminate {
      assert items[k + 1].msg == Terminate;
    }
    if k :| 0 < k < |items| && items[k].msg == Terminate {
      assert items[1..][k - 1].msg == Terminate;
    }
  }

  /** Every sink gets the log messages among the items in order, and flush and terminate messages are noticed. */
  lemma {:induction false} AfterItemsIs(s: WorkerState, items: seq<Item>)
    ensures var s' := AfterItems(s, items);
            && |s'.sinks| == |s.sinks|
            && (forall k :: 0 <= k < |s.sinks| ==> s'.sinks[k] == s.sinks[k] + LogsOf(items))
            && (s'.terminateRequested <==> s.terminateRequested || HasTerminate(items))
            && (s'.flushRequested <==> s.flushRequested || AskForFlush(items))
    decreases |items|
  {
    if items == [] {
      forall k | 0 <= k < |s.sinks| ensures s.sinks[k] + LogsOf(items) == s.sinks[k] {
      }
    } else {
      var first := AfterItem(s, items[0]);
      AfterItemsIs(first, items[1..]);
      LogsOfFirst(items);
      TerminateFirst(items);
      AskFirst(items);
      forall k | 0 <= k < |s.sinks| ensures first.sinks[k] + LogsOf(items[1..]) == s.sinks[k] + LogsOf(items) {
      }
    }
  }

  /** Once the items are handled and the queue is empty, all sinks are flushed exactly if that is due or was asked for. */
  lemma FlushIsServed(s: WorkerState, items: seq<Item>, due: bool)
    ensures var s' := AfterFlush(AfterItems(s, items), due);
            && !s'.flushRequested && |s'.sinks| == |s.sinks|
            && forall k :: 0 <= k < |s.sinks| ==>
                 s'.sinks[k] == s.sinks[k] + LogsOf(items)
                   + (if s.flushRequested || AskForFlush(items) || due then [Flushed] else [])
  {
    AfterItemsIs(s, items);
  }

  class AsyncLogHelper {
    const queue: BoundedQueue<Item>
    const policy: Policy
    /** Zero switches flushing by the clock off. */
    const flushInterval: nat
    var flushRequested: bool
    var terminateRequested: bool
    var lastPop: int
    var lastFlush: int
    var sinks: seq<seq<Output>>

    constructor (queue: BoundedQueue<Item>, policy: Policy, flushInterval: nat, sinkCount: nat, now: int)
      ensures this.queue == queue && this.policy == policy && this.flushInterval == flushInterval
      ensures View() == WorkerState(false, false, seq(sinkCount, _ => []))
    {
      this.queue, this.policy, this.flushInterval := queue, policy, flushInterval;
      flushRequested, terminateRequested, lastPop, lastFlush := false, false, now, now;
      sinks := seq(sinkCount, _ => []);
    }

    function View(): WorkerState
      reads this
    {
      WorkerState(flushRequested, terminateRequested, sinks)
    }

    /** The flush interval, if there is one, has passed. */
    predicate FlushIsDue(now: int)
      reads this
    {
      flushInterval != 0 && now - lastFlush >= flushInterval
    }

    /** `later` is the clock once the sinks have been flushed. */
    method HandleFlushInterval(now: int, later: int)
      modifies `flushRequested, `lastFlush, `sinks
      ensures View() == AfterFlush(old(View()), old(FlushIsDue(now)))
      ensures !flushRequested && |sinks| == |old(sinks)| && terminateRequested == old(terminateRequested)
      ensures forall k :: 0 <= k < |sinks| ==>
                sinks[k] == if old(flushRequested) || old(FlushIsDue(now)) then old(sinks)[k] + [Flushed] else old(sinks)[k]
      ensures var due := flushInterval > 0 && old(lastFlush) + flushInterval <= now;
              lastFlush == if old(flushRequested) || due then later else old(lastFlush)
    {
      if flushRequested || FlushIsDue(now) {
        sinks := ToEverySink(sinks, Flushed);
        lastFlush := later;
        flushRequested := false;
      }
    }

    /** False when the worker is to return: the queue is empty and a terminate message came before. */
    method ProcessNextMsg(now: int, later: int, spurious: nat) returns (active: bool)
      requires queue.Valid()
      modifies this, queue`dequeuePos, queue`contents, queue.buffer
      ensures queue.Valid()
      ensures old(queue.contents) != [] ==>
                && active && queue.contents == old(queue.contents)[1..]
                && View() == AfterItem(old(View()), old(queue.contents)[0])
                && (flushRequested <==> old(flushRequested) || AsksForFlush(old(queue.contents)[0]))
                && (terminateRequested <==> old(terminateRequested) || old(queue.contents)[0].msg == Terminate)
                && lastPop == now && lastFlush == old(lastFlush)
      ensures old(queue.contents) == [] ==>
                && active == !old(terminateRequested) && queue.contents == [] && !flushRequested
                && View() == AfterFlush(old(View()), old(FlushIsDue(now))) && lastPop == old(lastPop)
                && lastFlush == if old(flushRequested) || old(FlushIsDue(now)) then later else old(lastFlush)
    {
      var incoming := queue.Dequeue(spurious);
      match incoming {
        case Some(item) =>
          lastPop := now;
          match item.msg {
            case Flush => flushRequested := true;
            case Terminate => flushRequested, terminateRequested := true, true;
            case Log(_) => sinks := ToEverySink(sinks, Logged(item));
          }
          active := true;
        case None =>
          HandleFlushInterval(now, later);
          active := !terminateRequested;
      }
    }

    /**
    The message is appended.  If the queue is full it is dropped under discard_log_msg; under
    block_retry the caller sleeps and tries again until it succeeds; while it sleeps for the k-th
    time the worker may get a turn, and sooner or later, at the latest when patience ends, it does.
    */
    method PushMsg(item: Item, clock: nat -> int, spurious: nat -> nat, turn: nat -> bool, ghost patience: nat)
      requires queue.Valid() && (policy.DiscardLogMsg? || turn(patience))
      modifies this, queue`enqueuePos, queue`dequeuePos, queue`contents, queue.buffer
      ensures queue.Valid()
      ensures var full := |old(queue.contents)| == queue.buffer.Length;
              if !full then queue.contents == old(queue.contents) + [item] && View() == old(View())
              else if policy.DiscardLogMsg? then queue.contents == old(queue.contents) && View() == old(View())
              else
                && queue.contents == old(queue.contents)[1..] + [item]
                && View() == AfterItem(old(View()), old(queue.contents)[0])
    {
      var ok := queue.Enqueue(item, spurious(0));
      if !ok && !policy.DiscardLogMsg? {
        var sleeps := 0;
        while !ok
          invariant queue.Valid() && sleeps <= patience + 1 && (!ok ==> sleeps <= patience)
          invariant !ok ==> queue.contents == old(queue.contents) && View() == old(View())
          invariant ok ==>
                      && queue.contents == old(queue.contents)[1..] + [item]
                      && View() == AfterItem(old(View()), old(queue.contents)[0])
          decreases patience + 1 - sleeps
        {
          if turn(sleeps) {
            var _ := ProcessNextMsg(clock(2 * sleeps), clock(2 * sleeps + 1), spurious(2 * sleeps + 1));
          }
          ok := queue.Enqueue(item, spurious(2 * sleeps + 2));
          sleeps := sleeps + 1;
        }
      }
    }

    /**
    Once a terminate message is queued and nobody pushes any more, the loop ends with the queue
    empty, and each sink has got exactly the queued log messages in order and then one flush.
    */
    method WorkerLoop(clock: nat -> int, spurious: nat -> nat) returns (iterations: nat)
      requires queue.Valid() && HasTerminate(queue.contents)
      modifies this, queue`dequeuePos, queue`contents, queue.buffer
      ensures queue.Valid() && queue.contents == [] && iterations == |old(queue.contents)| + 1
      ensures terminateRequested && !flushRequested && |sinks| == |old(sinks)|
      ensures forall k :: 0 <= k < |sinks| ==> sinks[k] == old(sinks)[k] + LogsOf(old(queue.contents)) + [Flushed]
    {
      lastPop := clock(0);
      lastFlush := lastPop;
      var active := true;
      iterations := 0;
      ghost var done := AfterItems(View(), queue.contents);
      AfterItemsIs(View(), queue.contents);
      while active
        invariant queue.Valid() && done.terminateRequested && done.flushRequested
        invariant active ==> AfterItems(View(), queue.contents) == done
        invariant active ==> iterations + |queue.contents| == |old(queue.contents)|
        invariant !active ==> queue.contents == [] && View() == AfterFlush(done, true)
        invariant !active ==> iterations == |old(queue.contents)| + 1
        decreases active, |queue.contents|
      {
        active := ProcessNextMsg(clock(2 * iterations + 1), clock(2 * iterations + 2), spurious(iterations));
        iterations := iterations + 1;
      }
    }
  }
}
