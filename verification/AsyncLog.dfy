/**
The asynchronous logger of async_log_helper.h on top of the lock-free queue: producer
threads push messages, one worker thread drains the queue into the sinks, and the
destructor pushes a terminate message once every log call has returned.  All threads
interleave step by step through the transition system of module MpmcQueue.
*/
module AsyncLog {
  import opened MpmcQueue

  datatype Msg = Log(text: string) | Flush | Terminate

  /** A message in the queue, tagged with the thread that pushes it and its place in that thread's program. */
  datatype Item = Item(source: nat, index: nat, msg: Msg)

  datatype Policy = BlockRetry | DiscardLogMsg

  /** What a sink is asked to do. */
  datatype Output = Logged(item: Item) | Flushed

  /** Where the worker is: at the top of its loop, inside process_next_msg, or returned. */
  datatype Worker = AtTop | Processing | Exited

  const WORKER: nat := 0
  const DESTRUCTOR: nat := 1

  /**
  Thread 0 is the worker, thread 1 the destructor and the others log.  `programs` lists the
  messages each thread pushes, `next` the message each is at, and `pushing` says which
  threads are inside push_msg.  `flushedUpTo` is history: how many items had been taken when the
  sinks were flushed last.  No step reads it.
  */
  datatype System = System(
    q: State<Item>,
    policy: Policy,
    programs: seq<seq<Msg>>,
    next: seq<nat>,
    pushing: seq<bool>,
    worker: Worker,
    flushRequested: bool,
    terminateRequested: bool,
    sinks: seq<seq<Output>>,
    flushedUpTo: nat)
  {
    predicate Shape() {
      && q.WellFormed()
      && |q.pcs| == |programs| == |next| == |pushing| >= 2
      && programs[WORKER] == [] && programs[DESTRUCTOR] == [Terminate]
      && (forall t :: 2 <= t < |programs| ==> Terminate !in programs[t])
    }

    predicate Finished(t: nat)
      requires Shape() && t < |programs|
    {
      !pushing[t] && next[t] == |programs[t]|
    }

    /** Every call of every logging thread has returned. */
    predicate LoggersFinished()
      requires Shape()
    {
      forall t :: 2 <= t < |programs| ==> Finished(t)
    }

    function Current(t: nat): Item
      requires Shape() && t < |programs| && next[t] < |programs[t]|
    {
      Item(t, next[t], programs[t][next[t]])
    }
  }

  function InitSystem(size: nat, policy: Policy, programs: seq<seq<Msg>>, sinkCount: nat): System
  {
    var n := |programs|;
    System(Init(size, n), policy, programs, seq(n, _ => 0), seq(n, _ => false), AtTop, false, false,
           seq(sinkCount, _ => []), 0)
  }

  // ----- Producers: push_msg -----

  predicate ProducerEnabled(s: System, t: nat)
    requires s.Shape() && 1 <= t < |s.programs|
  {
    if s.pushing[t] then
      s.next[t] < |s.programs[t]| && (s.q.pcs[t].EnqReturned? || !s.q.pcs[t].AtRest())
    else s.q.pcs[t].AtRest() && s.next[t] < |s.programs[t]| && (t == DESTRUCTOR ==> s.LoggersFinished())
  }

  /** One step of a producer: start push_msg, move inside enqueue, or act on its result. */
  function ProducerStep(s: System, t: nat, spurious: bool): System
    requires s.Shape() && 1 <= t < |s.programs| && ProducerEnabled(s, t)
  {
    if !s.pushing[t] then
      s.(q := CallEnqueue(s.q, t, s.Current(t)), pushing := s.pushing[t := true])
    else if !s.q.pcs[t].AtRest() then
      s.(q := Step(s.q, t, spurious))
    else if s.q.pcs[t].ok || s.policy.DiscardLogMsg? then
      s.(next := s.next[t := s.next[t] + 1], pushing := s.pushing[t := false])
    else
      // block_retry: the message was not moved from, so the same message is pushed again
      s.(q := CallEnqueue(s.q, t, s.Current(t)))
  }

  // ----- The worker: worker_loop, process_next_msg, handle_flush_interval -----

  predicate WorkerEnabled(s: System)
    requires s.Shape()
  {
    match s.worker
    case AtTop => s.q.pcs[WORKER].AtRest()
    case Processing => s.q.pcs[WORKER].DeqReturned? || !s.q.pcs[WORKER].AtRest()
    case Exited => false
  }

  function ToEverySink(sinks: seq<seq<Output>>, o: Output): (r: seq<seq<Output>>)
    ensures |r| == |sinks| && forall k :: 0 <= k < |sinks| ==> r[k] == sinks[k] + [o]
  {
    seq(|sinks|, k requires 0 <= k < |sinks| => sinks[k] + [o])
  }

  /** process_next_msg after a successful dequeue. */
  function Process(s: System, item: Item): System {
    match item.msg
    case Flush => s.(flushRequested := true)
    case Terminate => s.(flushRequested := true, terminateRequested := true)
    case Log(_) => s.(sinks := ToEverySink(s.sinks, Logged(item)))
  }

  /** process_next_msg after a failed dequeue; `interval` says that the flush interval has passed. */
  function HandleEmpty(s: System, interval: bool): System {
    var flushed := if s.flushRequested || interval
                   then s.(sinks := ToEverySink(s.sinks, Flushed), flushRequested := false, flushedUpTo := s.q.deqPos)
                   else s;
    flushed.(worker := if s.terminateRequested then Exited else AtTop)
  }

  function WorkerStep(s: System, spurious: bool, interval: bool): System
    requires s.Shape() && WorkerEnabled(s)
  {
    if s.worker.AtTop? then
      s.(q := CallDequeue(s.q, WORKER), worker := Processing)
    else if !s.q.pcs[WORKER].AtRest() then
      s.(q := Step(s.q, WORKER, spurious))
    else
      match s.q.pcs[WORKER].result
      case Some(item) => Process(s, item).(worker := AtTop)
      case None => HandleEmpty(s, interval)
  }

  // ----- What has been pushed and delivered -----

  /** The thread has claimed a position for its current message. */
  predicate Claimed<T>(pc: Pc<T>) {
    pc.EnqWrite? || pc.EnqPublish? || (pc.EnqReturned? && pc.ok)
  }

  predicate Enqueuing<T>(pc: Pc<T>) {
    pc.EnqLoadPos? || pc.EnqLoadSeq? || pc.EnqCas? || pc.EnqWrite? || pc.EnqPublish? || pc.EnqReturned?
  }

  predicate Dequeuing<T>(pc: Pc<T>) {
    pc.DeqLoadPos? || pc.DeqLoadSeq? || pc.DeqCas? || pc.DeqRead? || pc.DeqRelease? || pc.DeqReturned?
  }

  /** How many messages of thread `t` have a position in the queue or were given up. */
  function Pushed(s: System, t: nat): nat
    requires s.Shape() && t < |s.programs|
  {
    s.next[t] + (if s.pushing[t] && Claimed(s.q.pcs[t]) then 1 else 0)
  }

  /** The worker has claimed an item that it has not processed yet. */
  predicate InHand(s: System)
    requires s.Shape()
  {
    var pc := s.q.pcs[WORKER];
    s.worker.Processing? && (pc.DeqRead? || pc.DeqRelease? || (pc.DeqReturned? && pc.result.Some?))
  }

  /** How many items the worker has finished processing. */
  function Delivered(s: System): int
    requires s.Shape()
  {
    s.q.deqPos - (if InHand(s) then 1 else 0)
  }

  function From(items: seq<Item>, t: nat): seq<Item> {
    if items == [] then []
    else
      var last := items[|items| - 1];
      From(items[..|items| - 1], t) + (if last.source == t then [last] else [])
  }

  /** The first `k` messages of a program as queue items. */
  function AsItems(program: seq<Msg>, t: nat, k: nat): seq<Item>
    requires k <= |program|
  {
    seq(k, i requires 0 <= i < k => Item(t, i, program[i]))
  }

  /** The sink outputs that the delivered items ask for. */
  function LogsOf(items: seq<Item>): seq<Output> {
    if items == [] then []
    else
      var last := items[|items| - 1];
      LogsOf(items[..|items| - 1]) + (if last.msg.Log? then [Logged(last)] else [])
  }

  /** A sink's history without its flushes. */
  function WithoutFlushes(outputs: seq<Output>): seq<Output> {
    if outputs == [] then []
    else
      var last := outputs[|outputs| - 1];
      WithoutFlushes(outputs[..|outputs| - 1]) + (if last.Flushed? then [] else [last])
  }

  /** A flush message asks for a flush, and so does the terminate message. */
  predicate AsksForFlush(item: Item) {
    item.msg == Flush || item.msg == Terminate
  }

  /** What a sink has got since it was flushed last. */
  function SinceFlush(outputs: seq<Output>): seq<Output> {
    if outputs == [] || outputs[|outputs| - 1].Flushed? then []
    else SinceFlush(outputs[..|outputs| - 1]) + [outputs[|outputs| - 1]]
  }

  /** `a` is `b` with some elements left out. */
  predicate Subsequence<T(==)>(a: seq<T>, b: seq<T>)
    decreases |b|
  {
    a == [] ||
    (b != [] && (Subsequence(a, b[..|b| - 1]) ||
                 (a[|a| - 1] == b[|b| - 1] && Subsequence(a[..|a| - 1], b[..|b| - 1]))))
  }
}
