/**
The lock-free bounded queue of ext/spdlog/include/spdlog/details/mpmc_bounded_q.h as a
transition system.  Every atomic load, compare-and-swap and store, and every access to a
cell's data, is one step of one thread; the steps of any number of threads interleave
arbitrarily.  Steps are sequentially consistent and positions are unbounded naturals
(module WrappedQueue relates them to the wrapping machine words).
*/
module MpmcQueue {
  import opened Wrappers
  import opened Slots

  /** `cell_t`; `data` is None before the first store and after a move out of the cell. */
  datatype Cell<T> = Cell(sequence: nat, data: Option<T>)

  /** What a thread is about to do, with the local variables of the call it is in. */
  datatype Pc<T> =
    | Idle
    // enqueue(item)
    | EnqLoadPos(item: T)                  // load enqueue_pos_
    | EnqLoadSeq(item: T, pos: nat)        // load the cell's sequence_ and branch on dif
    | EnqCas(item: T, pos: nat)            // compare_exchange_weak on enqueue_pos_
    | EnqWrite(item: T, pos: nat)          // store into data_
    | EnqPublish(item: T, pos: nat)        // store pos + 1 into sequence_
    | EnqReturned(item: T, ok: bool)
    // dequeue()
    | DeqLoadPos
    | DeqLoadSeq(pos: nat)
    | DeqCas(pos: nat)
    | DeqRead(pos: nat)                    // move out of data_
    | DeqRelease(value: T, pos: nat)       // store pos + mask + 1 into sequence_
    | DeqReturned(result: Option<T>)
  {
    /** No call is in flight. */
    predicate AtRest() {
      Idle? || EnqReturned? || DeqReturned?
    }

    /** The thread has claimed position `p` for storing and not yet published it. */
    predicate Storing(p: nat) {
      (EnqWrite? || EnqPublish?) && pos == p
    }

    /** The thread has claimed position `p` for taking and not yet released its cell. */
    predicate Taking(p: nat) {
      (DeqRead? || DeqRelease?) && pos == p
    }

    /** The thread is between claiming a cell and storing the cell's sequence. */
    predicate Holds() {
      EnqWrite? || EnqPublish? || DeqRead? || DeqRelease?
    }
  }

  /**
  `enqueued` and `taken` are history: the items in the order their positions were claimed,
  and the item moved out of the cell for each position.  No step reads them.
  */
  datatype State<T> = State(
    size: nat,
    cells: seq<Cell<T>>,
    enqPos: nat,
    deqPos: nat,
    pcs: seq<Pc<T>>,
    enqueued: seq<T>,
    taken: map<nat, T>)
  {
    predicate WellFormed() {
      size >= 2 && |cells| == size
    }

    function CellAt(pos: nat): Cell<T>
      requires WellFormed()
    {
      cells[Slot(pos, size)]
    }
  }

  function Init<T>(size: nat, threads: nat): State<T>
  {
    State(size, seq(size, i requires 0 <= i < size => Cell(i, None)), 0, 0, seq(threads, _ => Idle), [], map[])
  }

  // ----- Steps -----

  function SetPc<T>(s: State<T>, t: nat, pc: Pc<T>): State<T>
    requires t < |s.pcs|
  {
    s.(pcs := s.pcs[t := pc])
  }

  function SetCell<T>(s: State<T>, pos: nat, c: Cell<T>): State<T>
    requires s.WellFormed()
  {
    s.(cells := s.cells[Slot(pos, s.size) := c])
  }

  /** A thread with no call in flight calls enqueue(item). */
  function CallEnqueue<T>(s: State<T>, t: nat, item: T): State<T>
    requires t < |s.pcs| && s.pcs[t].AtRest()
  {
    SetPc(s, t, EnqLoadPos(item))
  }

  /** A thread with no call in flight calls dequeue. */
  function CallDequeue<T>(s: State<T>, t: nat): State<T>
    requires t < |s.pcs| && s.pcs[t].AtRest()
  {
    SetPc(s, t, DeqLoadPos)
  }

  /**
  One atomic step of thread `t`, which is inside a call.  `spurious` says whether
  compare_exchange_weak fails although the value matches; a failing compare-and-swap
  stores the current position in the local variable either way.
  */
  function Step<T>(s: State<T>, t: nat, spurious: bool): State<T>
    requires s.WellFormed()
    requires t < |s.pcs| && !s.pcs[t].AtRest()
  {
    match s.pcs[t]
    case EnqLoadPos(item) => SetPc(s, t, EnqLoadSeq(item, s.enqPos))
    case EnqLoadSeq(item, pos) =>
      var dif := s.CellAt(pos).sequence - pos;
      if dif == 0 then SetPc(s, t, EnqCas(item, pos))
      else if dif < 0 then SetPc(s, t, EnqReturned(item, false))
      else SetPc(s, t, EnqLoadPos(item))
    case EnqCas(item, pos) =>
      if s.enqPos == pos && !spurious then
        SetPc(s, t, EnqWrite(item, pos)).(enqPos := pos + 1, enqueued := s.enqueued + [item])
      else SetPc(s, t, EnqLoadSeq(item, s.enqPos))
    case EnqWrite(item, pos) =>
      SetPc(SetCell(s, pos, Cell(s.CellAt(pos).sequence, Some(item))), t, EnqPublish(item, pos))
    case EnqPublish(item, pos) =>
      SetPc(SetCell(s, pos, Cell(pos + 1, s.CellAt(pos).data)), t, EnqReturned(item, true))
    case DeqLoadPos => SetPc(s, t, DeqLoadSeq(s.deqPos))
    case DeqLoadSeq(pos) =>
      var dif := s.CellAt(pos).sequence - (pos + 1);
      if dif == 0 then SetPc(s, t, DeqCas(pos))
      else if dif < 0 then SetPc(s, t, DeqReturned(None))
      else SetPc(s, t, DeqLoadPos)
    case DeqCas(pos) =>
      if s.deqPos == pos && !spurious then
        SetPc(s, t, DeqRead(pos)).(deqPos := pos + 1)
      else SetPc(s, t, DeqLoadSeq(s.deqPos))
    case DeqRead(pos) =>
      // Moving out of a cell that holds nothing would leave the thread here for ever;
      // the invariant shows that it never happens.
      (match s.CellAt(pos).data
       case None => s
       case Some(v) =>
         SetPc(SetCell(s, pos, Cell(s.CellAt(pos).sequence, None)), t, DeqRelease(v, pos))
         .(taken := s.taken[pos := v]))
    case DeqRelease(v, pos) =>
      SetPc(SetCell(s, pos, Cell(pos + s.size, s.CellAt(pos).data)), t, DeqReturned(Some(v)))
  }

  ghost predicate NextBy<T(!new)>(s: State<T>, s': State<T>, t: nat)
    requires s.WellFormed() && t < |s.pcs|
  {
    if s.pcs[t].AtRest() then
      s' == CallDequeue(s, t) || exists item :: s' == CallEnqueue(s, t, item)
    else
      s' == Step(s, t, false) || s' == Step(s, t, true)
  }

  /** The transition relation: a new call, or one step of a thread inside a call. */
  ghost predicate Next<T(!new)>(s: State<T>, s': State<T>)
    requires s.WellFormed()
  {
    exists t: nat :: t < |s.pcs| && NextBy(s, s', t)
  }

  // ----- The invariant -----

  /** A cell with sequence `q` waits for the storer of position `q`. */
  ghost predicate Free(q: nat, i: nat, size: nat, enqPos: nat, deqPos: nat)
    requires size > 0
  {
    Slot(q, size) == i && deqPos <= q < deqPos + size && enqPos <= q + size
  }

  /** A cell with sequence `q` has been published for the taker of position `q - 1`. */
  ghost predicate Full(q: nat, i: nat, size: nat, enqPos: nat)
    requires size > 0
  {
    q >= 1 && Slot(q - 1, size) == i && q - 1 < enqPos <= q - 1 + size
  }

  ghost predicate HasStorer<T>(pcs: seq<Pc<T>>, p: nat)
  {
    exists t :: 0 <= t < |pcs| && pcs[t].Storing(p)
  }

  ghost predicate HasTaker<T>(pcs: seq<Pc<T>>, p: nat)
  {
    exists t :: 0 <= t < |pcs| && pcs[t].Taking(p)
  }

  ghost predicate HasReader<T>(pcs: seq<Pc<T>>, p: nat)
  {
    exists t :: 0 <= t < |pcs| && pcs[t] == DeqRead(p)
  }

  /** A cell is free, and claimed only if somebody is storing into it ... */
  ghost predicate FreeInv<T>(s: State<T>, i: nat)
    requires s.WellFormed() && i < s.size
  {
    var q := s.cells[i].sequence;
    Free(q, i, s.size, s.enqPos, s.deqPos) && (q < s.enqPos ==> HasStorer(s.pcs, q))
  }

  /** ... or full, and holds its item unless somebody has claimed it for taking. */
  ghost predicate FullInv<T>(s: State<T>, i: nat)
    requires s.WellFormed() && i < s.size && |s.enqueued| == s.enqPos
  {
    var q := s.cells[i].sequence;
    && Full(q, i, s.size, s.enqPos)
    && (q - 1 < s.deqPos ==> HasTaker(s.pcs, q - 1))
    && (q - 1 >= s.deqPos ==> s.cells[i].data == Some(s.enqueued[q - 1]))
  }

  ghost predicate CellInv<T>(s: State<T>, i: nat)
    requires s.WellFormed() && i < s.size && |s.enqueued| == s.enqPos
  {
    FreeInv(s, i) || FullInv(s, i)
  }

  ghost predicate ThreadInv<T>(s: State<T>, pc: Pc<T>)
    requires s.WellFormed() && |s.enqueued| == s.enqPos && s.deqPos <= s.enqPos
  {
    match pc
    case EnqLoadSeq(_, pos) => pos <= s.enqPos
    case EnqCas(_, pos) => pos <= s.enqPos && (pos == s.enqPos ==> s.CellAt(pos).sequence == pos)
    case EnqWrite(item, pos) =>
      pos < s.enqPos && s.CellAt(pos).sequence == pos && s.enqueued[pos] == item
    case EnqPublish(item, pos) =>
      pos < s.enqPos && s.CellAt(pos) == Cell(pos, Some(item)) && s.enqueued[pos] == item
    case DeqLoadSeq(pos) => pos <= s.deqPos
    case DeqCas(pos) => pos <= s.deqPos && (pos == s.deqPos ==> s.CellAt(pos).sequence == pos + 1)
    case DeqRead(pos) =>
      pos < s.deqPos && pos !in s.taken && s.CellAt(pos) == Cell(pos + 1, Some(s.enqueued[pos]))
    case DeqRelease(v, pos) =>
      pos < s.deqPos && v == s.enqueued[pos] && s.CellAt(pos).sequence == pos + 1
    case _ => true
  }

  ghost predicate SameClaim<T>(a: Pc<T>, b: Pc<T>)
  {
    (a.Holds() && b.Holds()) && (a.Storing(a.pos) <==> b.Storing(b.pos)) && a.pos == b.pos
  }

  /** No position is held by two threads for the same purpose. */
  ghost predicate Exclusive<T>(pcs: seq<Pc<T>>)
  {
    forall t, u :: 0 <= t < u < |pcs| ==> !SameClaim(pcs[t], pcs[u])
  }

  /** Every claimed position was taken as stored, or its taker has not read the cell yet. */
  ghost predicate TakenInv<T>(s: State<T>)
    requires |s.enqueued| == s.enqPos && s.deqPos <= s.enqPos
  {
    && (forall p :: p in s.taken ==> p < s.deqPos && s.taken[p] == s.enqueued[p])
    && (forall p: nat :: p < s.deqPos && p !in s.taken ==> HasReader(s.pcs, p))
  }

  ghost predicate Inv<T>(s: State<T>)
  {
    && s.WellFormed()
    && s.deqPos <= s.enqPos <= s.deqPos + s.size
    && |s.enqueued| == s.enqPos
    && (forall i: nat :: i < s.size ==> CellInv(s, i))
    && (forall t: nat :: t < |s.pcs| ==> ThreadInv(s, s.pcs[t]))
    && Exclusive(s.pcs)
    && TakenInv(s)
  }
}
