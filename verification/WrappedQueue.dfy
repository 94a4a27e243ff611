/**
The queue as it is in memory, where every position is a 64-bit word that wraps round: the
steps of module MpmcQueue on words, and why they are the same steps as long as no thread has
fallen half a word behind.
*/
module WrappedQueue {
  import opened Wrappers
  import opened Powers
  import opened Slots
  import opened MachineWords
  import opened MpmcQueue
  import opened MpmcSafety

  /** Arithmetic of `size_t`. */
  function Word(n: nat): (w: nat)
    ensures w < LIMIT_64
  {
    n % LIMIT_64
  }

  /** The fields of the queue and the local variables of the threads. */
  datatype Words<T> = Words(mask: nat, cells: seq<Cell<T>>, enqPos: nat, deqPos: nat, pcs: seq<Pc<T>>)

  predicate PcFits<T>(pc: Pc<T>) {
    match pc
    case EnqLoadSeq(_, pos) => pos < LIMIT_64
    case EnqCas(_, pos) => pos < LIMIT_64
    case EnqWrite(_, pos) => pos < LIMIT_64
    case EnqPublish(_, pos) => pos < LIMIT_64
    case DeqLoadSeq(pos) => pos < LIMIT_64
    case DeqCas(pos) => pos < LIMIT_64
    case DeqRead(pos) => pos < LIMIT_64
    case DeqRelease(_, pos) => pos < LIMIT_64
    case _ => true
  }

  ghost predicate Fits<T>(w: Words<T>) {
    && |w.cells| == w.mask + 1 && w.enqPos < LIMIT_64 && w.deqPos < LIMIT_64
    && (forall i :: 0 <= i < |w.cells| ==> w.cells[i].sequence < LIMIT_64)
    && (forall t :: 0 <= t < |w.pcs| ==> PcFits(w.pcs[t]))
  }

  lemma {:induction false} AndAtMost(a: nat, b: nat)
    ensures And(a, b) <= b
  {
    if a != 0 && b != 0 {
      AndAtMost(a / 2, b / 2);
      assert (a % 2) * (b % 2) <= b % 2;
    }
  }

  /** `pos & buffer_mask_` */
  function Index<T>(w: Words<T>, pos: nat): (i: nat)
    requires |w.cells| == w.mask + 1
    ensures i < |w.cells|
  {
    AndAtMost(pos, w.mask);
    And(pos, w.mask)
  }

  function CellOf<T>(w: Words<T>, pos: nat): Cell<T>
    requires |w.cells| == w.mask + 1
  {
    w.cells[Index(w, pos)]
  }

  function GoTo<T>(w: Words<T>, t: nat, pc: Pc<T>): Words<T>
    requires t < |w.pcs|
  {
    w.(pcs := w.pcs[t := pc])
  }

  function PutCell<T>(w: Words<T>, pos: nat, c: Cell<T>): Words<T>
    requires |w.cells| == w.mask + 1
  {
    w.(cells := w.cells[Index(w, pos) := c])
  }

  /** `dif` of enqueue and of dequeue. */
  ghost function StoreDif<T>(w: Words<T>, pos: nat): int
    requires Fits(w) && pos < LIMIT_64
  {
    WrappedDif(CellOf(w, pos).sequence, pos)
  }

  ghost function TakeDif<T>(w: Words<T>, pos: nat): int
    requires Fits(w)
  {
    WrappedDif(CellOf(w, pos).sequence, Word(pos + 1))
  }

  /** Where enqueue and dequeue go once they have loaded the sequence. */
  function StoreLoaded<T>(item: T, pos: nat, dif: int): Pc<T> {
    if dif == 0 then EnqCas(item, pos) else if dif < 0 then EnqReturned(item, false) else EnqLoadPos(item)
  }

  function TakeLoaded<T>(pos: nat, dif: int): Pc<T> {
    if dif == 0 then DeqCas(pos) else if dif < 0 then DeqReturned(None) else DeqLoadPos
  }

  /** One atomic step on words: see MpmcQueue.Step. */
  ghost function WordStep<T>(w: Words<T>, t: nat, spurious: bool): Words<T>
    requires Fits(w) && t < |w.pcs| && !w.pcs[t].AtRest()
  {
    assert PcFits(w.pcs[t]);
    match w.pcs[t]
    case EnqLoadPos(item) => GoTo(w, t, EnqLoadSeq(item, w.enqPos))
    case EnqLoadSeq(item, pos) =>
      GoTo(w, t, StoreLoaded(item, pos, StoreDif(w, pos)))
    case EnqCas(item, pos) =>
      if w.enqPos == pos && !spurious then GoTo(w, t, EnqWrite(item, pos)).(enqPos := Word(pos + 1))
      else GoTo(w, t, EnqLoadSeq(item, w.enqPos))
    case EnqWrite(item, pos) =>
      GoTo(PutCell(w, pos, Cell(CellOf(w, pos).sequence, Some(item))), t, EnqPublish(item, pos))
    case EnqPublish(item, pos) =>
      GoTo(PutCell(w, pos, Cell(Word(pos + 1), CellOf(w, pos).data)), t, EnqReturned(item, true))
    case DeqLoadPos => GoTo(w, t, DeqLoadSeq(w.deqPos))
    case DeqLoadSeq(pos) =>
      GoTo(w, t, TakeLoaded(pos, TakeDif(w, pos)))
    case DeqCas(pos) =>
      if w.deqPos == pos && !spurious then GoTo(w, t, DeqRead(pos)).(deqPos := Word(pos + 1))
      else GoTo(w, t, DeqLoadSeq(w.deqPos))
    case DeqRead(pos) =>
      (match CellOf(w, pos).data
       case None => w
       case Some(v) => GoTo(PutCell(w, pos, Cell(CellOf(w, pos).sequence, None)), t, DeqRelease(v, pos)))
    case DeqRelease(v, pos) =>
      GoTo(PutCell(w, pos, Cell(Word(pos + w.mask + 1), CellOf(w, pos).data)), t, DeqReturned(Some(v)))
  }

  // ----- From unbounded positions to words -----

  function WrapPc<T>(pc: Pc<T>): (wrapped: Pc<T>)
    ensures PcFits(wrapped) && (wrapped.AtRest() <==> pc.AtRest()) && (pc.AtRest() ==> wrapped == pc)
  {
    match pc
    case EnqLoadSeq(item, pos) => EnqLoadSeq(item, Word(pos))
    case EnqCas(item, pos) => EnqCas(item, Word(pos))
    case EnqWrite(item, pos) => EnqWrite(item, Word(pos))
    case EnqPublish(item, pos) => EnqPublish(item, Word(pos))
    case DeqLoadSeq(pos) => DeqLoadSeq(Word(pos))
    case DeqCas(pos) => DeqCas(Word(pos))
    case DeqRead(pos) => DeqRead(Word(pos))
    case DeqRelease(v, pos) => DeqRelease(v, Word(pos))
    case _ => pc
  }

  function WrapCell<T>(c: Cell<T>): Cell<T> {
    Cell(Word(c.sequence), c.data)
  }

  function WrapCells<T>(cells: seq<Cell<T>>): (wrapped: seq<Cell<T>>)
    ensures |wrapped| == |cells| && forall i :: 0 <= i < |cells| ==> wrapped[i] == WrapCell(cells[i])
  {
    seq(|cells|, i requires 0 <= i < |cells| => WrapCell(cells[i]))
  }

  function WrapPcs<T>(pcs: seq<Pc<T>>): (wrapped: seq<Pc<T>>)
    ensures |wrapped| == |pcs| && forall t :: 0 <= t < |pcs| ==> wrapped[t] == WrapPc(pcs[t])
  {
    seq(|pcs|, t requires 0 <= t < |pcs| => WrapPc(pcs[t]))
  }

  function Wrap<T>(s: State<T>): (w: Words<T>)
    requires s.WellFormed()
    ensures Fits(w)
  {
    Words(s.size - 1, WrapCells(s.cells), Word(s.enqPos), Word(s.deqPos), WrapPcs(s.pcs))
  }

  /** The position that the thread has loaded is less than half a word, and a lap, behind. */
  predicate Near<T>(s: State<T>, pc: Pc<T>) {
    match pc
    case EnqLoadSeq(_, pos) => s.enqPos - pos + s.size < HALF_WORD
    case EnqCas(_, pos) => s.enqPos - pos + s.size < HALF_WORD
    case DeqLoadSeq(pos) => s.deqPos - pos + s.size < HALF_WORD
    case DeqCas(pos) => s.deqPos - pos + s.size < HALF_WORD
    case _ => true
  }

  lemma WordOfSum(n: nat, d: nat)
    ensures Word(Word(n) + d) == Word(n + d)
  {
    assert n + d == Word(n) + d + n / LIMIT_64 * LIMIT_64;
  }

  /** A compare-and-swap on words compares the positions. */
  lemma SameWord(a: nat, b: nat)
    requires -LIMIT_64 < a - b < LIMIT_64
    ensures Word(a) == Word(b) <==> a == b
  {
  }

  /** The sequence of any cell is within a lap or so of both ends. */
  lemma SequenceWindow<T>(s: State<T>, i: nat)
    requires Inv(s) && i < s.size
    ensures var q := s.cells[i].sequence;
            && s.enqPos - s.size <= q < s.enqPos + s.size
            && s.deqPos - s.size < q <= s.deqPos + s.size
  {
    assert CellInv(s, i);
  }

  lemma CellWraps<T>(s: State<T>, pos: nat, k: nat)
    requires s.WellFormed() && s.size == Pow2(k) && k <= 64
    ensures Index(Wrap(s), Word(pos)) == Slot(pos, s.size)
    ensures CellOf(Wrap(s), Word(pos)) == WrapCell(s.CellAt(pos))
  {
    WrappedMaskPicksSlot(pos, k);
  }

  lemma GoToWraps<T>(s: State<T>, t: nat, pc: Pc<T>)
    requires s.WellFormed() && t < |s.pcs|
    ensures Wrap(SetPc(s, t, pc)) == GoTo(Wrap(s), t, WrapPc(pc))
  {
  }

  lemma PutWraps<T>(s: State<T>, pos: nat, c: Cell<T>, t: nat, pc: Pc<T>, k: nat)
    requires s.WellFormed() && s.size == Pow2(k) && k <= 64 && t < |s.pcs|
    ensures Wrap(SetPc(SetCell(s, pos, c), t, pc)) == GoTo(PutCell(Wrap(s), Word(pos), WrapCell(c)), t, WrapPc(pc))
  {
    CellWraps(s, pos, k);
    var s' := SetPc(SetCell(s, pos, c), t, pc);
    assert WrapCells(s'.cells) == WrapCells(s.cells)[Slot(pos, s.size) := WrapCell(c)];
    assert WrapPcs(s'.pcs) == WrapPcs(s.pcs)[t := WrapPc(pc)];
  }

  // ----- The same steps -----

  lemma EnqueueWindow<T>(s: State<T>, t: nat)
    requires Inv(s) && t < |s.pcs| && s.pcs[t].EnqLoadSeq? && Near(s, s.pcs[t])
    ensures -HALF_WORD <= s.CellAt(s.pcs[t].pos).sequence - s.pcs[t].pos < HALF_WORD
  {
    assert ThreadInv(s, s.pcs[t]);
    SequenceWindow(s, Slot(s.pcs[t].pos, s.size));
  }

  lemma DequeueWindow<T>(s: State<T>, t: nat)
    requires Inv(s) && t < |s.pcs| && s.pcs[t].DeqLoadSeq? && Near(s, s.pcs[t])
    ensures -HALF_WORD <= s.CellAt(s.pcs[t].pos).sequence - (s.pcs[t].pos + 1) < HALF_WORD
  {
    assert ThreadInv(s, s.pcs[t]);
    SequenceWindow(s, Slot(s.pcs[t].pos, s.size));
  }

  /** The signed difference of the words, from the positions behind them. */
  lemma StoreDifWraps<T>(s: State<T>, pos: nat, k: nat)
    requires s.WellFormed() && s.size == Pow2(k) && k <= 64
    requires -HALF_WORD <= s.CellAt(pos).sequence - pos < HALF_WORD
    ensures StoreDif(Wrap(s), Word(pos)) == s.CellAt(pos).sequence - pos
  {
    CellWraps(s, pos, k);
    WrappedDifIsDif(s.CellAt(pos).sequence, pos);
  }

  lemma TakeDifWraps<T>(s: State<T>, pos: nat, k: nat)
    requires s.WellFormed() && s.size == Pow2(k) && k <= 64
    requires -HALF_WORD <= s.CellAt(pos).sequence - (pos + 1) < HALF_WORD
    ensures TakeDif(Wrap(s), Word(pos)) == s.CellAt(pos).sequence - (pos + 1)
  {
    CellWraps(s, pos, k);
    WordOfSum(pos, 1);
    WrappedDifIsDif(s.CellAt(pos).sequence, pos + 1);
  }

  lemma EnqueueLoadWraps<T>(s: State<T>, t: nat, dif: int)
    requires s.WellFormed() && t < |s.pcs| && s.pcs[t].EnqLoadSeq?
    requires dif == s.CellAt(s.pcs[t].pos).sequence - s.pcs[t].pos == StoreDif(Wrap(s), Word(s.pcs[t].pos))
    ensures Wrap(Step(s, t, false)) == WordStep(Wrap(s), t, false)
  {
    var item, pos := s.pcs[t].item, s.pcs[t].pos;
    assert WrapPc(StoreLoaded(item, pos, dif)) == StoreLoaded(item, Word(pos), dif);
    GoToWraps(s, t, StoreLoaded(item, pos, dif));
  }

  lemma DequeueLoadWraps<T>(s: State<T>, t: nat, dif: int)
    requires s.WellFormed() && t < |s.pcs| && s.pcs[t].DeqLoadSeq?
    requires dif == s.CellAt(s.pcs[t].pos).sequence - (s.pcs[t].pos + 1) == TakeDif(Wrap(s), Word(s.pcs[t].pos))
    ensures Wrap(Step(s, t, false)) == WordStep(Wrap(s), t, false)
  {
    var pos := s.pcs[t].pos;
    assert WrapPc<T>(TakeLoaded(pos, dif)) == TakeLoaded(Word(pos), dif);
    GoToWraps(s, t, TakeLoaded(pos, dif));
  }

  lemma EnqueueCasWraps<T>(s: State<T>, t: nat, spurious: bool)
    requires s.WellFormed() && t < |s.pcs| && s.pcs[t].EnqCas? && -LIMIT_64 < s.pcs[t].pos - s.enqPos < LIMIT_64
    ensures Wrap(Step(s, t, spurious)) == WordStep(Wrap(s), t, spurious)
  {
    var pos := s.pcs[t].pos;
    SameWord(pos, s.enqPos);
    WordOfSum(pos, 1);
    GoToWraps(s, t, Step(s, t, spurious).pcs[t]);
  }

  lemma DequeueCasWraps<T>(s: State<T>, t: nat, spurious: bool)
    requires s.WellFormed() && t < |s.pcs| && s.pcs[t].DeqCas? && -LIMIT_64 < s.pcs[t].pos - s.deqPos < LIMIT_64
    ensures Wrap(Step(s, t, spurious)) == WordStep(Wrap(s), t, spurious)
  {
    var pos := s.pcs[t].pos;
    SameWord(pos, s.deqPos);
    WordOfSum(pos, 1);
    GoToWraps(s, t, Step(s, t, spurious).pcs[t]);
  }

  /** The steps between a claim and the return need no distance. */
  lemma WriterWraps<T>(s: State<T>, t: nat, k: nat)
    requires s.WellFormed() && s.size == Pow2(k) && k <= 64 && t < |s.pcs| && s.pcs[t].EnqWrite?
    ensures Wrap(Step(s, t, false)) == WordStep(Wrap(s), t, false)
  {
    var item, pos, c := s.pcs[t].item, s.pcs[t].pos, s.CellAt(s.pcs[t].pos);
    CellWraps(s, pos, k);
    PutWraps(s, pos, Cell(c.sequence, Some(item)), t, EnqPublish(item, pos), k);
  }

  lemma PublisherWraps<T>(s: State<T>, t: nat, k: nat)
    requires s.WellFormed() && s.size == Pow2(k) && k <= 64 && t < |s.pcs| && s.pcs[t].EnqPublish?
    ensures Wrap(Step(s, t, false)) == WordStep(Wrap(s), t, false)
  {
    var item, pos, c := s.pcs[t].item, s.pcs[t].pos, s.CellAt(s.pcs[t].pos);
    CellWraps(s, pos, k);
    WordOfSum(pos, 1);
    PutWraps(s, pos, Cell(pos + 1, c.data), t, EnqReturned(item, true), k);
  }

  lemma ReaderWraps<T>(s: State<T>, t: nat, k: nat)
    requires s.WellFormed() && s.size == Pow2(k) && k <= 64 && t < |s.pcs| && s.pcs[t].DeqRead?
    ensures Wrap(Step(s, t, false)) == WordStep(Wrap(s), t, false)
  {
    var pos, c := s.pcs[t].pos, s.CellAt(s.pcs[t].pos);
    CellWraps(s, pos, k);
    if c.data.Some? {
      PutWraps(s, pos, Cell(c.sequence, None), t, DeqRelease(c.data.value, pos), k);
    }
  }

  lemma ReleaserWraps<T>(s: State<T>, t: nat, k: nat)
    requires s.WellFormed() && s.size == Pow2(k) && k <= 64 && t < |s.pcs| && s.pcs[t].DeqRelease?
    ensures Wrap(Step(s, t, false)) == WordStep(Wrap(s), t, false)
  {
    var v, pos, c := s.pcs[t].value, s.pcs[t].pos, s.CellAt(s.pcs[t].pos);
    CellWraps(s, pos, k);
    WordOfSum(pos, s.size);
    PutWraps(s, pos, Cell(pos + s.size, c.data), t, DeqReturned(Some(v)), k);
  }

  /** A step on words is the step on unbounded positions, if the thread is not half a word behind. */
  lemma StepWraps<T>(s: State<T>, t: nat, spurious: bool, k: nat)
    requires Inv(s) && s.size == Pow2(k) && k <= 64
    requires t < |s.pcs| && !s.pcs[t].AtRest() && Near(s, s.pcs[t])
    ensures Wrap(Step(s, t, spurious)) == WordStep(Wrap(s), t, spurious)
  {
    assert ThreadInv(s, s.pcs[t]);
    match s.pcs[t]
    case EnqLoadPos(item) => GoToWraps(s, t, EnqLoadSeq(item, s.enqPos));
    case DeqLoadPos => GoToWraps(s, t, DeqLoadSeq(s.deqPos));
    case EnqLoadSeq(_, _) =>
      EnqueueWindow(s, t);
      StoreDifWraps(s, s.pcs[t].pos, k);
      EnqueueLoadWraps(s, t, s.CellAt(s.pcs[t].pos).sequence - s.pcs[t].pos);
    case DeqLoadSeq(_) =>
      DequeueWindow(s, t);
      TakeDifWraps(s, s.pcs[t].pos, k);
      DequeueLoadWraps(s, t, s.CellAt(s.pcs[t].pos).sequence - (s.pcs[t].pos + 1));
    case EnqCas(_, _) => EnqueueCasWraps(s, t, spurious);
    case DeqCas(_) => DequeueCasWraps(s, t, spurious);
    case EnqWrite(_, _) => WriterWraps(s, t, k);
    case EnqPublish(_, _) => PublisherWraps(s, t, k);
    case DeqRead(_) => ReaderWraps(s, t, k);
    case DeqRelease(_, _) => ReleaserWraps(s, t, k);
  }

  // ----- The same runs -----

  /** What a thread does next. */
  datatype Action<T> = Enqueue(item: T) | Dequeue | Move(spurious: bool)

  predicate Enabled<T>(pcs: seq<Pc<T>>, t: nat, a: Action<T>) {
    t < |pcs| && (a.Move? <==> !pcs[t].AtRest())
  }

  function Act<T>(s: State<T>, t: nat, a: Action<T>): State<T>
    requires s.WellFormed() && Enabled(s.pcs, t, a)
  {
    match a
    case Enqueue(item) => CallEnqueue(s, t, item)
    case Dequeue => CallDequeue(s, t)
    case Move(spurious) => Step(s, t, spurious)
  }

  ghost function WordAct<T>(w: Words<T>, t: nat, a: Action<T>): Words<T>
    requires Fits(w) && Enabled(w.pcs, t, a)
  {
    match a
    case Enqueue(item) => GoTo(w, t, EnqLoadPos(item))
    case Dequeue => GoTo(w, t, DeqLoadPos)
    case Move(spurious) => WordStep(w, t, spurious)
  }

  type Schedule<T> = seq<(nat, Action<T>)>

  ghost predicate StateRun<T(!new)>(states: seq<State<T>>, schedule: Schedule<T>) {
    && Run(states) && |states| == |schedule| + 1
    && forall k :: 0 <= k < |schedule| ==>
         && states[k].WellFormed() && Enabled(states[k].pcs, schedule[k].0, schedule[k].1)
         && states[k + 1] == Act(states[k], schedule[k].0, schedule[k].1)
  }

  ghost predicate WordRun<T>(words: seq<Words<T>>, schedule: Schedule<T>) {
    && |words| == |schedule| + 1
    && forall k :: 0 <= k < |schedule| ==>
         && Fits(words[k]) && Enabled(words[k].pcs, schedule[k].0, schedule[k].1)
         && words[k + 1] == WordAct(words[k], schedule[k].0, schedule[k].1)
  }

  /** No thread that moves is half a word behind. */
  ghost predicate NearRun<T>(states: seq<State<T>>, schedule: Schedule<T>) {
    && |states| == |schedule| + 1
    && forall k :: 0 <= k < |schedule| ==>
         schedule[k].0 < |states[k].pcs| && Near(states[k], states[k].pcs[schedule[k].0])
  }

  lemma ActWraps<T>(s: State<T>, t: nat, a: Action<T>, k: nat)
    requires Inv(s) && s.size == Pow2(k) && k <= 64 && Enabled(s.pcs, t, a) && Near(s, s.pcs[t])
    ensures Enabled(Wrap(s).pcs, t, a) && Act(s, t, a).WellFormed() && Act(s, t, a).size == s.size
    ensures Wrap(Act(s, t, a)) == WordAct(Wrap(s), t, a)
  {
    match a
    case Enqueue(item) => GoToWraps(s, t, EnqLoadPos(item));
    case Dequeue => GoToWraps(s, t, DeqLoadPos);
    case Move(spurious) => StepWraps(s, t, spurious, k);
  }

  lemma NextOfRuns<T(!new)>(states: seq<State<T>>, words: seq<Words<T>>, schedule: Schedule<T>, i: nat)
    requires StateRun(states, schedule) && WordRun(words, schedule) && NearRun(states, schedule) && i < |schedule|
    ensures var (t, a) := schedule[i];
            && states[i].WellFormed() && Enabled(states[i].pcs, t, a) && Near(states[i], states[i].pcs[t])
            && states[i + 1] == Act(states[i], t, a)
            && Fits(words[i]) && Enabled(words[i].pcs, t, a) && words[i + 1] == WordAct(words[i], t, a)
  {
  }

  /**
  Starting together and following the same schedule, the queue on words and the queue on
  unbounded positions stay the same queue: every claim, every failure and every value moved.
  */
  lemma {:induction false} RunWraps<T(!new)>(states: seq<State<T>>, words: seq<Words<T>>, schedule: Schedule<T>,
                                            k: nat, n: nat)
    requires StateRun(states, schedule) && WordRun(words, schedule) && NearRun(states, schedule)
    requires states[0].size == Pow2(k) && k <= 64 && words[0] == Wrap(states[0]) && n < |states|
    ensures states[n].WellFormed() && states[n].size == states[0].size && words[n] == Wrap(states[n])
  {
    if n > 0 {
      RunWraps(states, words, schedule, k, n - 1);
      RunInv(states, n - 1);
      NextOfRuns(states, words, schedule, n - 1);
      ActWraps(states[n - 1], schedule[n - 1].0, schedule[n - 1].1, k);
    }
  }
}
