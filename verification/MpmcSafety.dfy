/**
Safety of the bounded queue over every interleaving: each step keeps the invariant of
module MpmcQueue, and the invariant gives exclusive access to the cells, bounded occupancy,
and first-in first-out delivery in claim order.
*/
module MpmcSafety {
  import opened Slots
  import opened MpmcQueue

  lemma InitInv<T>(size: nat, threads: nat)
    requires size >= 2
    ensures Inv(Init<T>(size, threads))
  {
    var s := Init<T>(size, threads);
    forall i: nat | i < size ensures CellInv(s, i) {
      assert FreeInv(s, i);
    }
  }

  // ----- Frames -----

  /** A thread that moves leaves the holders of a position in place, unless it was one. */
  lemma HoldersKept<T>(pcs: seq<Pc<T>>, t: nat, pc: Pc<T>, p: nat)
    requires t < |pcs|
    ensures HasStorer(pcs, p) && (pcs[t].Storing(p) ==> pc.Storing(p)) ==> HasStorer(pcs[t := pc], p)
    ensures HasTaker(pcs, p) && (pcs[t].Taking(p) ==> pc.Taking(p)) ==> HasTaker(pcs[t := pc], p)
    ensures HasReader(pcs, p) && pcs[t] != DeqRead(p) ==> HasReader(pcs[t := pc], p)
  {
    var pcs' := pcs[t := pc];
    if u :| 0 <= u < |pcs| && pcs[u].Storing(p) {
      assert u != t ==> pcs'[u].Storing(p);
      assert pc.Storing(p) ==> pcs'[t].Storing(p);
    }
    if u :| 0 <= u < |pcs| && pcs[u].Taking(p) {
      assert u != t ==> pcs'[u].Taking(p);
      assert pc.Taking(p) ==> pcs'[t].Taking(p);
    }
    if u :| 0 <= u < |pcs| && pcs[u] == DeqRead(p) {
      assert u != t ==> pcs'[u] == DeqRead(p);
    }
  }

  /** A cell that a step of thread `t` does not touch keeps its phase. */
  lemma CellKept<T>(s: State<T>, s': State<T>, t: nat, i: nat)
    requires s.WellFormed() && |s.enqueued| == s.enqPos && t < |s.pcs| && i < s.size
    requires CellInv(s, i)
    requires s'.WellFormed() && |s'.enqueued| == s'.enqPos && s.size == s'.size
    requires |s'.pcs| == |s.pcs| && s'.pcs == s.pcs[t := s'.pcs[t]]
    requires s'.cells[i] == s.cells[i] && s.enqPos == s'.enqPos && s.deqPos == s'.deqPos
    requires s.enqueued == s'.enqueued
    requires var q := s.cells[i].sequence;
             && (Slot(q, s.size) == i && s.pcs[t].Storing(q) ==> s'.pcs[t].Storing(q))
             && (q >= 1 && Slot(q - 1, s.size) == i && s.pcs[t].Taking(q - 1) ==> s'.pcs[t].Taking(q - 1))
    ensures CellInv(s', i)
  {
    var q := s.cells[i].sequence;
    HoldersKept(s.pcs, t, s'.pcs[t], q);
    if FreeInv(s, i) {
      assert FreeInv(s', i);
    } else {
      HoldersKept(s.pcs, t, s'.pcs[t], q - 1);
      assert FullInv(s', i);
    }
  }

  /** Untaken positions keep their readers when thread `t`, not one of them, moves. */
  lemma ReadersKept<T>(s: State<T>, t: nat, pc: Pc<T>)
    requires t < |s.pcs| && |s.enqueued| == s.enqPos && s.deqPos <= s.enqPos && TakenInv(s)
    requires !s.pcs[t].DeqRead?
    ensures forall p: nat :: p < s.deqPos && p !in s.taken ==> HasReader(s.pcs[t := pc], p)
  {
    forall p: nat | p < s.deqPos && p !in s.taken ensures HasReader(s.pcs[t := pc], p) {
      HoldersKept(s.pcs, t, pc, p);
    }
  }

  /** A step that only moves a thread, which holds no cell before or after. */
  lemma MoveInv<T>(s: State<T>, t: nat, pc: Pc<T>)
    requires Inv(s) && t < |s.pcs| && !s.pcs[t].Holds()
    requires !pc.Holds() && ThreadInv(s, pc)
    ensures Inv(SetPc(s, t, pc))
  {
    var s' := SetPc(s, t, pc);
    forall i: nat | i < s.size ensures CellInv(s', i) {
      CellKept(s, s', t, i);
    }
    ReadersKept(s, t, pc);
  }

  /** Threads that hold a cell hold different cells, so no two ever touch the same `data_`. */
  lemma CellsApart<T>(s: State<T>, t: nat, u: nat)
    requires Inv(s) && t < |s.pcs| && u < |s.pcs| && t != u
    requires s.pcs[t].Holds() && s.pcs[u].Holds()
    ensures Slot(s.pcs[t].pos, s.size) != Slot(s.pcs[u].pos, s.size)
  {
    assert ThreadInv(s, s.pcs[t]) && ThreadInv(s, s.pcs[u]);
    assert !SameClaim(s.pcs[if t < u then t else u], s.pcs[if t < u then u else t]);
    NeighboursApart(s.pcs[t].pos, s.size);
    NeighboursApart(s.pcs[u].pos, s.size);
  }

  /** The phase of the cell of a held position. */
  lemma HeldCell<T>(s: State<T>, pos: nat)
    requires Inv(s)
    ensures s.CellAt(pos).sequence == pos ==> FreeInv(s, Slot(pos, s.size))
    ensures s.CellAt(pos).sequence == pos + 1 ==> FullInv(s, Slot(pos, s.size))
  {
    assert CellInv(s, Slot(pos, s.size));
    NeighboursApart(pos, s.size);
    if pos >= 1 {
      NeighboursApart(pos - 1, s.size);
    }
  }

  // ----- The two claims -----

  lemma EnqClaimFree<T>(s: State<T>, t: nat, i: nat)
    requires Inv(s) && t < |s.pcs| && s.pcs[t].EnqCas? && s.pcs[t].pos == s.enqPos && i < s.size && FreeInv(s, i)
    ensures FreeInv(Step(s, t, false), i)
  {
    var s', pos, q := Step(s, t, false), s.enqPos, s.cells[i].sequence;
    assert ThreadInv(s, s.pcs[t]);
    HoldersKept(s.pcs, t, s'.pcs[t], q);
    NextLapSameSlot(q, s.size);
    assert q == pos ==> s'.pcs[t].Storing(q);
  }

  lemma EnqClaimFull<T>(s: State<T>, t: nat, i: nat)
    requires Inv(s) && t < |s.pcs| && s.pcs[t].EnqCas? && s.pcs[t].pos == s.enqPos && i < s.size && FullInv(s, i)
    ensures FullInv(Step(s, t, false), i)
  {
    var s', q := Step(s, t, false), s.cells[i].sequence;
    assert ThreadInv(s, s.pcs[t]);
    NextLapSameSlot(q - 1, s.size);
    HoldersKept(s.pcs, t, s'.pcs[t], q - 1);
  }

  lemma EnqClaimCell<T>(s: State<T>, t: nat, i: nat)
    requires Inv(s) && t < |s.pcs| && s.pcs[t].EnqCas? && s.pcs[t].pos == s.enqPos && i < s.size
    ensures CellInv(Step(s, t, false), i)
  {
    assert CellInv(s, i);
    if FreeInv(s, i) {
      EnqClaimFree(s, t, i);
    } else {
      EnqClaimFull(s, t, i);
    }
  }

  lemma EnqClaimInv<T>(s: State<T>, t: nat)
    requires Inv(s) && t < |s.pcs| && s.pcs[t].EnqCas? && s.pcs[t].pos == s.enqPos
    ensures Inv(Step(s, t, false))
  {
    var s', pos := Step(s, t, false), s.enqPos;
    assert ThreadInv(s, s.pcs[t]);
    HeldCell(s, pos);
    forall i: nat | i < s.size ensures CellInv(s', i) {
      EnqClaimCell(s, t, i);
    }
    forall u: nat | u < |s.pcs| ensures ThreadInv(s', s'.pcs[u]) {
      assert ThreadInv(s, s.pcs[u]);
    }
    assert Exclusive(s'.pcs) by {
      forall u: nat | u < |s.pcs| ensures !s.pcs[u].Storing(pos) {
        assert ThreadInv(s, s.pcs[u]);
      }
    }
    ReadersKept(s, t, s'.pcs[t]);
  }

  lemma DeqClaimCell<T>(s: State<T>, t: nat, i: nat)
    requires Inv(s) && t < |s.pcs| && s.pcs[t].DeqCas? && s.pcs[t].pos == s.deqPos && i < s.size
    requires s.deqPos < s.enqPos
    ensures CellInv(Step(s, t, false), i)
  {
    var s', pos, q := Step(s, t, false), s.deqPos, s.cells[i].sequence;
    assert ThreadInv(s, s.pcs[t]) && CellInv(s, i);
    HoldersKept(s.pcs, t, s'.pcs[t], q);
    if FreeInv(s, i) {
      assert FreeInv(s', i);
    } else {
      HoldersKept(s.pcs, t, s'.pcs[t], q - 1);
      assert q - 1 == pos ==> s'.pcs[t].Taking(q - 1);
      assert FullInv(s', i);
    }
  }

  lemma DeqClaimInv<T>(s: State<T>, t: nat)
    requires Inv(s) && t < |s.pcs| && s.pcs[t].DeqCas? && s.pcs[t].pos == s.deqPos
    ensures Inv(Step(s, t, false))
  {
    var s', pos := Step(s, t, false), s.deqPos;
    assert ThreadInv(s, s.pcs[t]);
    HeldCell(s, pos);
    forall i: nat | i < s.size ensures CellInv(s', i) {
      DeqClaimCell(s, t, i);
    }
    forall u: nat | u < |s.pcs| ensures ThreadInv(s', s'.pcs[u]) {
      assert ThreadInv(s, s.pcs[u]);
    }
    assert Exclusive(s'.pcs) by {
      forall u: nat | u < |s.pcs| ensures !s.pcs[u].Taking(pos) {
        assert ThreadInv(s, s.pcs[u]);
      }
    }
    ReadersKept(s, t, s'.pcs[t]);
    assert s'.pcs[t] == DeqRead(pos);
  }

  // ----- Steps of a thread that holds a cell -----

  lemma HoldersKeep<T>(s: State<T>, t: nat, u: nat)
    requires Inv(s) && t < |s.pcs| && u < |s.pcs| && t != u
    requires s.pcs[t].Holds() && s.pcs[u].Holds()
    ensures ThreadInv(Step(s, t, false), s.pcs[u])
  {
    assert ThreadInv(s, s.pcs[t]) && ThreadInv(s, s.pcs[u]);
    CellsApart(s, t, u);
  }

  lemma ClaimersKeep<T>(s: State<T>, t: nat, u: nat)
    requires Inv(s) && t < |s.pcs| && u < |s.pcs| && t != u
    requires s.pcs[t].Holds() && (s.pcs[u].EnqCas? || s.pcs[u].DeqCas?)
    ensures ThreadInv(Step(s, t, false), s.pcs[u])
  {
    assert ThreadInv(s, s.pcs[t]) && ThreadInv(s, s.pcs[u]);
    NeighboursApart(s.pcs[t].pos, s.size);
    NeighboursApart(s.pcs[u].pos, s.size);
  }

  /** What the other threads rely on survives a change to the cell that thread `t` holds. */
  lemma OthersKeep<T>(s: State<T>, t: nat, u: nat)
    requires Inv(s) && t < |s.pcs| && u < |s.pcs| && t != u
    requires s.pcs[t].Holds()
    ensures ThreadInv(Step(s, t, false), s.pcs[u])
  {
    assert ThreadInv(s, s.pcs[t]) && ThreadInv(s, s.pcs[u]);
    if s.pcs[u].Holds() {
      HoldersKeep(s, t, u);
    } else if s.pcs[u].EnqCas? || s.pcs[u].DeqCas? {
      ClaimersKeep(s, t, u);
    }
  }

  /** The cell that thread `t` holds, after its step. */
  lemma OwnCellKeeps<T>(s: State<T>, t: nat)
    requires Inv(s) && t < |s.pcs| && s.pcs[t].Holds()
    ensures CellInv(Step(s, t, false), Slot(s.pcs[t].pos, s.size))
  {
    var s', pos := Step(s, t, false), s.pcs[t].pos;
    var i := Slot(pos, s.size);
    assert ThreadInv(s, s.pcs[t]);
    HeldCell(s, pos);
    match s.pcs[t]
    case EnqWrite(item, _) =>
      assert s'.pcs[t].Storing(pos) && FreeInv(s', i);
    case EnqPublish(item, _) =>
      assert FullInv(s', i);
    case DeqRead(_) =>
      assert s'.pcs[t].Taking(pos) && FullInv(s', i);
    case DeqRelease(v, _) =>
      NextLapSameSlot(pos, s.size);
      assert FreeInv(s', i);
  }

  /** The step of a holder touches its own cell only and stays exclusive. */
  lemma HolderStep<T>(s: State<T>, t: nat)
    requires Inv(s) && t < |s.pcs| && s.pcs[t].Holds()
    ensures var s', pos := Step(s, t, false), s.pcs[t].pos;
            && s'.WellFormed() && s'.size == s.size && s'.enqPos == s.enqPos && s'.deqPos == s.deqPos
            && s'.enqueued == s.enqueued
            && |s'.pcs| == |s.pcs| && s'.pcs == s.pcs[t := s'.pcs[t]]
            && (forall i: nat :: i < s.size && i != Slot(pos, s.size) ==> s'.cells[i] == s.cells[i])
            && ThreadInv(s', s'.pcs[t])
            && Exclusive(s'.pcs)
            && (forall p: nat :: s.pcs[t].Storing(p) ==> p == pos)
            && (forall p: nat :: s.pcs[t].Taking(p) ==> p == pos)
            && s'.taken == (if s.pcs[t].DeqRead? then s.taken[pos := s.enqueued[pos]] else s.taken)
  {
    assert ThreadInv(s, s.pcs[t]);
  }

  lemma HolderCells<T>(s: State<T>, t: nat, i: nat)
    requires Inv(s) && t < |s.pcs| && s.pcs[t].Holds() && i < s.size
    ensures CellInv(Step(s, t, false), i)
  {
    if i == Slot(s.pcs[t].pos, s.size) {
      OwnCellKeeps(s, t);
    } else {
      HolderStep(s, t);
      assert CellInv(s, i);
      CellKept(s, Step(s, t, false), t, i);
    }
  }

  lemma HolderInv<T>(s: State<T>, t: nat)
    requires Inv(s) && t < |s.pcs| && s.pcs[t].Holds()
    ensures Inv(Step(s, t, false))
  {
    var s', pos := Step(s, t, false), s.pcs[t].pos;
    assert ThreadInv(s, s.pcs[t]);
    HolderStep(s, t);
    forall i: nat | i < s.size ensures CellInv(s', i) {
      HolderCells(s, t, i);
    }
    forall u: nat | u < |s.pcs| ensures ThreadInv(s', s'.pcs[u]) {
      if u != t {
        OthersKeep(s, t, u);
      }
    }
    forall p: nat | p < s'.deqPos && p !in s'.taken ensures HasReader(s'.pcs, p) {
      HoldersKept(s.pcs, t, s'.pcs[t], p);
    }
  }

  /** Which steps change more than the moving thread's own program counter. */
  predicate Claims<T>(s: State<T>, t: nat, spurious: bool)
    requires t < |s.pcs|
  {
    !spurious && ((s.pcs[t].EnqCas? && s.pcs[t].pos == s.enqPos) || (s.pcs[t].DeqCas? && s.pcs[t].pos == s.deqPos))
  }

  lemma LocalStep<T>(s: State<T>, t: nat, spurious: bool)
    requires Inv(s) && t < |s.pcs| && !s.pcs[t].AtRest()
    requires !s.pcs[t].Holds() && !Claims(s, t, spurious)
    ensures var s' := Step(s, t, spurious);
            |s'.pcs| == |s.pcs| && s' == SetPc(s, t, s'.pcs[t]) && !s'.pcs[t].Holds() && ThreadInv(s, s'.pcs[t])
  {
    assert ThreadInv(s, s.pcs[t]);
  }

  /** Every step of every thread, spurious or not, keeps the invariant. */
  lemma StepInv<T>(s: State<T>, t: nat, spurious: bool)
    requires Inv(s) && t < |s.pcs| && !s.pcs[t].AtRest()
    ensures Inv(Step(s, t, spurious))
  {
    if s.pcs[t].Holds() {
      HolderInv(s, t);
    } else if !Claims(s, t, spurious) {
      LocalStep(s, t, spurious);
      MoveInv(s, t, Step(s, t, spurious).pcs[t]);
    } else if s.pcs[t].EnqCas? {
      EnqClaimInv(s, t);
    } else {
      DeqClaimInv(s, t);
    }
  }

  lemma NextInv<T(!new)>(s: State<T>, s': State<T>)
    requires Inv(s) && Next(s, s')
    ensures Inv(s')
  {
    var t: nat :| t < |s.pcs| && NextBy(s, s', t);
    if s.pcs[t].AtRest() {
      MoveInv(s, t, s'.pcs[t]);
      assert s' == SetPc(s, t, s'.pcs[t]);
    } else {
      StepInv(s, t, false);
      StepInv(s, t, true);
    }
  }

  /** A run: consecutive states of any interleaving from an empty queue. */
  ghost predicate Run<T(!new)>(states: seq<State<T>>)
  {
    && |states| > 0
    && states[0].size >= 2
    && states[0] == Init(states[0].size, |states[0].pcs|)
    && (forall k: nat :: k + 1 < |states| ==> states[k].WellFormed() && Next(states[k], states[k + 1]))
  }

  lemma {:induction false} RunInv<T(!new)>(states: seq<State<T>>, k: nat)
    requires Run(states) && k < |states|
    ensures Inv(states[k])
  {
    if k == 0 {
      InitInv<T>(states[0].size, |states[0].pcs|);
    } else {
      RunInv(states, k - 1);
      assert k - 1 + 1 < |states|;
      NextInv(states[k - 1], states[k]);
    }
  }
}
