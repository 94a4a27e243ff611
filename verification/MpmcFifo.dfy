/**
What callers of the bounded queue observe over every interleaving: first-in first-out
delivery in claim order, and the exact meaning of a call that returns false.
*/
module MpmcFifo {
  import opened Wrappers
  import opened Slots
  import opened MpmcQueue
  import opened MpmcSafety

  /** The abstract queue: items whose positions are claimed for storing but not for taking. */
  function Contents<T>(s: State<T>): seq<T>
    requires s.deqPos <= |s.enqueued|
  {
    s.enqueued[s.deqPos..]
  }

  /** The effect of a step on a bounded first-in first-out queue. */
  datatype Effect<T> = Nothing | Put(item: T) | Take(item: T)

  function EffectOf<T>(s: State<T>, t: nat, spurious: bool): Effect<T>
    requires t < |s.pcs| && s.deqPos <= |s.enqueued|
  {
    match s.pcs[t]
    case EnqCas(item, pos) => if s.enqPos == pos && !spurious then Put(item) else Nothing
    case DeqCas(pos) =>
      if s.deqPos == pos && !spurious && pos < |s.enqueued| then Take(s.enqueued[pos]) else Nothing
    case _ => Nothing
  }

  ghost predicate BoundedFifo<T>(size: nat, before: seq<T>, effect: Effect<T>, after: seq<T>)
  {
    match effect
    case Nothing => after == before
    case Put(item) => |before| < size && after == before + [item]
    case Take(item) => before == [item] + after
  }

  /** Every step is a step of a bounded queue, taken at the compare-and-swap of the call. */
  lemma StepRefinesFifo<T>(s: State<T>, t: nat, spurious: bool)
    requires Inv(s) && t < |s.pcs| && !s.pcs[t].AtRest()
    ensures Inv(Step(s, t, spurious))
    ensures BoundedFifo(s.size, Contents(s), EffectOf(s, t, spurious), Contents(Step(s, t, spurious)))
    ensures |Contents(s)| <= s.size
  {
    assert ThreadInv(s, s.pcs[t]);
    StepInv(s, t, spurious);
    var s' := Step(s, t, spurious);
    match EffectOf(s, t, spurious)
    case Nothing =>
    case Put(item) => assert s'.enqueued[s.deqPos..] == s.enqueued[s.deqPos..] + [item];
    case Take(item) => assert s.enqueued[s.deqPos..] == [item] + s.enqueued[s.deqPos + 1..];
  }

  /**
  History only grows, and the item moved out of the cell of position `p` is the item stored
  for position `p`: it is moved out at most once and never from a cell that holds nothing.
  */
  lemma StepHistory<T>(s: State<T>, t: nat, spurious: bool)
    requires Inv(s) && t < |s.pcs| && !s.pcs[t].AtRest()
    ensures var s' := Step(s, t, spurious);
            && s.enqueued <= s'.enqueued
            && (forall p :: p in s.taken ==> p in s'.taken && s'.taken[p] == s.taken[p])
            && (s.pcs[t].DeqRead? ==>
                  var p := s.pcs[t].pos;
                  p !in s.taken && s'.taken == s.taken[p := s.enqueued[p]] && s'.pcs[t] == DeqRelease(s.enqueued[p], p))
            && (!s.pcs[t].DeqRead? ==> s'.taken == s.taken)
  {
    assert ThreadInv(s, s.pcs[t]);
  }

  /**
  Over a whole run the items taken, by position, are the items enqueued in claim order:
  what has been taken at any time agrees with what the last state of the run has enqueued.
  */
  lemma {:induction false} RunFifo<T(!new)>(states: seq<State<T>>, k: nat, last: nat)
    requires Run(states) && k <= last < |states|
    ensures Inv(states[k]) && Inv(states[last]) && states[k].enqueued <= states[last].enqueued
    ensures forall p :: p in states[k].taken ==>
                          && p in states[last].taken
                          && states[last].taken[p] == states[k].taken[p] == states[last].enqueued[p]
    decreases last - k
  {
    RunInv(states, k);
    RunInv(states, last);
    if k < last {
      RunFifo(states, k + 1, last);
      var s, s' := states[k], states[k + 1];
      var t: nat :| t < |s.pcs| && NextBy(s, s', t);
      if !s.pcs[t].AtRest() {
        StepHistory(s, t, false);
        StepHistory(s, t, true);
      }
    }
  }

  ghost predicate Quiescent<T>(s: State<T>)
  {
    forall t :: 0 <= t < |s.pcs| ==> s.pcs[t].AtRest()
  }

  /** Within one lap of positions a cell determines the position. */
  lemma SameWindow(a: nat, b: nat, low: nat, size: nat)
    requires size > 0 && low <= a < low + size && low <= b < low + size
    requires Slot(a, size) == Slot(b, size)
    ensures a == b
  {
    if a < b {
      SameSlotGap(a, b, size);
    } else if b < a {
      SameSlotGap(b, a, size);
    }
  }

  lemma QuiescentCell<T>(s: State<T>, p: nat)
    requires Inv(s) && Quiescent(s) && s.deqPos <= p < s.deqPos + s.size
    ensures p < s.enqPos ==> s.CellAt(p) == Cell(p + 1, Some(s.enqueued[p]))
    ensures p >= s.enqPos ==> s.CellAt(p).sequence == p
  {
    var i := Slot(p, s.size);
    var q := s.cells[i].sequence;
    assert CellInv(s, i);
    assert !HasStorer(s.pcs, q);
    if FreeInv(s, i) {
      SameWindow(p, q, s.deqPos, s.size);
    } else {
      assert !HasTaker(s.pcs, q - 1);
      SameWindow(p, q - 1, s.deqPos, s.size);
    }
  }

  /**
  With no call in flight nothing is lost: exactly the positions before deqPos have been
  taken, each with its own item, and the cells hold exactly the contents, in order.
  */
  lemma QuiescentCells<T>(s: State<T>)
    requires Inv(s) && Quiescent(s)
    ensures forall p: nat :: p in s.taken <==> p < s.deqPos
    ensures forall p :: p in s.taken ==> s.taken[p] == s.enqueued[p]
    ensures forall p: nat :: s.deqPos <= p < s.enqPos ==> s.CellAt(p) == Cell(p + 1, Some(s.enqueued[p]))
    ensures forall p: nat :: s.enqPos <= p < s.deqPos + s.size ==> s.CellAt(p).sequence == p
  {
    forall p: nat | p < s.deqPos ensures p in s.taken {
      assert !HasReader(s.pcs, p);
    }
    forall p: nat | s.deqPos <= p < s.deqPos + s.size
      ensures p < s.enqPos ==> s.CellAt(p) == Cell(p + 1, Some(s.enqueued[p]))
      ensures p >= s.enqPos ==> s.CellAt(p).sequence == p
    {
      QuiescentCell(s, p);
    }
  }

  // ----- Calls that return false -----

  /** The item of position `p` has been stored and published. */
  ghost predicate Published<T>(s: State<T>, p: nat)
  {
    p < s.enqPos && !HasStorer(s.pcs, p)
  }

  /** The item of position `p` has been taken and its cell released. */
  ghost predicate Released<T>(s: State<T>, p: nat)
  {
    p < s.deqPos && !HasTaker(s.pcs, p)
  }

  /** A storer still holds its cell, so its position is unpublished in the sequence as well. */
  lemma HolderCell<T>(s: State<T>, p: nat)
    requires Inv(s)
    ensures HasStorer(s.pcs, p) ==> s.CellAt(p).sequence == p && p < s.enqPos
    ensures HasTaker(s.pcs, p) ==> s.CellAt(p).sequence == p + 1 && p < s.deqPos
  {
    if t :| 0 <= t < |s.pcs| && s.pcs[t].Storing(p) {
      assert ThreadInv(s, s.pcs[t]);
    }
    if t :| 0 <= t < |s.pcs| && s.pcs[t].Taking(p) {
      assert ThreadInv(s, s.pcs[t]);
    }
  }

  /** At its load of the sequence the thread finds its cell still in use one lap behind. */
  ghost predicate SeesUnreleased<T>(s: State<T>, t: nat)
    requires t < |s.pcs|
  {
    s.pcs[t].EnqLoadSeq? && s.pcs[t].pos == s.enqPos && s.enqPos >= s.size && !Released(s, s.enqPos - s.size)
  }

  /** At its load of the sequence the thread finds the head of the queue unpublished. */
  ghost predicate SeesUnpublished<T>(s: State<T>, t: nat)
    requires t < |s.pcs|
  {
    s.pcs[t].DeqLoadSeq? && s.pcs[t].pos == s.deqPos && !Published(s, s.deqPos)
  }

  lemma EnqueueLoadIff<T>(s: State<T>, t: nat, spurious: bool)
    requires Inv(s) && t < |s.pcs| && s.pcs[t].EnqLoadSeq?
    ensures Step(s, t, spurious).pcs[t] == EnqReturned(s.pcs[t].item, false) <==> SeesUnreleased(s, t)
  {
    var pos, n := s.pcs[t].pos, s.size;
    var i := Slot(pos, n);
    var q := s.cells[i].sequence;
    assert ThreadInv(s, s.pcs[t]) && CellInv(s, i);
    if q < pos {
      if FreeInv(s, i) {
        SameSlotGap(q, pos, n);
        HolderCell(s, q);
        assert pos == s.enqPos && q == s.enqPos - n && q >= s.deqPos;
      } else {
        SameSlotGap(q - 1, pos, n);
        assert pos == s.enqPos && q - 1 == s.enqPos - n;
        assert q - 1 < s.deqPos ==> HasTaker(s.pcs, q - 1);
      }
    } else if pos == s.enqPos && s.enqPos >= n {
      var p := s.enqPos - n;
      NextLapSameSlot(p, n);
      HolderCell(s, p);
      if FreeInv(s, i) {
        assert p < s.deqPos;
      } else {
        NeighboursApart(q - 1, n);
      }
    }
  }

  lemma DequeueLoadIff<T>(s: State<T>, t: nat, spurious: bool)
    requires Inv(s) && t < |s.pcs| && s.pcs[t].DeqLoadSeq?
    ensures Step(s, t, spurious).pcs[t] == DeqReturned(None) <==> SeesUnpublished(s, t)
  {
    var pos, n := s.pcs[t].pos, s.size;
    var i := Slot(pos, n);
    var q := s.cells[i].sequence;
    assert ThreadInv(s, s.pcs[t]) && CellInv(s, i);
    HolderCell(s, pos);
    if q < pos + 1 {
      if FreeInv(s, i) {
        assert q == pos == s.deqPos;
      } else {
        SameSlotGap(q - 1, pos, n);
        assert pos == s.deqPos == s.enqPos;
      }
    } else if pos == s.deqPos && FreeInv(s, i) {
      SameSlotGap(pos, q, n);
    }
  }

  /**
  Wherever a call is, its next step returns false exactly when the thread is at its load of the
  sequence, its position is still the next one to claim, and the item one lap behind in that
  cell has not been released.  A lost race for the position is never the reason.
  */
  lemma EnqueueFailsIff<T>(s: State<T>, t: nat, spurious: bool)
    requires Inv(s) && t < |s.pcs| && !s.pcs[t].AtRest()
    ensures var pc' := Step(s, t, spurious).pcs[t];
            pc'.EnqReturned? && !pc'.ok <==> SeesUnreleased(s, t)
    ensures SeesUnreleased(s, t) ==> Step(s, t, spurious).pcs[t] == EnqReturned(s.pcs[t].item, false)
  {
    if s.pcs[t].EnqLoadSeq? {
      EnqueueLoadIff(s, t, spurious);
    } else {
      assert !Step(s, t, spurious).pcs[t].EnqReturned? || Step(s, t, spurious).pcs[t].ok;
    }
  }

  /** It returns true exactly when the thread publishes its item, which then has a position of its own. */
  lemma EnqueueSucceedsIff<T>(s: State<T>, t: nat, spurious: bool)
    requires Inv(s) && t < |s.pcs| && !s.pcs[t].AtRest()
    ensures var pc' := Step(s, t, spurious).pcs[t];
            pc'.EnqReturned? && pc'.ok <==> s.pcs[t].EnqPublish?
    ensures s.pcs[t].EnqPublish? ==>
              && s.pcs[t].pos < s.enqPos && s.enqueued[s.pcs[t].pos] == s.pcs[t].item
              && Step(s, t, spurious).pcs[t] == EnqReturned(s.pcs[t].item, true)
              && Step(s, t, spurious).CellAt(s.pcs[t].pos) == Cell(s.pcs[t].pos + 1, Some(s.pcs[t].item))
  {
    assert ThreadInv(s, s.pcs[t]);
  }

  /**
  And the next step of a call of dequeue returns false exactly when the thread is at its load of
  the sequence, its position is still the next one to claim, and the item there is unpublished.
  */
  lemma DequeueFailsIff<T>(s: State<T>, t: nat, spurious: bool)
    requires Inv(s) && t < |s.pcs| && !s.pcs[t].AtRest()
    ensures Step(s, t, spurious).pcs[t] == DeqReturned(None) <==> SeesUnpublished(s, t)
  {
    if s.pcs[t].DeqLoadSeq? {
      DequeueLoadIff(s, t, spurious);
    }
  }

  /** It returns an item exactly when the thread releases the cell, and it is the item of its position. */
  lemma DequeueSucceedsIff<T>(s: State<T>, t: nat, spurious: bool)
    requires Inv(s) && t < |s.pcs| && !s.pcs[t].AtRest()
    ensures var pc' := Step(s, t, spurious).pcs[t];
            pc'.DeqReturned? && pc'.result.Some? <==> s.pcs[t].DeqRelease?
    ensures s.pcs[t].DeqRelease? ==>
              && s.pcs[t].pos < s.enqPos
              && Step(s, t, spurious).pcs[t] == DeqReturned(Some(s.enqueued[s.pcs[t].pos]))
  {
    assert ThreadInv(s, s.pcs[t]);
  }

  /** A step moves only its own thread. */
  lemma OneThreadMoves<T>(s: State<T>, t: nat, spurious: bool)
    requires s.WellFormed() && t < |s.pcs| && !s.pcs[t].AtRest()
    ensures var s' := Step(s, t, spurious); |s'.pcs| == |s.pcs| && s'.pcs == s.pcs[t := s'.pcs[t]]
  {
  }

  predicate ReturnedFalse<T>(pc: Pc<T>) {
    (pc.EnqReturned? && !pc.ok) || (pc.DeqReturned? && pc.result.None?)
  }

  /** Why the next step of thread `t` takes it to the false return `pc`. */
  ghost predicate Reason<T>(s: State<T>, t: nat, pc: Pc<T>) {
    t < |s.pcs| &&
    match pc
    case EnqReturned(item, ok) => !ok && SeesUnreleased(s, t) && s.pcs[t].item == item
    case DeqReturned(result) => result.None? && SeesUnpublished(s, t)
    case _ => false
  }

  /** If thread `t` has returned false after a step of the system, it had before, or that step was the reason. */
  lemma FalseBefore<T(!new)>(s: State<T>, s': State<T>, t: nat)
    requires Inv(s) && Next(s, s') && t < |s'.pcs| && ReturnedFalse(s'.pcs[t])
    ensures t < |s.pcs| && (s.pcs[t] != s'.pcs[t] ==> Reason(s, t, s'.pcs[t]))
  {
    var u: nat :| u < |s.pcs| && NextBy(s, s', u);
    if !s.pcs[u].AtRest() {
      var spurious := s' != Step(s, u, false);
      OneThreadMoves(s, u, spurious);
      EnqueueFailsIff(s, u, spurious);
      DequeueFailsIff(s, u, spurious);
    }
  }

  /** If thread `t` has returned false, it had before the last step, or that step was the reason. */
  ghost predicate LastStepExplains<T(!new)>(states: seq<State<T>>, k: nat, t: nat)
    requires 0 < k < |states|
  {
    t < |states[k].pcs| && ReturnedFalse(states[k].pcs[t]) ==>
      && t < |states[k - 1].pcs|
      && (states[k - 1].pcs[t] != states[k].pcs[t] ==> Reason(states[k - 1], t, states[k].pcs[t]))
  }

  lemma LastStep<T(!new)>(states: seq<State<T>>, k: nat, t: nat)
    requires Run(states) && 0 < k < |states|
    ensures LastStepExplains(states, k, t)
  {
    RunInv(states, k - 1);
    assert k - 1 + 1 == k;
    if t < |states[k].pcs| && ReturnedFalse(states[k].pcs[t]) {
      FalseBefore(states[k - 1], states[k], t);
    }
  }

  lemma NobodyReturnedYet<T(!new)>(states: seq<State<T>>, t: nat)
    requires Run(states)
    ensures t < |states[0].pcs| ==> !ReturnedFalse(states[0].pcs[t])
  {
  }

  /** Thread `t` is at `pc` in all states from `j` to `k`. */
  ghost predicate Rests<T>(states: seq<State<T>>, j: nat, k: nat, t: nat, pc: Pc<T>) {
    forall i :: j <= i <= k && i < |states| ==> t < |states[i].pcs| && states[i].pcs[t] == pc
  }

  lemma {:induction false} ReasonBefore<T(!new)>(states: seq<State<T>>, k: nat, t: nat) returns (j: nat)
    requires k < |states| && t < |states[k].pcs| && ReturnedFalse(states[k].pcs[t])
    requires t < |states[0].pcs| ==> !ReturnedFalse(states[0].pcs[t])
    requires forall i {:trigger LastStepExplains(states, i, t)} :: 0 < i <= k ==> LastStepExplains(states, i, t)
    ensures j < k && Reason(states[j], t, states[k].pcs[t]) && Rests(states, j + 1, k, t, states[k].pcs[t])
  {
    assert LastStepExplains(states, k, t);
    if states[k - 1].pcs[t] != states[k].pcs[t] {
      j := k - 1;
    } else {
      j := ReasonBefore(states, k - 1, t);
    }
  }

  /**
  In every run a call that has returned false came through a state in which its cell was still in
  use, or the head unpublished, and its thread has not moved since.
  */
  lemma FalseReturnHasReason<T(!new)>(states: seq<State<T>>, k: nat, t: nat) returns (j: nat)
    requires Run(states) && k < |states| && t < |states[k].pcs| && ReturnedFalse(states[k].pcs[t])
    ensures j < k && Reason(states[j], t, states[k].pcs[t]) && Rests(states, j + 1, k, t, states[k].pcs[t])
  {
    NobodyReturnedYet(states, t);
    forall i {:trigger LastStepExplains(states, i, t)} | 0 < i <= k ensures LastStepExplains(states, i, t) {
      LastStep(states, i, t);
    }
    j := ReasonBefore(states, k, t);
  }

  /** With no other call in flight, a false return means exactly full and exactly empty. */
  lemma QuiescentFailures<T>(s: State<T>, t: nat)
    requires Inv(s) && t < |s.pcs|
    requires forall u :: 0 <= u < |s.pcs| && u != t ==> s.pcs[u].AtRest()
    ensures s.pcs[t].EnqLoadSeq? && s.pcs[t].pos == s.enqPos ==>
              (Step(s, t, false).pcs[t] == EnqReturned(s.pcs[t].item, false) <==> |Contents(s)| == s.size)
    ensures s.pcs[t].DeqLoadSeq? && s.pcs[t].pos == s.deqPos ==>
              (Step(s, t, false).pcs[t] == DeqReturned(None) <==> Contents(s) == [])
  {
    if s.pcs[t].EnqLoadSeq? && s.pcs[t].pos == s.enqPos {
      EnqueueFailsIff(s, t, false);
      assert s.enqPos >= s.size ==> !HasTaker(s.pcs, s.enqPos - s.size);
    }
    if s.pcs[t].DeqLoadSeq? && s.pcs[t].pos == s.deqPos {
      DequeueFailsIff(s, t, false);
      assert !HasStorer(s.pcs, s.deqPos);
    }
  }
}
