/**
Lock-freedom of the bounded queue: every extra trip round a retry loop is paid for by
another thread's claim, so with no new call all calls in flight end within a bound.
*/
module MpmcProgress {
  import opened Slots
  import opened MpmcQueue
  import opened MpmcSafety

  /**
  A trip back to the top of a retry loop, other than by a spurious failure, means that
  positions were claimed since this thread loaded its own.
  */
  lemma RetryIsPaidFor<T>(s: State<T>, t: nat)
    requires Inv(s) && t < |s.pcs| && !s.pcs[t].AtRest()
    ensures var pc, pc' := s.pcs[t], Step(s, t, false).pcs[t];
            && (pc.EnqLoadSeq? && pc'.EnqLoadPos? ==> pc.pos < s.enqPos)
            && (pc.EnqCas? && pc'.EnqLoadSeq? ==> pc.pos < s.enqPos)
            && (pc.DeqLoadSeq? && pc'.DeqLoadPos? ==> pc.pos < s.deqPos)
            && (pc.DeqCas? && pc'.DeqLoadSeq? ==> pc.pos < s.deqPos)
  {
    var pc := s.pcs[t];
    assert ThreadInv(s, pc);
    if pc.EnqLoadSeq? || pc.DeqLoadSeq? {
      var i, pos := Slot(pc.pos, s.size), pc.pos;
      var q := s.cells[i].sequence;
      assert CellInv(s, i);
      if FreeInv(s, i) && q > pos {
        SameSlotGap(pos, q, s.size);
      } else if FullInv(s, i) && q - 1 > pos {
        SameSlotGap(pos, q - 1, s.size);
      }
    }
  }

  /** The thread is inside a call that has not claimed a position yet. */
  predicate Unclaimed<T>(pc: Pc<T>) {
    !pc.AtRest() && !pc.Holds()
  }

  /** Steps a thread still takes if nobody else claims: more when its position is stale. */
  function Rank<T>(pc: Pc<T>, enqPos: nat, deqPos: nat): (r: nat)
    ensures r <= 6
  {
    match pc
    case EnqLoadPos(_) => 5
    case EnqLoadSeq(_, pos) => if pos < enqPos then 6 else 4
    case EnqCas(_, pos) => if pos < enqPos then 5 else 3
    case EnqWrite(_, _) => 2
    case EnqPublish(_, _) => 1
    case DeqLoadPos => 5
    case DeqLoadSeq(pos) => if pos < deqPos then 6 else 4
    case DeqCas(pos) => if pos < deqPos then 5 else 3
    case DeqRead(_) => 2
    case DeqRelease(_, _) => 1
    case _ => 0
  }

  function Weight<T>(s: State<T>, pc: Pc<T>): nat {
    Rank(pc, s.enqPos, s.deqPos) + (if Unclaimed(pc) then 2 * |s.pcs| else 0)
  }

  /** The measure: over the first `k` threads, ranks plus a fee for every claim still to come. */
  function Measure<T>(s: State<T>, k: nat): nat
    requires k <= |s.pcs|
  {
    if k == 0 then 0 else Measure(s, k - 1) + Weight(s, s.pcs[k - 1])
  }

  lemma {:induction false} MeasureBound<T>(s: State<T>, k: nat)
    requires k <= |s.pcs|
    ensures Measure(s, k) <= k * (6 + 2 * |s.pcs|)
  {
    if k > 0 {
      MeasureBound(s, k - 1);
      assert k * (6 + 2 * |s.pcs|) == (k - 1) * (6 + 2 * |s.pcs|) + (6 + 2 * |s.pcs|);
    }
  }

  /** If thread `t` changes by `own` and no other thread gains more than `others`, so does the sum. */
  lemma {:induction false} MeasureChange<T>(s: State<T>, s': State<T>, t: nat, own: int, others: nat, k: nat)
    requires |s.pcs| == |s'.pcs| && t < |s.pcs| && k <= |s.pcs|
    requires Weight(s', s'.pcs[t]) <= Weight(s, s.pcs[t]) + own
    requires forall u :: 0 <= u < |s.pcs| && u != t ==> Weight(s', s'.pcs[u]) <= Weight(s, s.pcs[u]) + others
    ensures Measure(s', k) <= Measure(s, k) + (if t < k then own + others * (k - 1) else others * k)
  {
    if k > 0 {
      MeasureChange(s, s', t, own, others, k - 1);
      if t == k - 1 {
      } else if t < k {
        assert others * (k - 1) == others * (k - 2) + others;
      } else {
        assert others * k == others * (k - 1) + others;
      }
    }
  }

  lemma RankAfterClaim<T>(s: State<T>, t: nat)
    requires Inv(s) && t < |s.pcs| && Claims(s, t, false)
    ensures var s' := Step(s, t, false);
            && |s'.pcs| == |s.pcs| && s'.pcs == s.pcs[t := s'.pcs[t]]
            && Unclaimed(s.pcs[t]) && !Unclaimed(s'.pcs[t])
            && Rank(s'.pcs[t], s'.enqPos, s'.deqPos) + 1 <= Rank(s.pcs[t], s.enqPos, s.deqPos)
            && s.enqPos <= s'.enqPos <= s.enqPos + 1 && s.deqPos <= s'.deqPos <= s.deqPos + 1
  {
  }

  lemma MoveShape<T>(s: State<T>, t: nat, spurious: bool)
    requires s.WellFormed() && t < |s.pcs| && !s.pcs[t].AtRest() && !Claims(s, t, spurious)
    ensures var s' := Step(s, t, spurious);
            && |s'.pcs| == |s.pcs| && s'.pcs == s.pcs[t := s'.pcs[t]]
            && (Unclaimed(s'.pcs[t]) ==> Unclaimed(s.pcs[t]))
            && s.enqPos == s'.enqPos && s.deqPos == s'.deqPos
  {
  }

  /** A compare-and-swap that fails, or a load. */
  lemma RankOfRetry<T>(s: State<T>, t: nat, spurious: bool)
    requires Inv(s) && t < |s.pcs| && Unclaimed(s.pcs[t]) && !Claims(s, t, spurious)
    ensures Rank(Step(s, t, spurious).pcs[t], s.enqPos, s.deqPos) + 1
            <= Rank(s.pcs[t], s.enqPos, s.deqPos) + (if spurious then 2 else 0)
  {
    assert ThreadInv(s, s.pcs[t]);
    RetryIsPaidFor(s, t);
  }

  lemma RankOfHolder<T>(s: State<T>, t: nat)
    requires Inv(s) && t < |s.pcs| && s.pcs[t].Holds()
    ensures Rank(Step(s, t, false).pcs[t], s.enqPos, s.deqPos) + 1 <= Rank(s.pcs[t], s.enqPos, s.deqPos)
  {
    assert ThreadInv(s, s.pcs[t]);
  }

  lemma RankAfterMove<T>(s: State<T>, t: nat, spurious: bool)
    requires Inv(s) && t < |s.pcs| && !s.pcs[t].AtRest() && !Claims(s, t, spurious)
    ensures var s' := Step(s, t, spurious);
            && |s'.pcs| == |s.pcs| && s'.pcs == s.pcs[t := s'.pcs[t]]
            && (Unclaimed(s'.pcs[t]) ==> Unclaimed(s.pcs[t]))
            && Rank(s'.pcs[t], s'.enqPos, s'.deqPos) + 1
               <= Rank(s.pcs[t], s.enqPos, s.deqPos) + (if spurious then 2 else 0)
            && s.enqPos == s'.enqPos && s.deqPos == s'.deqPos
  {
    MoveShape(s, t, spurious);
    if s.pcs[t].Holds() {
      RankOfHolder(s, t);
    } else {
      RankOfRetry(s, t, spurious);
    }
  }

  /** A claim makes the positions of other threads stale, which costs each of them two steps. */
  lemma RankOfOthers<T>(pc: Pc<T>, enqPos: nat, deqPos: nat, enqPos': nat, deqPos': nat)
    ensures Rank(pc, enqPos', deqPos') <= Rank(pc, enqPos, deqPos) + 2
  {
  }

  /** Every step that is not a spurious failure uses up the measure. */
  lemma StepUsesMeasure<T>(s: State<T>, t: nat, spurious: bool)
    requires Inv(s) && t < |s.pcs| && !s.pcs[t].AtRest()
    ensures var s', n := Step(s, t, spurious), |s.pcs|;
            && |s'.pcs| == n
            && Measure(s', n) + 1 <= Measure(s, n) + (if spurious then 2 else 0)
  {
    var s', n := Step(s, t, spurious), |s.pcs|;
    if Claims(s, t, spurious) {
      RankAfterClaim(s, t);
      forall u | 0 <= u < n && u != t ensures Weight(s', s'.pcs[u]) <= Weight(s, s.pcs[u]) + 2 {
        RankOfOthers(s.pcs[u], s.enqPos, s.deqPos, s'.enqPos, s'.deqPos);
      }
      MeasureChange(s, s', t, -1 - 2 * n, 2, n);
    } else {
      RankAfterMove(s, t, spurious);
      MeasureChange(s, s', t, if spurious then 1 else -1, 0, n);
    }
  }

  /** A schedule: which thread steps, and whether its compare-and-swap fails spuriously. */
  type Schedule = seq<(nat, bool)>

  ghost predicate Runs<T>(s: State<T>, schedule: Schedule)
    requires s.WellFormed()
    decreases |schedule|
  {
    schedule == [] ||
    (var (t, spurious) := schedule[0];
     && t < |s.pcs| && !s.pcs[t].AtRest()
     && Step(s, t, spurious).WellFormed() && Runs(Step(s, t, spurious), schedule[1..]))
  }

  function SpuriousFailures(schedule: Schedule): nat {
    if schedule == [] then 0 else (if schedule[0].1 then 1 else 0) + SpuriousFailures(schedule[1..])
  }

  /**
  From any reachable state, however the threads inside calls are interleaved, the number of
  steps they take without a new call is bounded: no thread can retry for ever.
  */
  lemma {:induction false} RunsEnd<T>(s: State<T>, schedule: Schedule)
    requires Inv(s) && Runs(s, schedule)
    ensures |schedule| <= Measure(s, |s.pcs|) + 2 * SpuriousFailures(schedule)
    ensures |schedule| <= |s.pcs| * (6 + 2 * |s.pcs|) + 2 * SpuriousFailures(schedule)
    decreases |schedule|
  {
    MeasureBound(s, |s.pcs|);
    if schedule != [] {
      var (t, spurious) := schedule[0];
      StepInv(s, t, spurious);
      StepUsesMeasure(s, t, spurious);
      RunsEnd(Step(s, t, spurious), schedule[1..]);
    }
  }
}
