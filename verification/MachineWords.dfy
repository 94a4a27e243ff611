/**
The bit tricks of mpmc_bounded_q.h on 64-bit words: the power-of-two test of the
constructor, the mask that picks the cell, and the signed difference of wrapped positions.
*/
module MachineWords {
  import opened Powers
  import opened Slots

  const HALF_WORD: int := 0x8000_0000_0000_0000

  /** Bitwise conjunction. */
  function And(a: nat, b: nat): nat
  {
    if a == 0 || b == 0 then 0 else (a % 2) * (b % 2) + 2 * And(a / 2, b / 2)
  }

  /** The size test of the constructor (it throws when this is false). */
  predicate AcceptsSize(size: nat)
  {
    size >= 2 && And(size, size - 1) == 0
  }

  lemma {:induction false} PowerHasOneBit(k: nat)
    ensures And(Pow2(k), Pow2(k) - 1) == 0
  {
    if k > 0 {
      PowerHasOneBit(k - 1);
      var h := Pow2(k - 1);
      assert (2 * h) / 2 == h && (2 * h - 1) / 2 == h - 1;
    }
  }

  lemma {:induction false} SelfAnd(n: nat)
    ensures And(n, n) == n
  {
    if n > 0 {
      SelfAnd(n / 2);
    }
  }

  lemma {:induction false} OneBitIsPower(n: nat) returns (k: nat)
    requires n >= 1 && And(n, n - 1) == 0
    ensures n == Pow2(k)
  {
    if n == 1 {
      k := 0;
    } else {
      if n % 2 == 1 {
        var h := n / 2;
        assert (n - 1) / 2 == h;
        SelfAnd(h);
        assert false;
      }
      var h := n / 2;
      assert n == 2 * h && (n - 1) / 2 == h - 1;
      k := OneBitIsPower(h);
      k := k + 1;
    }
  }

  /** The size test accepts exactly the powers of two from 2 on. */
  lemma AcceptsPowersOfTwo(size: nat)
    ensures AcceptsSize(size) <==> exists k :: k >= 1 && size == Pow2(k)
  {
    if k :| k >= 1 && size == Pow2(k) {
      PowerHasOneBit(k);
      assert Pow2(k) == 2 * Pow2(k - 1);
    }
    if AcceptsSize(size) {
      var k := OneBitIsPower(size);
      assert k >= 1;
    }
  }

  /** Halving a position halves its slot in a queue of twice the size. */
  lemma {:induction false} SlotOfDouble(pos: nat, h: nat)
    requires h > 0
    ensures Slot(pos, 2 * h) == 2 * Slot(pos / 2, h) + pos % 2
  {
    if pos >= 2 * h {
      SlotOfDouble(pos - 2 * h, h);
      assert (pos - 2 * h) / 2 == pos / 2 - h;
    } else {
      assert pos / 2 < h;
    }
  }

  /** Whole laps do not change the slot. */
  lemma {:induction false} SlotOfLaps(pos: nat, laps: nat, size: nat)
    requires size > 0
    ensures laps * size >= 0 && Slot(pos + laps * size, size) == Slot(pos, size)
  {
    if laps > 0 {
      SlotOfLaps(pos, laps - 1, size);
      assert laps * size == (laps - 1) * size + size;
      NextLapSameSlot(pos + (laps - 1) * size, size);
    }
  }

  /** A mask of one bit more: the last bit of the position, and the shorter mask on the rest. */
  lemma AndOfMask(pos: nat, h: nat)
    requires h > 0
    ensures And(pos, 2 * h - 1) == pos % 2 + 2 * And(pos / 2, h - 1)
  {
    assert (2 * h - 1) / 2 == h - 1 && (2 * h - 1) % 2 == 1;
  }

  /** Masking with size - 1 picks the cell of the position. */
  lemma {:induction false} MaskPicksSlot(pos: nat, k: nat)
    ensures And(pos, Pow2(k) - 1) == Slot(pos, Pow2(k))
    decreases k
  {
    if k == 0 {
      SlotOfLaps(0, pos, 1);
    } else {
      var h := Pow2(k - 1);
      MaskPicksSlot(pos / 2, k - 1);
      SlotOfDouble(pos, h);
      AndOfMask(pos, h);
    }
  }

  lemma MulAssociates(a: nat, b: nat, c: nat)
    ensures a * (b * c) == (a * b) * c && a * b >= 0
  {
  }

  lemma SlotOfWords(pos: nat, words: nat, laps: nat, size: nat)
    requires size > 0
    ensures words * (laps * size) >= 0 && Slot(pos + words * (laps * size), size) == Slot(pos, size)
  {
    MulAssociates(words, laps, size);
    SlotOfLaps(pos, words * laps, size);
  }

  lemma {:induction false} PowersAdd(a: nat, b: nat)
    ensures Pow2(a + b) == Pow2(a) * Pow2(b)
  {
    if a > 0 {
      PowersAdd(a - 1, b);
      assert Pow2(a + b) == 2 * Pow2(a - 1 + b);
      assert 2 * (Pow2(a - 1) * Pow2(b)) == Pow2(a) * Pow2(b);
    }
  }

  lemma PowerOfWord()
    ensures Pow2(64) == LIMIT_64
  {
    assert Pow2(4) == 16;
    PowersAdd(4, 4);
    PowersAdd(8, 8);
    assert Pow2(16) == 65536;
    PowersAdd(16, 16);
    assert Pow2(32) == LIMIT_32;
    PowersAdd(32, 32);
  }

  /** The same cell is picked when the position has wrapped round the 64-bit word. */
  lemma WrappedMaskPicksSlot(pos: nat, k: nat)
    requires k <= 64
    ensures And(pos % LIMIT_64, Pow2(k) - 1) == Slot(pos, Pow2(k))
  {
    MaskPicksSlot(pos % LIMIT_64, k);
    PowersAdd(64 - k, k);
    PowerOfWord();
    SlotOfWords(pos % LIMIT_64, pos / LIMIT_64, Pow2(64 - k), Pow2(k));
    assert pos == pos % LIMIT_64 + pos / LIMIT_64 * LIMIT_64;
  }

  /** `(intptr_t)seq - (intptr_t)pos` on words that wrap. */
  function WrappedDif(seqWord: nat, posWord: nat): int
    requires seqWord < LIMIT_64 && posWord < LIMIT_64
  {
    var d := (seqWord - posWord + LIMIT_64) % LIMIT_64;
    if d < HALF_WORD then d else d - LIMIT_64
  }

  /**
  The difference of the wrapped words is the difference of the positions exactly as long as
  the two are less than half a word apart.
  */
  lemma WrappedDifIsDif(sequence: nat, pos: nat)
    ensures WrappedDif(sequence % LIMIT_64, pos % LIMIT_64) == sequence - pos
            <==> -HALF_WORD <= sequence - pos < HALF_WORD
  {
    var a, b := sequence % LIMIT_64, pos % LIMIT_64;
    var m := sequence / LIMIT_64 - pos / LIMIT_64;
    assert sequence - pos == LIMIT_64 * m + (a - b);
    assert (a - b + LIMIT_64) % LIMIT_64 == if a >= b then a - b else a - b + LIMIT_64;
  }
}
