/** Which cell a position falls in: `pos & buffer_mask_`, as the remainder by the size. */
module Slots {

  /** The remainder of `pos` by `size`, by counting laps; module MachineWords ties it to the mask. */
  function Slot(pos: nat, size: nat): (i: nat)
    requires size > 0
    ensures i < size
  {
    if pos < size then pos else Slot(pos - size, size)
  }

  lemma {:induction false} SlotBelow(a: nat, size: nat)
    requires size > 0
    ensures a >= size ==> Slot(a, size) <= a - size
    ensures Slot(a, size) <= a
  {
    if a >= size {
      SlotBelow(a - size, size);
    }
  }

  /** Two positions share a cell only when they are at least one lap apart. */
  lemma {:induction false} SameSlotGap(a: nat, b: nat, size: nat)
    requires size > 0 && a < b && Slot(a, size) == Slot(b, size)
    ensures a + size <= b
  {
    if a >= size {
      SameSlotGap(a - size, b - size, size);
    } else if b >= size {
      SlotBelow(b, size);
    }
  }

  lemma NextLapSameSlot(a: nat, size: nat)
    requires size > 0
    ensures Slot(a + size, size) == Slot(a, size)
  {
  }

  /** With at least two cells, neighbouring positions are in different cells. */
  lemma NeighboursApart(a: nat, size: nat)
    requires size >= 2
    ensures Slot(a + 1, size) != Slot(a, size)
  {
    if Slot(a + 1, size) == Slot(a, size) {
      SameSlotGap(a, a + 1, size);
    }
  }

  /** Distinct positions less than a lap apart are in different cells. */
  lemma LapApart(a: nat, b: nat, size: nat)
    requires size > 0 && a < b < a + size
    ensures Slot(a, size) != Slot(b, size)
  {
    if Slot(a, size) == Slot(b, size) {
      SameSlotGap(a, b, size);
    }
  }
}
