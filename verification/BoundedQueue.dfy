/**
The queue class of mpmc_bounded_q.h run by one thread at a time: an array of cells updated
in place, with the source's retry loops.  It refines a bounded first-in first-out sequence.
*/
module BoundedQueueClass {
  import opened Wrappers
  import opened Powers
  import opened Slots
  import opened MachineWords
  import opened MpmcQueue

  /** The cell of a position. */
  function CellOf<T>(cells: seq<Cell<T>>, pos: nat): Cell<T>
    requires |cells| > 0
  {
    cells[Slot(pos, |cells|)]
  }

  function Update<T>(cells: seq<Cell<T>>, pos: nat, cell: Cell<T>): (updated: seq<Cell<T>>)
    requires |cells| > 0
    ensures |updated| == |cells|
  {
    cells[Slot(pos, |cells|) := cell]
  }

  lemma UpdatedCell<T>(cells: seq<Cell<T>>, pos: nat, cell: Cell<T>, p: nat)
    requires |cells| > 0 && p - |cells| < pos < p + |cells|
    ensures CellOf(Update(cells, pos, cell), p) == if p == pos then cell else CellOf(cells, p)
  {
    if p < pos {
      LapApart(p, pos, |cells|);
    } else if pos < p {
      LapApart(pos, p, |cells|);
    }
  }

  /**
  The cells hold exactly `items` from position `deq` on, and the cells of the rest of the lap
  wait for their storers.
  */
  ghost predicate Holds<T>(cells: seq<Cell<T>>, deq: nat, items: seq<T>)
  {
    && 0 < |cells| && |items| <= |cells|
    && (forall p: nat :: deq <= p < deq + |items| ==> CellOf(cells, p) == Cell(p + 1, Some(items[p - deq])))
    && (forall p: nat :: deq + |items| <= p < deq + |cells| ==> CellOf(cells, p).sequence == p)
  }

  lemma StoreHolds<T>(cells: seq<Cell<T>>, deq: nat, items: seq<T>, data: T)
    requires Holds(cells, deq, items) && |items| < |cells|
    ensures Holds(Update(cells, deq + |items|, Cell(deq + |items| + 1, Some(data))), deq, items + [data])
  {
    var pos, c := deq + |items|, Cell(deq + |items| + 1, Some(data));
    forall p: nat | deq <= p < deq + |cells|
      ensures CellOf(Update(cells, pos, c), p) == if p == pos then c else CellOf(cells, p)
    {
      UpdatedCell(cells, pos, c, p);
    }
  }

  lemma TakeHolds<T>(cells: seq<Cell<T>>, deq: nat, items: seq<T>)
    requires Holds(cells, deq, items) && items != []
    ensures Holds(Update(cells, deq, Cell(deq + |cells|, None)), deq + 1, items[1..])
  {
    var n, c := |cells|, Cell(deq + |cells|, None);
    forall p: nat | deq < p < deq + n ensures CellOf(Update(cells, deq, c), p) == CellOf(cells, p) {
      UpdatedCell(cells, deq, c, p);
    }
    UpdatedCell(cells, deq, c, deq);
    NextLapSameSlot(deq, n);
    assert CellOf(Update(cells, deq, c), deq + n) == c;
  }

  /** The cells that the next store and the next take look at. */
  lemma NextCells<T>(cells: seq<Cell<T>>, deq: nat, items: seq<T>)
    requires Holds(cells, deq, items)
    ensures CellOf(cells, deq + |items|).sequence == (if |items| < |cells| then deq + |items| else deq + 1)
    ensures if items == [] then CellOf(cells, deq).sequence == deq
            else CellOf(cells, deq) == Cell(deq + 1, Some(items[0]))
  {
    NextLapSameSlot(deq, |cells|);
    assert CellOf(cells, deq + |cells|) == CellOf(cells, deq);
  }

  class BoundedQueue<T> {
    const buffer: array<Cell<T>>
    const bufferMask: nat
    var enqueuePos: nat
    var dequeuePos: nat
    /** The items in the queue, oldest first. */
    ghost var contents: seq<T>
    /** The number of cells is two to this power. */
    ghost const k: nat

    ghost predicate Valid()
      reads this, buffer
    {
      && buffer.Length == Pow2(k) == bufferMask + 1 && Pow2(k) >= 2
      && enqueuePos == dequeuePos + |contents|
      && Holds(buffer[..], dequeuePos, contents)
    }

    constructor (bufferSize: nat)
      requires AcceptsSize(bufferSize)
      ensures Valid() && contents == [] && fresh(buffer) && buffer.Length == bufferSize
    {
      buffer := new Cell<T>[bufferSize](i requires 0 <= i => Cell(i, None));
      bufferMask := bufferSize - 1;
      enqueuePos, dequeuePos := 0, 0;
      contents := [];
      AcceptsPowersOfTwo(bufferSize);
      ghost var log :| log >= 1 && bufferSize == Pow2(log);
      k := log;
    }

    /** The constructor's test: sizes other than powers of two from 2 on are refused. */
    static method Create(bufferSize: nat) returns (q: Option<BoundedQueue<T>>)
      ensures q.Some? <==> exists k :: k >= 1 && bufferSize == Pow2(k)
      ensures q.Some? ==> q.value.Valid() && fresh(q.value) && fresh(q.value.buffer) && q.value.contents == []
    {
      AcceptsPowersOfTwo(bufferSize);
      if AcceptsSize(bufferSize) {
        var queue := new BoundedQueue<T>(bufferSize);
        q := Some(queue);
      } else {
        q := None;
      }
    }

    /** The end of enqueue: the item goes into the claimed cell, which is then published. */
    method StoreAndPublish(cell: nat, pos: nat, data: T)
      requires buffer.Length > 0 && cell == Slot(pos, buffer.Length)
      modifies buffer
      ensures buffer[..] == Update(old(buffer[..]), pos, Cell(pos + 1, Some(data)))
    {
      buffer[cell] := Cell(buffer[cell].sequence, Some(data));
      buffer[cell] := Cell(pos + 1, buffer[cell].data);
    }

    /** The end of dequeue: the item leaves the claimed cell, which is then free for the next lap. */
    method MoveAndRelease(cell: nat, pos: nat) returns (data: Option<T>)
      requires buffer.Length == bufferMask + 1 && cell == Slot(pos, buffer.Length)
      modifies buffer
      ensures data == old(buffer[cell].data)
      ensures buffer[..] == Update(old(buffer[..]), pos, Cell(pos + buffer.Length, None))
    {
      data := buffer[cell].data;
      buffer[cell] := Cell(buffer[cell].sequence, None);
      buffer[cell] := Cell(pos + bufferMask + 1, buffer[cell].data);
    }

    /** `spurious` is how often compare_exchange_weak fails although the position matches. */
    method Enqueue(data: T, spurious: nat) returns (ok: bool)
      requires Valid()
      modifies this`enqueuePos, this`contents, buffer
      ensures Valid()
      ensures ok <==> |old(contents)| < buffer.Length
      ensures contents == if ok then old(contents) + [data] else old(contents)
      ensures !ok ==> buffer[..] == old(buffer[..]) && enqueuePos == old(enqueuePos)
    {
      var pos, failures := enqueuePos, spurious;
      MaskPicksSlot(pos, k);
      NextCells(buffer[..], dequeuePos, contents);
      StoreOrFull(data);
      var cell := And(pos, bufferMask);
      while true
        invariant pos == enqueuePos == old(enqueuePos) && contents == old(contents)
        invariant buffer[..] == old(buffer[..]) && cell == And(pos, bufferMask)
        decreases failures
      {
        cell := And(pos, bufferMask);
        var seqn := buffer[cell].sequence;
        var dif := seqn as int - pos;
        if dif == 0 {
          if enqueuePos == pos && failures == 0 {
            enqueuePos := pos + 1;
            break;
          }
          pos, failures := enqueuePos, if failures == 0 then 0 else failures - 1;
        } else if dif < 0 {
          return false;
        } else {
          pos := enqueuePos;
        }
      }
      StoreAndPublish(cell, pos, data);
      contents := contents + [data];
      ok := true;
    }

    lemma StoreOrFull(data: T)
      requires Valid()
      ensures |contents| < buffer.Length ==>
                Holds(Update(buffer[..], enqueuePos, Cell(enqueuePos + 1, Some(data))), dequeuePos, contents + [data])
    {
      if |contents| < buffer.Length {
        StoreHolds(buffer[..], dequeuePos, contents, data);
      }
    }

    method Dequeue(spurious: nat) returns (data: Option<T>)
      requires Valid()
      modifies this`dequeuePos, this`contents, buffer
      ensures Valid()
      ensures data.None? <==> old(contents) == []
      ensures data.Some? ==> old(contents) == [data.value] + contents
      ensures data.None? ==> contents == [] && buffer[..] == old(buffer[..]) && dequeuePos == old(dequeuePos)
    {
      var pos, failures := dequeuePos, spurious;
      MaskPicksSlot(pos, k);
      NextCells(buffer[..], dequeuePos, contents);
      if contents != [] {
        TakeHolds(buffer[..], dequeuePos, contents);
      }
      var cell := And(pos, bufferMask);
      while true
        invariant pos == dequeuePos == old(dequeuePos) && contents == old(contents)
        invariant buffer[..] == old(buffer[..]) && cell == And(pos, bufferMask)
        decreases failures
      {
        cell := And(pos, bufferMask);
        var seqn := buffer[cell].sequence;
        var dif := seqn as int - (pos + 1);
        if dif == 0 {
          if dequeuePos == pos && failures == 0 {
            dequeuePos := pos + 1;
            break;
          }
          pos, failures := dequeuePos, if failures == 0 then 0 else failures - 1;
        } else if dif < 0 {
          return None;
        } else {
          pos := dequeuePos;
        }
      }
      data := MoveAndRelease(cell, pos);
      contents := contents[1..];
    }
  }
}
