/**
What rotating_file_sink promises (file_sinks.h): the slots of a rotating log as values,
slot 0 being the file that is written, and what any run of log calls leaves in them.
*/
module RotatingLog {
  import opened Wrappers

  /** A slot is None while its file is missing. */
  datatype Sink = Sink(maxSize: nat, slots: seq<Option<string>>, currentSize: nat)

  function Text(slot: Option<string>): string {
    match slot
    case None => ""
    case Some(text) => text
  }

  /** Opening slot 0 for appending, which creates it, and asking for its size. */
  function Open(maxSize: nat, slots: seq<Option<string>>): Sink
    requires |slots| >= 1
  {
    Sink(maxSize, slots[0 := Some(Text(slots[0]))], |Text(slots[0])|)
  }

  /** Slot 0 is open and its size is known. */
  predicate Opened(s: Sink) {
    |s.slots| >= 1 && s.slots[0].Some? && s.currentSize == |s.slots[0].value|
  }

  /** Every slot moves up by one, the last one is dropped, slot 0 starts empty. */
  function Rotated(slots: seq<Option<string>>): (rotated: seq<Option<string>>)
    requires |slots| >= 1
    ensures |rotated| == |slots|
  {
    [Some("")] + slots[..|slots| - 1]
  }

  predicate Rotates(s: Sink, msg: string) {
    s.currentSize + |msg| > s.maxSize
  }

  /** One call of _sink_it. */
  function Log(s: Sink, msg: string): (after: Sink)
    requires Opened(s)
    ensures Opened(after) && |after.slots| == |s.slots|
  {
    if Rotates(s, msg) then Sink(s.maxSize, Rotated(s.slots)[0 := Some(msg)], |msg|)
    else Sink(s.maxSize, s.slots[0 := Some(s.slots[0].value + msg)], s.currentSize + |msg|)
  }

  function LogAll(s: Sink, msgs: seq<string>): (after: Sink)
    requires Opened(s)
    ensures Opened(after) && |after.slots| == |s.slots| && after.maxSize == s.maxSize
  {
    if msgs == [] then s else Log(LogAll(s, msgs[..|msgs| - 1]), msgs[|msgs| - 1])
  }

  lemma {:induction false} LogAllAppend(s: Sink, a: seq<string>, b: seq<string>)
    requires Opened(s)
    ensures LogAll(s, a + b) == LogAll(LogAll(s, a), b)
  {
    if b == [] {
      assert a + b == a;
    } else {
      assert (a + b)[..|a + b| - 1] == a + b[..|b| - 1];
      LogAllAppend(s, a, b[..|b| - 1]);
    }
  }

  /** Stopping and opening the same files again is invisible: the run goes on as if it never stopped. */
  lemma RestartIsInvisible(s: Sink, a: seq<string>, b: seq<string>)
    requires Opened(s)
    ensures var stopped := LogAll(s, a);
            LogAll(Open(s.maxSize, stopped.slots), b) == LogAll(s, a + b)
  {
    var stopped := LogAll(s, a);
    assert stopped.slots[0 := Some(Text(stopped.slots[0]))] == stopped.slots;
    LogAllAppend(s, a, b);
  }

  // ----- Nothing is lost but what the last slot drops -----

  function Concat(msgs: seq<string>): string {
    if msgs == [] then "" else Concat(msgs[..|msgs| - 1]) + msgs[|msgs| - 1]
  }

  /** The contents of all slots, oldest first. */
  function Retained(slots: seq<Option<string>>): string {
    if slots == [] then "" else Retained(slots[1..]) + Text(slots[0])
  }

  /** What one call deletes. */
  function Gone(s: Sink, msg: string): string
    requires Opened(s)
  {
    if Rotates(s, msg) then Text(s.slots[|s.slots| - 1]) else ""
  }

  /** What the rotations of a run have deleted. */
  function Lost(s: Sink, msgs: seq<string>): string
    requires Opened(s)
  {
    if msgs == [] then ""
    else Lost(s, msgs[..|msgs| - 1]) + Gone(LogAll(s, msgs[..|msgs| - 1]), msgs[|msgs| - 1])
  }

  lemma {:induction false} RetainedSplit(slots: seq<Option<string>>)
    requires |slots| >= 1
    ensures Retained(slots) == Text(slots[|slots| - 1]) + Retained(slots[..|slots| - 1])
  {
    if |slots| > 1 {
      RetainedSplit(slots[1..]);
      assert slots[1..][..|slots| - 2] == slots[..|slots| - 1][1..];
    } else {
      assert slots[1..] == [] && slots[..0] == [];
    }
  }

  lemma RetainedNewest(slots: seq<Option<string>>, newest: Option<string>)
    requires |slots| >= 1
    ensures Retained(slots[0 := newest]) == Retained(slots[1..]) + Text(newest)
  {
    assert slots[0 := newest][1..] == slots[1..];
  }

  lemma LogConserves(s: Sink, msg: string)
    requires Opened(s)
    ensures Gone(s, msg) + Retained(Log(s, msg).slots) == Retained(s.slots) + msg
  {
    if Rotates(s, msg) {
      RetainedSplit(s.slots);
      RetainedNewest(Rotated(s.slots), Some(msg));
      assert Rotated(s.slots)[1..] == s.slots[..|s.slots| - 1];
    } else {
      RetainedNewest(s.slots, Some(s.slots[0].value + msg));
    }
  }

  lemma Chain(lost: string, kept: string, was: string, logged: string, gone: string, kept': string, msg: string)
    requires lost + kept == was + logged && gone + kept' == kept + msg
    ensures lost + gone + kept' == was + (logged + msg)
  {
    assert lost + gone + kept' == lost + (gone + kept');
    assert lost + (kept + msg) == lost + kept + msg;
    assert was + logged + msg == was + (logged + msg);
  }

  /** From any directory: what is lost, then what is kept, is what was there, then what was logged. */
  lemma {:induction false} RunConserves(s: Sink, msgs: seq<string>)
    requires Opened(s)
    ensures Lost(s, msgs) + Retained(LogAll(s, msgs).slots) == Retained(s.slots) + Concat(msgs)
  {
    if msgs != [] {
      var init, last := msgs[..|msgs| - 1], msgs[|msgs| - 1];
      RunConserves(s, init);
      var before := LogAll(s, init);
      var after := Log(before, last);
      LogConserves(before, last);
      Chain(Lost(s, init), Retained(before.slots), Retained(s.slots), Concat(init),
            Gone(before, last), Retained(after.slots), last);
    }
  }

  // ----- From an empty directory: which messages are in which file -----

  function EmptySlots(n: nat): (slots: seq<Option<string>>)
    ensures |slots| == n && forall i :: 0 <= i < n ==> slots[i] == None
  {
    seq(n, _ => None)
  }

  function NextBlocks(maxSize: nat, n: nat, blocks: seq<seq<string>>, msg: string): (next: seq<seq<string>>)
    requires 1 <= |blocks| <= n
    ensures 1 <= |next| <= n
  {
    if |Concat(blocks[0])| + |msg| > maxSize then [[msg]] + (if |blocks| < n then blocks else blocks[..n - 1])
    else blocks[0 := blocks[0] + [msg]]
  }

  /** The messages of each file, newest file first; at most `n` files. */
  function Blocks(maxSize: nat, n: nat, msgs: seq<string>): (blocks: seq<seq<string>>)
    requires n >= 1
    ensures 1 <= |blocks| <= n
  {
    if msgs == [] then [[]]
    else
      NextBlocks(maxSize, n, Blocks(maxSize, n, msgs[..|msgs| - 1]), msgs[|msgs| - 1])
  }

  /** All messages of the blocks, oldest first. */
  function Flatten(blocks: seq<seq<string>>): seq<string> {
    if blocks == [] then [] else Flatten(blocks[1..]) + blocks[0]
  }

  ghost predicate SlotsHold(slots: seq<Option<string>>, blocks: seq<seq<string>>) {
    && |blocks| <= |slots|
    && forall i :: 0 <= i < |slots| ==> slots[i] == if i < |blocks| then Some(Concat(blocks[i])) else None
  }

  lemma ConcatLast(block: seq<string>, msg: string)
    ensures Concat(block + [msg]) == Concat(block) + msg
    ensures Concat([msg]) == msg
  {
    assert (block + [msg])[..|block|] == block;
    assert [msg][..0] == [];
  }

  ghost predicate Holds(s: Sink, blocks: seq<seq<string>>) {
    |blocks| >= 1 && SlotsHold(s.slots, blocks) && s.currentSize == |Concat(blocks[0])|
  }

  lemma NextHolds(s: Sink, blocks: seq<seq<string>>, msg: string)
    requires Opened(s) && Holds(s, blocks)
    ensures Holds(Log(s, msg), NextBlocks(s.maxSize, |s.slots|, blocks, msg))
  {
    ConcatLast(blocks[0], msg);
  }

  /** The files hold whole messages, block by block, and the running size is the size of slot 0. */
  lemma {:induction false} RunHoldsBlocks(maxSize: nat, n: nat, msgs: seq<string>)
    requires n >= 1
    ensures Holds(LogAll(Open(maxSize, EmptySlots(n)), msgs), Blocks(maxSize, n, msgs))
  {
    if msgs != [] {
      var init, msg := msgs[..|msgs| - 1], msgs[|msgs| - 1];
      RunHoldsBlocks(maxSize, n, init);
      NextHolds(LogAll(Open(maxSize, EmptySlots(n)), init), Blocks(maxSize, n, init), msg);
    }
  }

  lemma {:induction false} FlattenOldest(blocks: seq<seq<string>>)
    requires |blocks| >= 1
    ensures Flatten(blocks) == blocks[|blocks| - 1] + Flatten(blocks[..|blocks| - 1])
  {
    if |blocks| > 1 {
      FlattenOldest(blocks[1..]);
      assert blocks[1..][..|blocks| - 2] == blocks[..|blocks| - 1][1..];
    } else {
      assert blocks[1..] == [] && blocks[..0] == [];
    }
  }

  lemma NextKeepsSuffix(maxSize: nat, n: nat, blocks: seq<seq<string>>, msg: string) returns (d: nat)
    requires 1 <= |blocks| <= n
    ensures d <= |Flatten(blocks)| && Flatten(NextBlocks(maxSize, n, blocks, msg)) == Flatten(blocks)[d..] + [msg]
    ensures |blocks| == n ==> |NextBlocks(maxSize, n, blocks, msg)| == n
    ensures d > 0 ==> |blocks| == n
  {
    d := 0;
    if |Concat(blocks[0])| + |msg| <= maxSize {
      assert blocks[0 := blocks[0] + [msg]][1..] == blocks[1..];
    } else if |blocks| < n {
      assert ([[msg]] + blocks)[1..] == blocks;
    } else {
      FlattenOldest(blocks);
      assert ([[msg]] + blocks[..n - 1])[1..] == blocks[..n - 1];
      d := |blocks[n - 1]|;
    }
  }

  lemma SuffixOfLonger(msgs: seq<string>, k: nat, d: nat)
    requires msgs != [] && k <= |msgs| - 1 && d <= |msgs| - 1 - k
    ensures msgs[..|msgs| - 1][k..][d..] + [msgs[|msgs| - 1]] == msgs[k + d..]
  {
  }

  lemma SuffixOfNone()
    ensures Flatten([[]]) == []
  {
  }

  /** The messages in the files, oldest file first, are the last messages logged, all of them in order. */
  lemma {:induction false} RunKeepsSuffix(maxSize: nat, n: nat, msgs: seq<string>) returns (k: nat)
    requires n >= 1
    ensures k <= |msgs| && Flatten(Blocks(maxSize, n, msgs)) == msgs[k..]
    ensures k > 0 ==> |Blocks(maxSize, n, msgs)| == n
  {
    k := 0;
    if msgs == [] {
      SuffixOfNone();
    } else {
      var init, msg := msgs[..|msgs| - 1], msgs[|msgs| - 1];
      k := RunKeepsSuffix(maxSize, n, init);
      var d := NextKeepsSuffix(maxSize, n, Blocks(maxSize, n, init), msg);
      SuffixOfLonger(msgs, k, d);
      k := k + d;
    }
  }

  // ----- Sizes -----

  /** At most `maxSize` bytes, or a single message that is larger. */
  ghost predicate Fits(maxSize: nat, block: seq<string>) {
    |Concat(block)| <= maxSize || |block| == 1
  }

  /** A message went to a new file only because it did not fit into the one before. */
  ghost predicate Overfull(maxSize: nat, blocks: seq<seq<string>>) {
    forall i :: 0 < i < |blocks| ==> |Concat(blocks[i])| + |Concat(blocks[i - 1])| > maxSize
  }

  lemma {:induction false} RunSizes(maxSize: nat, n: nat, msgs: seq<string>)
    requires n >= 1
    ensures forall i :: 0 <= i < |Blocks(maxSize, n, msgs)| ==> Fits(maxSize, Blocks(maxSize, n, msgs)[i])
    ensures Overfull(maxSize, Blocks(maxSize, n, msgs))
  {
    if msgs != [] {
      RunSizes(maxSize, n, msgs[..|msgs| - 1]);
      ConcatLast(Blocks(maxSize, n, msgs[..|msgs| - 1])[0], msgs[|msgs| - 1]);
    }
  }

  function Bytes(blocks: seq<seq<string>>): nat {
    if blocks == [] then 0 else |Concat(blocks[0])| + Bytes(blocks[1..])
  }

  lemma OverfullLater(maxSize: nat, blocks: seq<seq<string>>)
    requires Overfull(maxSize, blocks) && |blocks| >= 1
    ensures Overfull(maxSize, blocks[1..])
  {
    var later := blocks[1..];
    forall i | 0 < i < |later| ensures |Concat(later[i])| + |Concat(later[i - 1])| > maxSize {
      assert later[i] == blocks[i + 1] && later[i - 1] == blocks[i + 1 - 1];
    }
  }

  lemma FirstTwoOverfull(maxSize: nat, blocks: seq<seq<string>>)
    requires Overfull(maxSize, blocks) && |blocks| >= 2
    ensures Bytes(blocks) >= maxSize + 1 + Bytes(blocks[1..][1..])
  {
    assert |Concat(blocks[1])| + |Concat(blocks[1 - 1])| > maxSize;
    assert Bytes(blocks) == |Concat(blocks[0])| + Bytes(blocks[1..]);
    assert Bytes(blocks[1..]) == |Concat(blocks[1])| + Bytes(blocks[1..][1..]);
  }

  /** Every two neighbouring files together are overfull. */
  lemma {:induction false} OverfullBytes(maxSize: nat, blocks: seq<seq<string>>, pairs: nat)
    requires Overfull(maxSize, blocks) && 2 * pairs <= |blocks|
    ensures Bytes(blocks) >= pairs * (maxSize + 1)
  {
    if pairs > 0 {
      OverfullLater(maxSize, blocks);
      OverfullLater(maxSize, blocks[1..]);
      FirstTwoOverfull(maxSize, blocks);
      OverfullBytes(maxSize, blocks[1..][1..], pairs - 1);
      assert pairs * (maxSize + 1) == (pairs - 1) * (maxSize + 1) + (maxSize + 1);
    }
  }

  /** Once a run has dropped a message, half of the files are full: this much is always retained. */
  lemma RetainsEnough(maxSize: nat, n: nat, msgs: seq<string>)
    requires n >= 1 && Flatten(Blocks(maxSize, n, msgs)) != msgs
    ensures Bytes(Blocks(maxSize, n, msgs)) >= (n / 2) * (maxSize + 1)
  {
    var k := RunKeepsSuffix(maxSize, n, msgs);
    assert msgs[0..] == msgs;
    RunSizes(maxSize, n, msgs);
    OverfullBytes(maxSize, Blocks(maxSize, n, msgs), n / 2);
  }
}
