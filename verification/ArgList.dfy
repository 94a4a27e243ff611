/** The argument list of format.h: types packed four bits each, and the two representations of the values. */
module ArgList {
  import opened Wrappers

  /** `Arg::Type`: a number of four bits, 0 being `Arg::NONE`. */
  type Tag = t: bv64 | t < 16

  const NONE: Tag := 0

  /** A tag with the value that goes with it. */
  datatype Arg = Arg(tag: Tag, value: int)

  const MAX_PACKED_ARGS: nat := 16

  // ----- make_type and type -----

  /** `make_type(first, tail...)`: what does not fit into 64 bits is shifted out. */
  function MakeType(tags: seq<Tag>): bv64 {
    if tags == [] then 0 else tags[0] | (MakeType(tags[1..]) << 4)
  }

  /** `(types & (0xf << 4 * index)) >> 4 * index` */
  function TypeAt(types: bv64, index: nat): (tag: Tag)
    requires index < MAX_PACKED_ARGS
  {
    match index
    case 0 => types & 0xf
    case 1 => (types & (0xf << 4)) >> 4
    case 2 => (types & (0xf << 8)) >> 8
    case 3 => (types & (0xf << 12)) >> 12
    case 4 => (types & (0xf << 16)) >> 16
    case 5 => (types & (0xf << 20)) >> 20
    case 6 => (types & (0xf << 24)) >> 24
    case 7 => (types & (0xf << 28)) >> 28
    case 8 => (types & (0xf << 32)) >> 32
    case 9 => (types & (0xf << 36)) >> 36
    case 10 => (types & (0xf << 40)) >> 40
    case 11 => (types & (0xf << 44)) >> 44
    case 12 => (types & (0xf << 48)) >> 48
    case 13 => (types & (0xf << 52)) >> 52
    case 14 => (types & (0xf << 56)) >> 56
    case _ => (types & (0xf << 60)) >> 60
  }

  lemma Shifted1To5(tag: Tag, rest: bv64)
    ensures TypeAt(tag | (rest << 4), 1) == TypeAt(rest, 0)
    ensures TypeAt(tag | (rest << 4), 2) == TypeAt(rest, 1)
    ensures TypeAt(tag | (rest << 4), 3) == TypeAt(rest, 2)
    ensures TypeAt(tag | (rest << 4), 4) == TypeAt(rest, 3)
    ensures TypeAt(tag | (rest << 4), 5) == TypeAt(rest, 4)
  {
  }

  lemma Shifted6To10(tag: Tag, rest: bv64)
    ensures TypeAt(tag | (rest << 4), 6) == TypeAt(rest, 5)
    ensures TypeAt(tag | (rest << 4), 7) == TypeAt(rest, 6)
    ensures TypeAt(tag | (rest << 4), 8) == TypeAt(rest, 7)
    ensures TypeAt(tag | (rest << 4), 9) == TypeAt(rest, 8)
    ensures TypeAt(tag | (rest << 4), 10) == TypeAt(rest, 9)
  {
  }

  lemma Shifted11To15(tag: Tag, rest: bv64)
    ensures TypeAt(tag | (rest << 4), 11) == TypeAt(rest, 10)
    ensures TypeAt(tag | (rest << 4), 12) == TypeAt(rest, 11)
    ensures TypeAt(tag | (rest << 4), 13) == TypeAt(rest, 12)
    ensures TypeAt(tag | (rest << 4), 14) == TypeAt(rest, 13)
    ensures TypeAt(tag | (rest << 4), 15) == TypeAt(rest, 14)
  {
  }

  /** Shifting in a tag at the bottom moves every tag one place up. */
  lemma ShiftedIn(tag: Tag, rest: bv64, index: nat, types: bv64)
    requires index < MAX_PACKED_ARGS && types == tag | (rest << 4)
    ensures TypeAt(types, index) == if index == 0 then tag else TypeAt(rest, index - 1)
  {
    Shifted1To5(tag, rest);
    Shifted6To10(tag, rest);
    Shifted11To15(tag, rest);
    assert types & 0xf == tag;
    match index {
      case 0 => case 1 => case 2 => case 3 => case 4 => case 5 => case 6 => case 7 =>
      case 8 => case 9 => case 10 => case 11 => case 12 => case 13 => case 14 => case _ =>
    }
  }

  lemma NoTypes(index: nat)
    requires index < MAX_PACKED_ARGS
    ensures TypeAt(0, index) == NONE
  {
  }

  /** Reading a packed type gives the tag of that argument, and NONE beyond the last one. */
  lemma {:induction false} TypeOfMakeType(tags: seq<Tag>, index: nat)
    requires index < MAX_PACKED_ARGS
    ensures TypeAt(MakeType(tags), index) == if index < |tags| then tags[index] else NONE
  {
    if tags == [] {
      NoTypes(index);
    } else {
      ShiftedIn(tags[0], MakeType(tags[1..]), index, MakeType(tags));
      if index > 0 {
        TypeOfMakeType(tags[1..], index - 1);
      }
    }
  }

  // ----- The two representations, and operator[] -----

  /** `values_` holds bare values; `args_` holds tagged ones and a NONE at the end. */
  datatype Store = Values(values: seq<int>) | Args(args: seq<Arg>)

  datatype List = List(types: bv64, store: Store)

  ghost predicate Tagged(args: seq<Arg>) {
    forall k :: 0 <= k < |args| ==> args[k].tag != NONE
  }

  function TagsOf(args: seq<Arg>): (tags: seq<Tag>)
    ensures |tags| == |args| && forall k :: 0 <= k < |args| ==> tags[k] == args[k].tag
  {
    seq(|args|, k requires 0 <= k < |args| => args[k].tag)
  }

  /** What FMT_VARIADIC builds: bare values for fewer than 16 arguments. */
  function Make(args: seq<Arg>): List {
    List(MakeType(TagsOf(args)),
         if |args| < MAX_PACKED_ARGS then Values(seq(|args|, k requires 0 <= k < |args| => args[k].value))
         else Args(args + [Arg(NONE, 0)]))
  }

  /** The packed type of one argument; the sixteenth says which member of the union is in use. */
  method Type(list: List, index: nat, ghost args: seq<Arg>) returns (tag: Tag)
    requires Tagged(args) && list == Make(args) && index < MAX_PACKED_ARGS
    ensures tag == if index < |args| then args[index].tag else NONE
    ensures index == MAX_PACKED_ARGS - 1 ==> (tag == NONE <==> list.store.Values?)
  {
    TypeOfMakeType(TagsOf(args), index);
    tag := TypeAt(list.types, index);
  }

  /**
  The argument at an index, NONE beyond the last one.  The member of the union that was not
  stored is never read, and no index is out of bounds.
  */
  method ArgAt(list: List, index: nat, ghost args: seq<Arg>) returns (arg: Arg)
    requires Tagged(args) && list == Make(args)
    ensures if index < |args| then arg == args[index] else arg.tag == NONE
  {
    var last := Type(list, MAX_PACKED_ARGS - 1, args);
    var useValues := last == NONE;
    if index < MAX_PACKED_ARGS {
      var argType := Type(list, index, args);
      var value := 0;
      if argType != NONE {
        value := if useValues then list.store.values[index] else list.store.args[index].value;
      }
      return Arg(argType, value);
    }
    if useValues {
      return Arg(NONE, 0);
    }
    var i := MAX_PACKED_ARGS;
    while i <= index
      invariant MAX_PACKED_ARGS <= i <= |args| && i <= index + 1
    {
      if list.store.args[i].tag == NONE {
        return list.store.args[i];
      }
      i := i + 1;
    }
    return list.store.args[index];
  }

  // ----- Automatic and manual numbering -----

  /** One `{}` or `{index}` of a format string. */
  datatype Request = Auto | Manual(index: nat)

  datatype IndexError = ManualToAutomatic | AutomaticToManual | OutOfRange

  /** `next_arg` and `get_arg` for `n` arguments: the index served, and the next automatic index or -1. */
  function Serve(next: int, n: nat, request: Request): Result<(nat, int), IndexError> {
    match request
    case Auto =>
      if next < 0 then Err(ManualToAutomatic)
      else if next >= n then Err(OutOfRange) else Ok((next, next + 1))
    case Manual(index) =>
      if next > 0 then Err(AutomaticToManual)
      else if index >= n then Err(OutOfRange) else Ok((index, -1))
  }

  class FormatterBase {
    const args: List
    ghost const contents: seq<Arg>
    var nextArgIndex: int

    ghost predicate Valid() {
      Tagged(contents) && args == Make(contents)
    }

    constructor (list: List, ghost listed: seq<Arg>)
      requires Tagged(listed) && list == Make(listed)
      ensures Valid() && contents == listed && nextArgIndex == 0
    {
      args, contents, nextArgIndex := list, listed, 0;
    }

    method DoGetArg(index: nat) returns (r: Result<Arg, IndexError>)
      requires Valid()
      ensures r == if index < |contents| then Ok(contents[index]) else Err(OutOfRange)
    {
      var arg := ArgAt(args, index, contents);
      r := if arg.tag == NONE then Err(OutOfRange) else Ok(arg);
    }

    method NextArg() returns (r: Result<Arg, IndexError>)
      requires Valid()
      modifies this
      ensures match Serve(old(nextArgIndex), |contents|, Auto)
              case Err(e) => r == Err(e)
              case Ok((index, next)) => r == Ok(contents[index]) && nextArgIndex == next
    {
      if nextArgIndex >= 0 {
        nextArgIndex := nextArgIndex + 1;
        r := DoGetArg(nextArgIndex - 1);
      } else {
        r := Err(ManualToAutomatic);
      }
    }

    method GetArg(index: nat) returns (r: Result<Arg, IndexError>)
      requires Valid()
      modifies this
      ensures match Serve(old(nextArgIndex), |contents|, Manual(index))
              case Err(e) => r == Err(e)
              case Ok((i, next)) => r == Ok(contents[i]) && nextArgIndex == next
    {
      if nextArgIndex > 0 {
        r := Err(AutomaticToManual);
      } else {
        nextArgIndex := -1;
        r := DoGetArg(index);
      }
    }
  }

  /** The indices that a list of requests is served, starting with `next`. */
  function ServeAll(next: int, n: nat, requests: seq<Request>): Result<seq<nat>, IndexError>
    decreases |requests|
  {
    if requests == [] then Ok([])
    else
      match Serve(next, n, requests[0])
      case Err(e) => Err(e)
      case Ok((index, next')) =>
        match ServeAll(next', n, requests[1..])
        case Err(e) => Err(e)
        case Ok(indices) => Ok([index] + indices)
  }

  /** All requests from here on are automatic, and there are enough arguments. */
  ghost predicate AllAuto(requests: seq<Request>, from: nat, n: nat) {
    from + |requests| <= n && forall k :: 0 <= k < |requests| ==> requests[k] == Auto
  }

  ghost predicate AllManual(requests: seq<Request>, n: nat) {
    forall k :: 0 <= k < |requests| ==> requests[k].Manual? && requests[k].index < n
  }

  function Counting(from: nat, n: nat): (indices: seq<nat>)
    ensures |indices| == n && forall k :: 0 <= k < n ==> indices[k] == from + k
  {
    seq(n, k => from + k)
  }

  lemma {:induction false} ServeAutomatic(next: nat, n: nat, requests: seq<Request>)
    requires next > 0
    ensures ServeAll(next, n, requests).Ok? <==> requests == [] || AllAuto(requests, next, n)
    ensures ServeAll(next, n, requests).Ok? ==> ServeAll(next, n, requests).value == Counting(next, |requests|)
    decreases |requests|
  {
    if requests != [] {
      ServeAutomatic(next + 1, n, requests[1..]);
      assert AllAuto(requests, next, n) <==>
             requests[0] == Auto && next < n && (requests[1..] == [] || AllAuto(requests[1..], next + 1, n));
    }
  }

  lemma {:induction false} ServeManual(n: nat, requests: seq<Request>)
    ensures ServeAll(-1, n, requests).Ok? <==> AllManual(requests, n)
    ensures ServeAll(-1, n, requests).Ok? ==>
              && |ServeAll(-1, n, requests).value| == |requests|
              && forall k :: 0 <= k < |requests| ==> requests[k] == Manual(ServeAll(-1, n, requests).value[k])
    decreases |requests|
  {
    if requests != [] {
      ServeManual(n, requests[1..]);
      assert AllManual(requests, n) <==> requests[0].Manual? && requests[0].index < n && AllManual(requests[1..], n);
    }
  }

  /**
  The requests of one format string are all served exactly if they are all automatic and no
  more than the arguments, numbered 0, 1, 2, ..., or all manual and in range.
  */
  lemma ServeAllIff(n: nat, requests: seq<Request>)
    ensures ServeAll(0, n, requests).Ok? <==> AllAuto(requests, 0, n) || AllManual(requests, n)
    ensures AllAuto(requests, 0, n) ==> ServeAll(0, n, requests) == Ok(Counting(0, |requests|))
    ensures AllManual(requests, n) ==>
              && ServeAll(0, n, requests).Ok? && |ServeAll(0, n, requests).value| == |requests|
              && forall k :: 0 <= k < |requests| ==> requests[k] == Manual(ServeAll(0, n, requests).value[k])
  {
    if requests == [] {
      assert Counting(0, 0) == [];
    } else {
      var rest := requests[1..];
      assert Counting(1, 0) == [] && [0] + Counting(1, |rest|) == Counting(0, |requests|);
      ServeAutomatic(1, n, rest);
      ServeManual(n, rest);
      assert AllAuto(requests, 0, n) <==> requests[0] == Auto && 0 < n && (rest == [] || AllAuto(rest, 1, n));
      assert AllManual(requests, n) <==> requests[0].Manual? && requests[0].index < n && AllManual(rest, n);
    }
  }
}
