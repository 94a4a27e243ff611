/**
What BasicFormatter::format of format.h accepts and writes, for arguments of the four integer
types: text with doubled braces, and replacement fields with an index and a format.
*/
module FormatGrammar {
  import opened Wrappers
  import opened Decimal
  import opened Powers
  import opened NumberParse
  import opened IntPadding
  import opened ArgList

  const INT: Tag := 2
  const UINT: Tag := 3
  const LONG_LONG: Tag := 4
  const ULONG_LONG: Tag := 5

  predicate IsSigned(arg: Arg) {
    arg.tag == INT || arg.tag == LONG_LONG
  }

  /** An argument of an integer type, within the range of its type. */
  predicate IsInteger(arg: Arg) {
    || (arg.tag == INT && -0x8000_0000 <= arg.value < 0x8000_0000)
    || (arg.tag == UINT && 0 <= arg.value < 0x1_0000_0000)
    || (arg.tag == LONG_LONG && -0x8000_0000_0000_0000 <= arg.value < 0x8000_0000_0000_0000)
    || (arg.tag == ULONG_LONG && 0 <= arg.value < 0x1_0000_0000_0000_0000)
  }

  ghost predicate AreIntegers(args: seq<Arg>) {
    forall k :: 0 <= k < |args| ==> IsInteger(args[k])
  }

  datatype FormatError =
    | UnmatchedBrace | InvalidFill | UnsignedArgument | NumberTooBig | NegativeWidth | Index(problem: IndexError)
    | NoSuchName | MissingPrecision | NegativePrecision | PrecisionNotAllowed | MissingBrace | InvalidFormat | UnknownType

  const DEFAULT_SPEC: Spec := Spec(0, ' ', Default, false, false, false, '\0')

  /** The next character; NUL ends the string. */
  function Head(rest: string): char {
    if rest == "" then '\0' else rest[0]
  }

  predicate IsNameStart(c: char) {
    'a' <= c <= 'z' || 'A' <= c <= 'Z' || c == '_'
  }

  // ----- Argument indices -----

  ghost function ReadNumber(rest: string): (r: Result<(nat, string), FormatError>)
    requires IsDigit(Head(rest))
    ensures r.Ok? ==> |r.value.1| <= |rest|
  {
    var d := rest[..RunEnd(rest, 0)];
    if Ascending(d) && Value(d) % LIMIT_32 <= INT_MAX then Ok((Value(d) % LIMIT_32, rest[|d|..])) else Err(NumberTooBig)
  }

  ghost function Asked(rest: string): (r: Result<(Request, string), FormatError>)
    ensures r.Ok? ==> |r.value.1| <= |rest|
  {
    if !IsDigit(Head(rest)) then Ok((Auto, rest))
    else
      match ReadNumber(rest)
      case Err(e) => Err(e)
      case Ok((index, rest')) => Ok((Manual(index), rest'))
  }

  /** An argument that was found. */
  datatype Served = Served(request: Request, index: nat, rest: string, next: int)

  /** parse_arg_index for `n` arguments. */
  ghost function ParseArgIndex(rest: string, next: int, n: nat): (r: Result<Served, FormatError>)
    ensures r.Ok? ==> |r.value.rest| <= |rest| && r.value.index < n
    ensures r.Ok? ==> Serve(next, n, r.value.request) == Ok((r.value.index, r.value.next))
  {
    match Asked(rest)
    case Err(e) => Err(e)
    case Ok((request, rest')) =>
      match Serve(next, n, request)
      case Err(e) => Err(if Head(rest') in ['}', ':'] then Index(e) else InvalidFormat)
      case Ok((index, next')) => Ok(Served(request, index, rest', next'))
  }

  /** A name; the arguments have none. */
  function NameError(next: int): FormatError {
    if next > 0 then Index(AutomaticToManual) else NoSuchName
  }

  // ----- The format of a field -----

  function AlignOf(c: char): Alignment {
    if c == '<' then AlignLeft
    else if c == '>' then AlignRight
    else if c == '=' then Numeric
    else if c == '^' then Center else Default
  }

  /** Fill and alignment, or an alignment alone. */
  function ParseAlign(rest: string): (r: Result<(Spec, string), FormatError>)
    ensures r.Ok? ==> |r.value.1| <= |rest|
  {
    var c := Head(rest);
    if c == '\0' then Ok((DEFAULT_SPEC, rest))
    else if AlignOf(Head(rest[1..])) != Default then
      var align := AlignOf(Head(rest[1..]));
      if c == '}' then Ok((DEFAULT_SPEC.(align := align), rest))
      else if c == '{' then Err(InvalidFill)
      else Ok((DEFAULT_SPEC.(align := align, fill := c), rest[2..]))
    else if AlignOf(c) != Default then Ok((DEFAULT_SPEC.(align := AlignOf(c)), rest[1..]))
    else Ok((DEFAULT_SPEC, rest))
  }

  function ParseSign(spec: Spec, rest: string, arg: Arg): (r: Result<(Spec, string), FormatError>)
    ensures r.Ok? ==> |r.value.1| <= |rest|
  {
    if Head(rest) !in ['+', '-', ' '] then Ok((spec, rest))
    else if !IsSigned(arg) then Err(UnsignedArgument)
    else Ok((spec.(sign := rest[0] != '-', plus := rest[0] == '+'), rest[1..]))
  }

  function ParseHash(spec: Spec, rest: string): (r: (Spec, string))
    ensures |r.1| <= |rest|
  {
    if Head(rest) == '#' then (spec.(hash := true), rest[1..]) else (spec, rest)
  }

  function ParseZero(spec: Spec, rest: string): (r: (Spec, string))
    ensures |r.1| <= |rest|
  {
    if Head(rest) == '0' then (spec.(align := Numeric, fill := '0'), rest[1..]) else (spec, rest)
  }

  /** A format with what was read to get it. */
  datatype Parsed = Parsed(spec: Spec, rest: string, next: int, asked: seq<Request>)

  /** None or one request, served from `next` on. */
  ghost predicate ServedFrom(asked: seq<Request>, next: int, n: nat, next': int) {
    if asked == [] then next' == next
    else |asked| == 1 && Serve(next, n, asked[0]).Ok? && Serve(next, n, asked[0]).value.1 == next'
  }

  /** The value of an argument in braces, read from behind the opening brace. */
  datatype Braced = Braced(count: nat, rest: string, next: int, request: Request)

  ghost function ParseBraced(rest: string, next: int, args: seq<Arg>, negative: FormatError)
      : (r: Result<Braced, FormatError>)
    ensures r.Ok? ==> |r.value.rest| <= |rest| && ServedFrom([r.value.request], next, |args|, r.value.next)
  {
    if IsNameStart(Head(rest)) then Err(NameError(next))
    else
      match ParseArgIndex(rest, next, |args|)
      case Err(e) => Err(e)
      case Ok(served) =>
        var count := args[served.index].value;
        if Head(served.rest) != '}' then Err(InvalidFormat)
        else if count < 0 then Err(negative)
        else if count > INT_MAX then Err(NumberTooBig)
        else Ok(Braced(count, served.rest[1..], served.next, served.request))
  }

  /** A number, or an argument in braces. */
  ghost function ParseWidth(spec: Spec, rest: string, next: int, args: seq<Arg>): (r: Result<Parsed, FormatError>)
    ensures r.Ok? ==> |r.value.rest| <= |rest| && ServedFrom(r.value.asked, next, |args|, r.value.next)
  {
    if IsDigit(Head(rest)) then
      match ReadNumber(rest)
      case Err(e) => Err(e)
      case Ok((width, rest')) => Ok(Parsed(spec.(width := width), rest', next, []))
    else if Head(rest) != '{' then Ok(Parsed(spec, rest, next, []))
    else
      match ParseBraced(rest[1..], next, args, NegativeWidth)
      case Err(e) => Err(e)
      case Ok(braced) => Ok(Parsed(spec.(width := braced.count), braced.rest, braced.next, [braced.request]))
  }

  /** A precision is an error for integers, once it has been read without another error. */
  ghost function PrecisionError(rest: string, next: int, args: seq<Arg>): FormatError {
    if IsDigit(Head(rest)) then
      match ReadNumber(rest)
      case Err(e) => e
      case Ok(_) => PrecisionNotAllowed
    else if Head(rest) != '{' then MissingPrecision
    else
      match ParseBraced(rest[1..], next, args, NegativePrecision)
      case Err(e) => e
      case Ok(_) => PrecisionNotAllowed
  }

  function ParseKind(spec: Spec, rest: string): (r: (Spec, string))
    ensures |r.1| <= |rest|
  {
    if Head(rest) in ['}', '\0'] then (spec, rest) else (spec.(kind := rest[0]), rest[1..])
  }

  /** The parts of a format behind the alignment. */
  ghost function ParseBehindAlign(spec1: Spec, rest1: string, arg: Arg, next: int, args: seq<Arg>)
      : (r: Result<Parsed, FormatError>)
    ensures r.Ok? ==> |r.value.rest| <= |rest1| && ServedFrom(r.value.asked, next, |args|, r.value.next)
  {
    match ParseSign(spec1, rest1, arg)
    case Err(e) => Err(e)
    case Ok((spec2, rest2)) =>
      var (spec3, rest3) := ParseHash(spec2, rest2);
      var (spec4, rest4) := ParseZero(spec3, rest3);
      match ParseWidth(spec4, rest4, next, args)
      case Err(e) => Err(e)
      case Ok(parsed) =>
        if Head(parsed.rest) == '.' then Err(PrecisionError(parsed.rest[1..], parsed.next, args))
        else
          var (spec6, rest6) := ParseKind(parsed.spec, parsed.rest);
          Ok(Parsed(spec6, rest6, parsed.next, parsed.asked))
  }

  /** What follows the colon, up to the closing brace. */
  ghost function ParseSpec(rest: string, arg: Arg, next: int, args: seq<Arg>): (r: Result<Parsed, FormatError>)
    ensures r.Ok? ==> |r.value.rest| <= |rest| && ServedFrom(r.value.asked, next, |args|, r.value.next)
  {
    match ParseAlign(rest)
    case Err(e) => Err(e)
    case Ok((spec, rest')) => ParseBehindAlign(spec, rest', arg, next, args)
  }

  // ----- Fields and whole strings -----

  datatype FieldResult = FieldResult(index: nat, spec: Spec, rest: string, next: int, asked: seq<Request>)

  /** The format of a field whose argument is known, and its closing brace. */
  ghost function ParseFormat(served: Served, args: seq<Arg>): (r: Result<FieldResult, FormatError>)
    requires served.index < |args|
    ensures r.Ok? ==> |r.value.rest| <= |served.rest| && r.value.index == served.index && IsKind(r.value.spec.kind)
    ensures r.Ok? ==> |r.value.asked| >= 1 && r.value.asked[0] == served.request
    ensures r.Ok? ==> ServedFrom(r.value.asked[1..], served.next, |args|, r.value.next)
  {
    var parsed := if Head(served.rest) != ':' then Ok(Parsed(DEFAULT_SPEC, served.rest, served.next, []))
                  else ParseSpec(served.rest[1..], args[served.index], served.next, args);
    match parsed
    case Err(e) => Err(e)
    case Ok(p) =>
      if Head(p.rest) != '}' then Err(MissingBrace)
      else if !IsKind(p.spec.kind) then Err(UnknownType)
      else
        assert ([served.request] + p.asked)[1..] == p.asked;
        Ok(FieldResult(served.index, p.spec, p.rest[1..], p.next, [served.request] + p.asked))
  }

  lemma OneOrTwo(request: Request, asked: seq<Request>, index: nat, next: int, next1: int, n: nat, next2: int)
    requires Serve(next, n, request) == Ok((index, next1)) && ServedFrom(asked, next1, n, next2)
    ensures forall later :: ServeAll(next2, n, later).Ok? ==> ServeAll(next, n, [request] + asked + later).Ok?
  {
    forall later | ServeAll(next2, n, later).Ok? ensures ServeAll(next, n, [request] + asked + later).Ok? {
      assert ([request] + asked + later)[1..] == asked + later;
      if asked == [] {
        assert asked + later == later;
      } else {
        assert (asked + later)[1..] == later;
      }
    }
  }

  /** A replacement field, after its opening brace. */
  ghost function ParseField(rest: string, next: int, args: seq<Arg>): (r: Result<FieldResult, FormatError>)
    ensures r.Ok? ==> |r.value.rest| <= |rest| && r.value.index < |args| && IsKind(r.value.spec.kind)
    ensures r.Ok? ==> forall later :: ServeAll(r.value.next, |args|, later).Ok? ==>
              ServeAll(next, |args|, r.value.asked + later).Ok?
  {
    if IsNameStart(Head(rest)) then Err(NameError(next))
    else
      match ParseArgIndex(rest, next, |args|)
      case Err(e) => Err(e)
      case Ok(served) =>
        match ParseFormat(served, args)
        case Err(e) => Err(e)
        case Ok(field) =>
          OneOrTwo(served.request, field.asked[1..], served.index, next, served.next, |args|, field.next);
          assert [served.request] + field.asked[1..] == field.asked;
          Ok(field)
  }

  /** What was written, and which arguments were asked for on the way. */
  datatype Output = Output(text: string, asked: seq<Request>)

  function Prepend(text: string, asked: seq<Request>, r: Result<Output, FormatError>): Result<Output, FormatError> {
    match r
    case Err(e) => Err(e)
    case Ok(output) => Ok(Output(text + output.text, asked + output.asked))
  }

  /** From a point of the format string on. */
  ghost function Format(rest: string, next: int, args: seq<Arg>): Result<Output, FormatError>
    decreases |rest|
  {
    var c := Head(rest);
    if c == '\0' then Ok(Output("", []))
    else if c != '{' && c != '}' then Prepend([c], [], Format(rest[1..], next, args))
    else if Head(rest[1..]) == c then Prepend([c], [], Format(rest[2..], next, args))
    else if c == '}' then Err(UnmatchedBrace)
    else
      match ParseField(rest[1..], next, args)
      case Err(e) => Err(e)
      case Ok(field) =>
        Prepend(Written(args[field.index].value, field.spec), field.asked, Format(field.rest, field.next, args))
  }

  lemma PrependTwice(a: string, b: string, first: seq<Request>, asked: seq<Request>, r: Result<Output, FormatError>)
    ensures Prepend(a, first, Prepend(b, asked, r)) == Prepend(a + b, first + asked, r)
  {
    if r.Ok? {
      assert a + (b + r.value.text) == a + b + r.value.text;
      assert first + (asked + r.value.asked) == first + asked + r.value.asked;
    }
  }

  lemma NothingBefore(r: Result<Output, FormatError>)
    ensures Prepend("", [], r) == r
  {
    if r.Ok? {
      assert "" + r.value.text == r.value.text && [] + r.value.asked == r.value.asked;
    }
  }

  /** All the requests of an accepted format string were served, one after another. */
  lemma {:induction false} AskedAreServed(rest: string, next: int, args: seq<Arg>)
    requires Format(rest, next, args).Ok?
    ensures ServeAll(next, |args|, Format(rest, next, args).value.asked).Ok?
    decreases |rest|
  {
    var c := Head(rest);
    if c == '\0' {
    } else if (c != '{' && c != '}') || Head(rest[1..]) == c {
      var later := if Head(rest[1..]) == c && c in ['{', '}'] then rest[2..] else rest[1..];
      AskedAreServed(later, next, args);
      assert [] + Format(later, next, args).value.asked == Format(later, next, args).value.asked;
    } else {
      var field := ParseField(rest[1..], next, args).value;
      AskedAreServed(field.rest, field.next, args);
    }
  }

  /** In an accepted format string the arguments are all numbered automatically or all by hand. */
  lemma NoMixedNumbering(text: string, args: seq<Arg>)
    requires Format(text, 0, args).Ok?
    ensures var asked := Format(text, 0, args).value.asked;
            AllAuto(asked, 0, |args|) || AllManual(asked, |args|)
  {
    AskedAreServed(text, 0, args);
    ServeAllIff(|args|, Format(text, 0, args).value.asked);
  }
}
