/**
How a format string may be spelled: text with doubled braces, and fields with an index and a
layout.  Every string spelled like this is accepted, and means what its parts say.
*/
module FormatTemplates {
  import opened Wrappers
  import opened Decimal
  import opened Powers
  import opened NumberParse
  import opened IntPadding
  import opened ArgList
  import opened FormatGrammar

  // ----- The parts of a field -----

  /** An argument by its turn, or by its number. */
  datatype ArgIndex = InTurn | Numbered(d: string)

  datatype AlignPart = NoAlign | AlignOnly(c: char) | FillAlign(fill: char, c: char)

  datatype WidthPart = NoWidth | Fixed(d: string) | Nested(index: ArgIndex)

  /** What may stand behind the colon, in this order. */
  datatype Layout = Layout(align: AlignPart, sign: Option<char>, hash: bool, zero: bool, width: WidthPart,
                           kind: Option<char>)

  datatype Piece = Text(text: string) | Field(index: ArgIndex, layout: Option<Layout>)

  // ----- Writing a template down -----

  /** Braces are doubled. */
  function EscapedChar(c: char): string {
    if c == '{' || c == '}' then [c, c] else [c]
  }

  function Escaped(text: string): string {
    if text == "" then "" else EscapedChar(text[0]) + Escaped(text[1..])
  }

  function Optional(c: Option<char>): string {
    match c
    case None => ""
    case Some(x) => [x]
  }

  function IndexText(index: ArgIndex): string {
    match index
    case InTurn => ""
    case Numbered(d) => d
  }

  function AlignText(align: AlignPart): string {
    match align
    case NoAlign => ""
    case AlignOnly(c) => [c]
    case FillAlign(fill, c) => [fill, c]
  }

  function WidthText(width: WidthPart): string {
    match width
    case NoWidth => ""
    case Fixed(d) => d
    case Nested(index) => "{" + (IndexText(index) + "}")
  }

  function AfterWidth(l: Layout, tail: string): string {
    Optional(l.kind) + ("}" + tail)
  }

  function AfterZero(l: Layout, tail: string): string {
    WidthText(l.width) + AfterWidth(l, tail)
  }

  function AfterHash(l: Layout, tail: string): string {
    (if l.zero then "0" else "") + AfterZero(l, tail)
  }

  function AfterSign(l: Layout, tail: string): string {
    (if l.hash then "#" else "") + AfterHash(l, tail)
  }

  function AfterAlign(l: Layout, tail: string): string {
    Optional(l.sign) + AfterSign(l, tail)
  }

  /** The layout, the closing brace, and what comes behind the field. */
  function LayoutText(l: Layout, tail: string): string {
    AlignText(l.align) + AfterAlign(l, tail)
  }

  function AfterIndex(layout: Option<Layout>, tail: string): string {
    match layout
    case None => "}" + tail
    case Some(l) => ":" + LayoutText(l, tail)
  }

  function FieldText(index: ArgIndex, layout: Option<Layout>, tail: string): string {
    "{" + (IndexText(index) + AfterIndex(layout, tail))
  }

  /** The pieces, and then `end`. */
  function Rendered(pieces: seq<Piece>, end: string): string {
    if pieces == [] then end
    else
      match pieces[0]
      case Text(text) => Escaped(text) + Rendered(pieces[1..], end)
      case Field(index, layout) => FieldText(index, layout, Rendered(pieces[1..], end))
  }

  // ----- Which templates are allowed -----

  /** Numbers are read up to INT_MAX; a few larger ones are misread. */
  predicate Readable(d: string) {
    d != "" && IsNumeral(d) && (Value(d) <= INT_MAX || Misread(Value(d)))
  }

  function NumberOf(d: string): nat
    requires IsNumeral(d)
  {
    Value(d) % LIMIT_32
  }

  predicate ProperIndex(index: ArgIndex) {
    index.Numbered? ==> Readable(index.d)
  }

  predicate ProperAlign(align: AlignPart) {
    && (align.AlignOnly? ==> align.c in ['<', '>', '=', '^'])
    && (align.FillAlign? ==> align.c in ['<', '>', '=', '^'] && align.fill !in ['{', '}', '\0'])
  }

  predicate ProperWidth(width: WidthPart, zero: bool) {
    && (width.Fixed? ==> Readable(width.d) && (width.d[0] == '0' ==> zero))
    && (width.Nested? ==> ProperIndex(width.index))
  }

  predicate Proper(l: Layout) {
    && ProperAlign(l.align)
    && (l.sign.Some? ==> l.sign.value in ['+', '-', ' '])
    && ProperWidth(l.width, l.zero)
    && (l.kind.Some? ==> l.kind.value in ['d', 'x', 'X', 'b', 'B', 'o'])
  }

  // ----- What they mean -----

  function RequestOf(index: ArgIndex): Request
    requires ProperIndex(index)
  {
    match index
    case InTurn => Auto
    case Numbered(d) => Manual(NumberOf(d))
  }

  /** A width, the numbering behind it, and the arguments asked for. */
  datatype Sized = Sized(width: nat, next: int, asked: seq<Request>)

  ghost function SizeOf(width: WidthPart, next: int, args: seq<Arg>): Option<Sized>
    requires width.Fixed? ==> Readable(width.d)
    requires width.Nested? ==> ProperIndex(width.index)
  {
    match width
    case NoWidth => Some(Sized(0, next, []))
    case Fixed(d) => Some(Sized(NumberOf(d), next, []))
    case Nested(index) =>
      match Serve(next, |args|, RequestOf(index))
      case Err(_) => None
      case Ok((i, next')) =>
        if 0 <= args[i].value <= INT_MAX then Some(Sized(args[i].value, next', [RequestOf(index)])) else None
  }

  /** The zero flag overrides fill and alignment. */
  function SpecOf(l: Layout, width: nat): Spec {
    Spec(width,
         if l.zero then '0' else if l.align.FillAlign? then l.align.fill else ' ',
         if l.zero then Numeric else if l.align.NoAlign? then Default else AlignOf(l.align.c),
         l.sign == Some('+') || l.sign == Some(' '), l.sign == Some('+'), l.hash,
         if l.kind.Some? then l.kind.value else '\0')
  }

  /** What a field writes, the numbering behind it, and the arguments asked for. */
  datatype Filled = Filled(text: string, next: int, asked: seq<Request>)

  ghost function FieldMeaning(index: ArgIndex, layout: Option<Layout>, next: int, args: seq<Arg>): Option<Filled> {
    if !ProperIndex(index) then None
    else
      match Serve(next, |args|, RequestOf(index))
      case Err(_) => None
      case Ok((i, next1)) =>
        match layout
        case None => Some(Filled(Written(args[i].value, DEFAULT_SPEC), next1, [RequestOf(index)]))
        case Some(l) =>
          if !Proper(l) || (l.sign.Some? && !IsSigned(args[i])) then None
          else
            match SizeOf(l.width, next1, args)
            case None => None
            case Some(sized) =>
              Some(Filled(Written(args[i].value, SpecOf(l, sized.width)), sized.next, [RequestOf(index)] + sized.asked))
  }

  function After(text: string, asked: seq<Request>, later: Option<Output>): Option<Output> {
    match later
    case None => None
    case Some(output) => Some(Output(text + output.text, asked + output.asked))
  }

  /** What a template writes, and which arguments it asks for; None if it is not allowed. */
  ghost function Meaning(pieces: seq<Piece>, next: int, args: seq<Arg>): Option<Output>
    decreases |pieces|
  {
    if pieces == [] then Some(Output("", []))
    else
      match pieces[0]
      case Text(text) => if '\0' in text then None else After(text, [], Meaning(pieces[1..], next, args))
      case Field(index, layout) =>
        match FieldMeaning(index, layout, next, args)
        case None => None
        case Some(filled) => After(filled.text, filled.asked, Meaning(pieces[1..], filled.next, args))
  }

  // ----- Numbers -----

  lemma ReadableIff(d: string)
    requires IsNumeral(d)
    ensures Ascending(d) && Value(d) % LIMIT_32 <= INT_MAX <==> Value(d) <= INT_MAX || Misread(Value(d))
  {
    AscendingIffSlips(d);
    if Value(d) < LIMIT_32 {
      SmallWord(Value(d));
    }
  }

  lemma {:induction false} RunOfNumeral(d: string, rest: string, i: nat)
    requires IsNumeral(d) && !IsDigit(Head(rest)) && i <= |d|
    ensures RunEnd(d + rest, i) == |d|
    decreases |d| - i
  {
    if i < |d| {
      assert (d + rest)[i] == d[i];
      RunOfNumeral(d, rest, i + 1);
    }
  }

  lemma NumberRead(d: string, rest: string)
    requires Readable(d) && !IsDigit(Head(rest))
    ensures IsDigit(Head(d + rest)) && ReadNumber(d + rest) == Ok((NumberOf(d), rest))
  {
    RunOfNumeral(d, rest, 0);
    ReadableIff(d);
    assert (d + rest)[..|d|] == d && (d + rest)[|d|..] == rest;
  }

  // ----- One part of a layout after the other -----

  function WithSign(start: Spec, l: Layout): Spec {
    start.(sign := l.sign == Some('+') || l.sign == Some(' '), plus := l.sign == Some('+'))
  }

  function WithZero(start: Spec, l: Layout): Spec {
    if l.zero then start.(align := Numeric, fill := '0') else start
  }

  /** A format to which the parts behind the alignment are added. */
  function WithLater(start: Spec, l: Layout, width: nat): Spec {
    WithZero(WithSign(start, l).(hash := l.hash), l).(width := width, kind := if l.kind.Some? then l.kind.value else '\0')
  }

  function AlignSpec(align: AlignPart): Spec {
    DEFAULT_SPEC.(align := if align.NoAlign? then Default else AlignOf(align.c),
                  fill := if align.FillAlign? then align.fill else ' ')
  }

  lemma HeadOf(a: string, rest: string)
    ensures Head(a + rest) == if a == "" then Head(rest) else a[0]
    ensures a == "" ==> a + rest == rest
    ensures a != "" ==> (a + rest)[|a|..] == rest
  {
  }

  lemma AlignRead(l: Layout, rest: string)
    requires Proper(l) && rest != "" && AlignOf(rest[0]) == Default
    requires l.align.NoAlign? ==> |rest| > 1 ==> AlignOf(rest[1]) == Default
    ensures ParseAlign(AlignText(l.align) + rest) == Ok((AlignSpec(l.align), rest))
  {
    var text := AlignText(l.align) + rest;
    match l.align
    case NoAlign =>
      assert text == rest && (|rest| > 1 ==> Head(rest[1..]) == rest[1]);
    case AlignOnly(c) =>
      assert text[1..] == rest;
    case FillAlign(fill, c) =>
      assert text[1..][0] == c && text[2..] == rest;
  }

  lemma SignRead(l: Layout, start: Spec, rest: string, arg: Arg)
    requires Proper(l) && (l.sign.Some? ==> IsSigned(arg)) && Head(rest) !in ['+', '-', ' ']
    requires !start.sign && !start.plus
    ensures ParseSign(start, Optional(l.sign) + rest, arg) == Ok((WithSign(start, l), rest))
  {
    HeadOf(Optional(l.sign), rest);
  }

  lemma HashRead(l: Layout, start: Spec, rest: string)
    requires Head(rest) != '#' && !start.hash
    ensures ParseHash(start, (if l.hash then "#" else "") + rest) == (start.(hash := l.hash), rest)
  {
    HeadOf(if l.hash then "#" else "", rest);
  }

  lemma ZeroRead(l: Layout, start: Spec, rest: string)
    requires !l.zero ==> Head(rest) != '0'
    ensures ParseZero(start, (if l.zero then "0" else "") + rest) ==
            (WithZero(start, l), rest)
  {
    HeadOf(if l.zero then "0" else "", rest);
  }

  lemma IndexRead(index: ArgIndex, after: string, next: int, n: nat)
    requires ProperIndex(index) && Serve(next, n, RequestOf(index)).Ok? && Head(after) in ['}', ':']
    ensures Head(IndexText(index) + after) != '{' && !IsNameStart(Head(IndexText(index) + after))
    ensures var (i, next') := Serve(next, n, RequestOf(index)).value;
            ParseArgIndex(IndexText(index) + after, next, n) == Ok(Served(RequestOf(index), i, after, next'))
  {
    if index == InTurn {
      assert IndexText(index) + after == after;
    } else {
      NumberRead(index.d, after);
    }
  }

  lemma NestedRead(index: ArgIndex, rest: string, next: int, args: seq<Arg>)
    requires ProperIndex(index) && SizeOf(Nested(index), next, args).Some?
    ensures var sized := SizeOf(Nested(index), next, args).value;
            ParseBraced(IndexText(index) + ("}" + rest), next, args, NegativeWidth) ==
            Ok(Braced(sized.width, rest, sized.next, RequestOf(index)))
  {
    IndexRead(index, "}" + rest, next, |args|);
    assert ("}" + rest)[1..] == rest;
  }

  lemma WidthRead(l: Layout, start: Spec, rest: string, next: int, args: seq<Arg>)
    requires Proper(l) && SizeOf(l.width, next, args).Some? && start.width == 0
    requires !IsDigit(Head(rest)) && Head(rest) != '{'
    ensures var sized := SizeOf(l.width, next, args).value;
            ParseWidth(start, WidthText(l.width) + rest, next, args) ==
            Ok(Parsed(start.(width := sized.width), rest, sized.next, sized.asked))
  {
    match l.width
    case NoWidth =>
      assert WidthText(l.width) + rest == rest;
    case Fixed(d) =>
      NumberRead(d, rest);
    case Nested(index) =>
      var text := WidthText(l.width) + rest;
      assert text == "{" + (IndexText(index) + ("}" + rest));
      assert text[1..] == IndexText(index) + ("}" + rest);
      NestedRead(index, rest, next, args);
  }

  lemma KindRead(l: Layout, start: Spec, rest: string)
    requires Proper(l) && Head(rest) == '}' && start.kind == '\0'
    ensures ParseKind(start, Optional(l.kind) + rest) ==
            (start.(kind := if l.kind.Some? then l.kind.value else '\0'), rest)
  {
    HeadOf(Optional(l.kind), rest);
  }

  // ----- What the later parts can start with -----

  lemma KindHead(l: Layout, tail: string)
    ensures Head(AfterWidth(l, tail)) == if l.kind.Some? then l.kind.value else '}'
  {
    HeadOf(Optional(l.kind), "}" + tail);
  }

  lemma WidthHead(l: Layout, tail: string)
    requires Proper(l)
    ensures Head(AfterZero(l, tail)) ==
            match l.width
            case NoWidth => Head(AfterWidth(l, tail))
            case Fixed(d) => d[0]
            case Nested(_) => '{'
  {
    HeadOf(WidthText(l.width), AfterWidth(l, tail));
  }

  lemma ZeroHead(l: Layout, tail: string)
    ensures Head(AfterHash(l, tail)) == if l.zero then '0' else Head(AfterZero(l, tail))
  {
    HeadOf(if l.zero then "0" else "", AfterZero(l, tail));
  }

  lemma HashHead(l: Layout, tail: string)
    ensures Head(AfterSign(l, tail)) == if l.hash then '#' else Head(AfterHash(l, tail))
  {
    HeadOf(if l.hash then "#" else "", AfterHash(l, tail));
  }

  /** A character that can stand in a layout behind the alignment, or close it. */
  predicate Follows(c: char) {
    c in ['#', '{', '}', 'd', 'x', 'X', 'b', 'B', 'o'] || IsDigit(c)
  }

  lemma Heads(l: Layout, tail: string)
    requires Proper(l)
    ensures !IsDigit(Head(AfterWidth(l, tail))) && Head(AfterWidth(l, tail)) != '{'
    ensures !l.zero ==> Head(AfterZero(l, tail)) != '0'
    ensures Follows(Head(AfterHash(l, tail))) && Head(AfterHash(l, tail)) != '#'
    ensures Follows(Head(AfterSign(l, tail)))
  {
    KindHead(l, tail);
    WidthHead(l, tail);
    ZeroHead(l, tail);
    HashHead(l, tail);
  }

  // ----- No part but the first looks like an alignment -----

  predicate Plain(parts: string) {
    forall k :: 0 <= k < |parts| ==> AlignOf(parts[k]) == Default
  }

  function Parts(l: Layout): string {
    Optional(l.sign) + ((if l.hash then "#" else "") + ((if l.zero then "0" else "")
      + (WidthText(l.width) + (Optional(l.kind) + "}"))))
  }

  lemma PlainIndex(index: ArgIndex)
    requires ProperIndex(index)
    ensures Plain(IndexText(index))
  {
  }

  lemma PlainConcat(a: string, b: string)
    requires Plain(a) && Plain(b)
    ensures Plain(a + b)
  {
  }

  lemma PlainWidth(width: WidthPart, zero: bool)
    requires ProperWidth(width, zero)
    ensures Plain(WidthText(width))
  {
    if width.Nested? {
      PlainIndex(width.index);
      PlainConcat(IndexText(width.index), "}");
      PlainConcat("{", IndexText(width.index) + "}");
    }
  }

  lemma PlainParts(l: Layout)
    requires Proper(l)
    ensures Plain(Parts(l))
  {
    PlainWidth(l.width, l.zero);
    var kind := Optional(l.kind) + "}";
    assert Plain(kind);
    PlainConcat(WidthText(l.width), kind);
    var width := WidthText(l.width) + kind;
    PlainConcat(if l.zero then "0" else "", width);
    var zero := (if l.zero then "0" else "") + width;
    PlainConcat(if l.hash then "#" else "", zero);
    PlainConcat(Optional(l.sign), (if l.hash then "#" else "") + zero);
  }

  lemma FiveParts(a: string, b: string, c: string, d: string, e: string, tail: string)
    ensures a + (b + (c + (d + (e + ("}" + tail))))) == (a + (b + (c + (d + (e + "}"))))) + tail
  {
    assert e + ("}" + tail) == (e + "}") + tail;
    assert d + ((e + "}") + tail) == (d + (e + "}")) + tail;
    assert c + ((d + (e + "}")) + tail) == (c + (d + (e + "}"))) + tail;
    assert b + ((c + (d + (e + "}"))) + tail) == (b + (c + (d + (e + "}")))) + tail;
  }

  lemma PartsThenTail(l: Layout, tail: string)
    ensures AfterAlign(l, tail) == Parts(l) + tail
  {
    FiveParts(Optional(l.sign), if l.hash then "#" else "", if l.zero then "0" else "", WidthText(l.width),
              Optional(l.kind), tail);
  }

  /** Nothing but the closing brace. */
  predicate Bare(l: Layout) {
    l == Layout(NoAlign, None, false, false, NoWidth, None)
  }

  lemma PartsOfBare(l: Layout)
    requires Proper(l) && l.align.NoAlign?
    ensures Bare(l) <==> |Parts(l)| == 1
    ensures |Parts(l)| >= 1
  {
  }

  /** Behind the alignment no character that is looked at as an alignment is one. */
  lemma AlignmentBehind(l: Layout, tail: string)
    requires Proper(l) && (Bare(l) ==> AlignOf(Head(tail)) == Default)
    ensures var rest := AfterAlign(l, tail);
            && rest != "" && AlignOf(rest[0]) == Default
            && (l.align.NoAlign? ==> |rest| > 1 ==> AlignOf(rest[1]) == Default)
  {
    PlainParts(l);
    PartsThenTail(l, tail);
    if l.align.NoAlign? {
      PartsOfBare(l);
    }
    assert |Parts(l)| >= 1;
  }

  // ----- Whole layouts -----

  lemma SpecIsAlignThenLater(l: Layout, width: nat)
    ensures SpecOf(l, width) == WithLater(AlignSpec(l.align), l, width)
  {
  }

  /** The stages behind the alignment, put together. */
  lemma Stages(spec1: Spec, rest1: string, spec2: Spec, rest2: string, spec3: Spec, rest3: string, spec4: Spec,
               rest4: string, parsed: Parsed, spec6: Spec, rest6: string, arg: Arg, next: int, args: seq<Arg>)
    requires ParseSign(spec1, rest1, arg) == Ok((spec2, rest2)) && ParseHash(spec2, rest2) == (spec3, rest3)
    requires ParseZero(spec3, rest3) == (spec4, rest4) && ParseWidth(spec4, rest4, next, args) == Ok(parsed)
    requires Head(parsed.rest) != '.' && ParseKind(parsed.spec, parsed.rest) == (spec6, rest6)
    ensures ParseBehindAlign(spec1, rest1, arg, next, args) == Ok(Parsed(spec6, rest6, parsed.next, parsed.asked))
  {
  }

  lemma FlagsRead(l: Layout, start: Spec, spec2: Spec, spec3: Spec, spec4: Spec, tail: string, arg: Arg)
    requires Proper(l) && (l.sign.Some? ==> IsSigned(arg)) && !start.sign && !start.plus && !start.hash
    requires spec2 == WithSign(start, l) && spec3 == spec2.(hash := l.hash) && spec4 == WithZero(spec3, l)
    ensures ParseSign(start, AfterAlign(l, tail), arg) == Ok((spec2, AfterSign(l, tail)))
    ensures ParseHash(spec2, AfterSign(l, tail)) == (spec3, AfterHash(l, tail))
    ensures ParseZero(spec3, AfterHash(l, tail)) == (spec4, AfterZero(l, tail))
  {
    Heads(l, tail);
    SignRead(l, start, AfterSign(l, tail), arg);
    HashRead(l, spec2, AfterHash(l, tail));
    ZeroRead(l, spec3, AfterZero(l, tail));
  }

  lemma WidthKindRead(l: Layout, spec4: Spec, parsed: Parsed, spec6: Spec, tail: string, next: int, args: seq<Arg>)
    requires Proper(l) && SizeOf(l.width, next, args).Some? && spec4.width == 0 && spec4.kind == '\0'
    requires var sized := SizeOf(l.width, next, args).value;
             parsed == Parsed(spec4.(width := sized.width), AfterWidth(l, tail), sized.next, sized.asked)
    requires spec6 == parsed.spec.(kind := if l.kind.Some? then l.kind.value else '\0')
    ensures ParseWidth(spec4, AfterZero(l, tail), next, args) == Ok(parsed) && Head(parsed.rest) != '.'
    ensures ParseKind(parsed.spec, parsed.rest) == (spec6, "}" + tail)
  {
    Heads(l, tail);
    KindHead(l, tail);
    WidthRead(l, spec4, AfterWidth(l, tail), next, args);
    KindRead(l, parsed.spec, "}" + tail);
  }

  lemma LaterRead(l: Layout, start: Spec, tail: string, arg: Arg, next: int, args: seq<Arg>)
    requires Proper(l) && (l.sign.Some? ==> IsSigned(arg)) && SizeOf(l.width, next, args).Some?
    requires start.width == 0 && !start.sign && !start.plus && !start.hash && start.kind == '\0'
    ensures var sized := SizeOf(l.width, next, args).value;
            ParseBehindAlign(start, AfterAlign(l, tail), arg, next, args) ==
            Ok(Parsed(WithLater(start, l, sized.width), "}" + tail, sized.next, sized.asked))
  {
    var sized := SizeOf(l.width, next, args).value;
    var spec2 := WithSign(start, l);
    var spec3 := spec2.(hash := l.hash);
    var spec4 := WithZero(spec3, l);
    var parsed := Parsed(spec4.(width := sized.width), AfterWidth(l, tail), sized.next, sized.asked);
    var spec6 := WithLater(start, l, sized.width);
    FlagsRead(l, start, spec2, spec3, spec4, tail, arg);
    WidthKindRead(l, spec4, parsed, spec6, tail, next, args);
    Stages(start, AfterAlign(l, tail), spec2, AfterSign(l, tail), spec3, AfterHash(l, tail), spec4, AfterZero(l, tail),
           parsed, spec6, "}" + tail, arg, next, args);
  }

  lemma AlignThenLater(rest: string, spec: Spec, rest1: string, arg: Arg, next: int, args: seq<Arg>)
    requires ParseAlign(rest) == Ok((spec, rest1))
    ensures ParseSpec(rest, arg, next, args) == ParseBehindAlign(spec, rest1, arg, next, args)
  {
  }

  /** A bare layout takes its alignment from behind the brace, where there is one. */
  lemma BareRead(l: Layout, tail: string, arg: Arg, next: int, args: seq<Arg>)
    requires Bare(l) && AlignOf(Head(tail)) != Default
    ensures ParseSpec(LayoutText(l, tail), arg, next, args) ==
            Ok(Parsed(DEFAULT_SPEC.(align := AlignOf(Head(tail))), "}" + tail, next, []))
  {
    var spec := DEFAULT_SPEC.(align := AlignOf(Head(tail)));
    assert AfterAlign(l, tail) == "}" + tail && LayoutText(l, tail) == "}" + tail && ("}" + tail)[1..] == tail;
    AlignThenLater("}" + tail, spec, "}" + tail, arg, next, args);
    LaterRead(l, spec, tail, arg, next, args);
  }

  /** Layouts are read back; the alignment of a bare one does not matter. */
  lemma LayoutRead(l: Layout, tail: string, arg: Arg, next: int, args: seq<Arg>) returns (spec: Spec)
    requires Proper(l) && (l.sign.Some? ==> IsSigned(arg)) && SizeOf(l.width, next, args).Some?
    ensures var sized := SizeOf(l.width, next, args).value;
            && ParseSpec(LayoutText(l, tail), arg, next, args) == Ok(Parsed(spec, "}" + tail, sized.next, sized.asked))
            && (spec == SpecOf(l, sized.width) || (Bare(l) && spec == DEFAULT_SPEC.(align := AlignOf(Head(tail)))))
  {
    var width := SizeOf(l.width, next, args).value.width;
    if Bare(l) && AlignOf(Head(tail)) != Default {
      spec := DEFAULT_SPEC.(align := AlignOf(Head(tail)));
      BareRead(l, tail, arg, next, args);
    } else {
      spec := SpecOf(l, width);
      AlignmentBehind(l, tail);
      AlignRead(l, AfterAlign(l, tail));
      AlignThenLater(LayoutText(l, tail), AlignSpec(l.align), AfterAlign(l, tail), arg, next, args);
      LaterRead(l, AlignSpec(l.align), tail, arg, next, args);
      SpecIsAlignThenLater(l, width);
    }
  }

  /** Without a width the alignment does not show. */
  lemma NoWidthNoAlign(v: int, align: Alignment)
    ensures Written(v, DEFAULT_SPEC.(align := align)) == Written(v, DEFAULT_SPEC)
  {
    var spec := DEFAULT_SPEC.(align := align);
    PaddedNarrow(spec, Prefix(v, spec), Digits(Abs(v), spec.kind));
    PaddedNarrow(DEFAULT_SPEC, Prefix(v, DEFAULT_SPEC), Digits(Abs(v), '\0'));
  }

  lemma FormatRead(served: Served, l: Layout, tail: string, args: seq<Arg>) returns (spec: Spec)
    requires served.index < |args| && served.rest == ":" + LayoutText(l, tail)
    requires Proper(l) && (l.sign.Some? ==> IsSigned(args[served.index])) && SizeOf(l.width, served.next, args).Some?
    ensures var sized := SizeOf(l.width, served.next, args).value;
            && IsKind(spec.kind)
            && ParseFormat(served, args) ==
               Ok(FieldResult(served.index, spec, tail, sized.next, [served.request] + sized.asked))
            && Written(args[served.index].value, spec) == Written(args[served.index].value, SpecOf(l, sized.width))
  {
    assert served.rest[1..] == LayoutText(l, tail) && ("}" + tail)[1..] == tail;
    spec := LayoutRead(l, tail, args[served.index], served.next, args);
    if spec != SpecOf(l, SizeOf(l.width, served.next, args).value.width) {
      NoWidthNoAlign(args[served.index].value, spec.align);
    }
  }

  lemma NoFormatRead(served: Served, tail: string, args: seq<Arg>)
    requires served.index < |args| && served.rest == "}" + tail
    ensures ParseFormat(served, args) == Ok(FieldResult(served.index, DEFAULT_SPEC, tail, served.next, [served.request]))
  {
    assert ("}" + tail)[1..] == tail && [served.request] + [] == [served.request];
  }

  lemma FieldOfFormat(rest: string, served: Served, field: FieldResult, next: int, args: seq<Arg>)
    requires !IsNameStart(Head(rest)) && ParseArgIndex(rest, next, |args|) == Ok(served)
    requires ParseFormat(served, args) == Ok(field)
    ensures ParseField(rest, next, args) == Ok(field)
  {
  }

  /** A whole field is read back. */
  lemma FieldRead(index: ArgIndex, layout: Option<Layout>, tail: string, next: int, args: seq<Arg>)
    requires FieldMeaning(index, layout, next, args).Some?
    ensures var filled, text := FieldMeaning(index, layout, next, args).value, FieldText(index, layout, tail);
            && text[0] == '{' && Head(text[1..]) != '{'
            && var r := ParseField(text[1..], next, args);
            && r.Ok? && r.value.rest == tail && r.value.next == filled.next && r.value.asked == filled.asked
            && Written(args[r.value.index].value, r.value.spec) == filled.text
  {
    var (i, next1) := Serve(next, |args|, RequestOf(index)).value;
    var rest := IndexText(index) + AfterIndex(layout, tail);
    assert FieldText(index, layout, tail)[1..] == rest;
    IndexRead(index, AfterIndex(layout, tail), next, |args|);
    var served := Served(RequestOf(index), i, AfterIndex(layout, tail), next1);
    match layout
    case None =>
      NoFormatRead(served, tail, args);
      FieldOfFormat(rest, served, FieldResult(i, DEFAULT_SPEC, tail, next1, [RequestOf(index)]), next, args);
    case Some(l) =>
      var spec := FormatRead(served, l, tail, args);
      var sized := SizeOf(l.width, next1, args).value;
      FieldOfFormat(rest, served, FieldResult(i, spec, tail, sized.next, [RequestOf(index)] + sized.asked), next, args);
  }

  // ----- Whole templates -----

  lemma CharRead(c: char, later: string, next: int, args: seq<Arg>)
    requires c != '\0'
    ensures Format(EscapedChar(c) + later, next, args) == Prepend([c], [], Format(later, next, args))
  {
    if c == '{' || c == '}' {
      assert ([c, c] + later)[2..] == later && ([c, c] + later)[1..][0] == c;
    } else {
      assert ([c] + later)[1..] == later;
    }
  }

  lemma EscapedFirst(text: string, rest: string)
    requires text != ""
    ensures Escaped(text) + rest == EscapedChar(text[0]) + (Escaped(text[1..]) + rest)
  {
  }

  lemma PrependFirst(text: string, r: Result<Output, FormatError>)
    requires text != ""
    ensures Prepend([text[0]], [], Prepend(text[1..], [], r)) == Prepend(text, [], r)
  {
    var none: seq<Request> := [];
    PrependTwice([text[0]], text[1..], none, none, r);
    assert [text[0]] + text[1..] == text && none + none == none;
  }

  /** Escaped text is written as it was. */
  lemma {:induction false} TextRead(text: string, rest: string, next: int, args: seq<Arg>)
    requires '\0' !in text
    ensures Format(Escaped(text) + rest, next, args) == Prepend(text, [], Format(rest, next, args))
  {
    if text == "" {
      assert Escaped(text) + rest == rest;
      NothingBefore(Format(rest, next, args));
    } else {
      assert text[0] in text && forall c :: c in text[1..] ==> c in text;
      EscapedFirst(text, rest);
      CharRead(text[0], Escaped(text[1..]) + rest, next, args);
      TextRead(text[1..], rest, next, args);
      PrependFirst(text, Format(rest, next, args));
    }
  }

  lemma FieldFirst(rest: string, next: int, args: seq<Arg>)
    requires rest != "" && rest[0] == '{' && Head(rest[1..]) != '{' && ParseField(rest[1..], next, args).Ok?
    ensures var field := ParseField(rest[1..], next, args).value;
            Format(rest, next, args) ==
              Prepend(Written(args[field.index].value, field.spec), field.asked, Format(field.rest, field.next, args))
  {
  }

  /** The end of a format string: nothing, or a NUL with anything behind it. */
  predicate Ends(end: string) {
    end == "" || end[0] == '\0'
  }

  /** The numbering behind the pieces. */
  ghost function NextOf(pieces: seq<Piece>, next: int, args: seq<Arg>): int
    requires Meaning(pieces, next, args).Some?
    decreases |pieces|
  {
    if pieces == [] then next
    else
      match pieces[0]
      case Text(_) => NextOf(pieces[1..], next, args)
      case Field(index, layout) => NextOf(pieces[1..], FieldMeaning(index, layout, next, args).value.next, args)
  }

  /** An allowed template is read, whatever comes behind it. */
  lemma {:induction false} RenderedThen(pieces: seq<Piece>, rest: string, next: int, args: seq<Arg>)
    requires Meaning(pieces, next, args).Some?
    ensures var m := Meaning(pieces, next, args).value;
            Format(Rendered(pieces, rest), next, args) ==
            Prepend(m.text, m.asked, Format(rest, NextOf(pieces, next, args), args))
    decreases |pieces|
  {
    var none: seq<Request> := [];
    var r := Format(rest, NextOf(pieces, next, args), args);
    if pieces == [] {
      NothingBefore(r);
    } else {
      match pieces[0]
      case Text(text) =>
        var m := Meaning(pieces[1..], next, args).value;
        RenderedThen(pieces[1..], rest, next, args);
        TextRead(text, Rendered(pieces[1..], rest), next, args);
        PrependTwice(text, m.text, none, m.asked, r);
      case Field(index, layout) =>
        var filled := FieldMeaning(index, layout, next, args).value;
        var m := Meaning(pieces[1..], filled.next, args).value;
        RenderedThen(pieces[1..], rest, filled.next, args);
        FieldRead(index, layout, Rendered(pieces[1..], rest), next, args);
        FieldFirst(FieldText(index, layout, Rendered(pieces[1..], rest)), next, args);
        PrependTwice(filled.text, m.text, filled.asked, m.asked, r);
    }
  }

  /** Every template that is allowed is accepted when written down, and means what its pieces say. */
  lemma FormatOfRendered(pieces: seq<Piece>, end: string, next: int, args: seq<Arg>)
    requires Ends(end) && Meaning(pieces, next, args).Some?
    ensures Format(Rendered(pieces, end), next, args) == Ok(Meaning(pieces, next, args).value)
  {
    var none: seq<Request> := [];
    var m := Meaning(pieces, next, args).value;
    RenderedThen(pieces, end, next, args);
    assert m.text + "" == m.text && m.asked + none == m.asked;
    assert Format(end, NextOf(pieces, next, args), args) == Ok(Output("", none));
  }

  /** In particular doubling the braces of a text makes a format string that writes the text. */
  lemma FormatOfEscaped(text: string, args: seq<Arg>)
    requires '\0' !in text
    ensures Format(Escaped(text), 0, args) == Ok(Output(text, []))
  {
    var none: seq<Request> := [];
    TextRead(text, "", 0, args);
    assert Escaped(text) + "" == Escaped(text) && text + "" == text && none + none == none;
    assert Format("", 0, args) == Ok(Output("", none));
  }
}
