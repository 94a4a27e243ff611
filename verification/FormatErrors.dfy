/** With which error a format string is refused, and where. */
module FormatErrors {
  import opened Wrappers
  import opened Decimal
  import opened NumberParse
  import opened ArgList
  import opened FormatGrammar
  import opened FormatTemplates
  import opened FormatExact

  // ----- Whole strings -----

  /** A closing brace by itself, or an opening one in front of what is no field. */
  ghost predicate Faulty(bad: string, next: int, args: seq<Arg>, e: FormatError) {
    && bad != "" && Head(bad[1..]) != bad[0]
    && ((bad[0] == '}' && e == UnmatchedBrace) || (bad[0] == '{' && ParseField(bad[1..], next, args) == Err(e)))
  }

  lemma FaultRead(bad: string, next: int, args: seq<Arg>, e: FormatError)
    requires Faulty(bad, next, args, e)
    ensures Format(bad, next, args) == Err(e)
  {
  }

  /** What stands in front of the fault, and what begins with it. */
  ghost predicate FaultAt(text: string, pieces: seq<Piece>, bad: string, next: int, args: seq<Arg>, e: FormatError) {
    && text == Rendered(pieces, bad) && Meaning(pieces, next, args).Some?
    && Faulty(bad, NextOf(pieces, next, args), args, e)
  }

  lemma FaultBehindText(c: char, later: string, pieces: seq<Piece>, bad: string, next: int, args: seq<Arg>,
                        e: FormatError)
    requires c != '\0' && FaultAt(later, pieces, bad, next, args, e)
    ensures FaultAt(EscapedChar(c) + later, [Text([c])] + pieces, bad, next, args, e)
  {
    assert ([Text([c])] + pieces)[1..] == pieces;
    assert Escaped([c]) == EscapedChar(c) + "" && EscapedChar(c) + "" == EscapedChar(c);
  }

  lemma FaultBehindField(index: ArgIndex, layout: Option<Layout>, filled: Filled, later: string, pieces: seq<Piece>,
                         bad: string, next: int, args: seq<Arg>, e: FormatError)
    requires FieldMeaning(index, layout, next, args) == Some(filled)
    requires FaultAt(later, pieces, bad, filled.next, args, e)
    ensures FaultAt(FieldText(index, layout, later), [Field(index, layout)] + pieces, bad, next, args, e)
  {
    assert ([Field(index, layout)] + pieces)[1..] == pieces;
  }

  lemma ErrorBehindText(c: char, later: string, next: int, args: seq<Arg>)
    requires c != '\0' && Format(EscapedChar(c) + later, next, args).Err?
    ensures Format(later, next, args) == Format(EscapedChar(c) + later, next, args)
  {
    CharRead(c, later, next, args);
  }

  lemma ErrorBehindField(text: string, field: FieldResult, next: int, args: seq<Arg>)
    requires text != "" && text[0] == '{' && Head(text[1..]) != '{' && ParseField(text[1..], next, args) == Ok(field)
    requires Format(text, next, args).Err?
    ensures Format(field.rest, field.next, args) == Format(text, next, args)
  {
    FieldFirst(text, next, args);
  }

  lemma FaultHere(text: string, next: int, args: seq<Arg>)
    requires text != "" && text[0] in ['{', '}'] && Head(text[1..]) != text[0] && Format(text, next, args).Err?
    requires text[0] == '{' ==> ParseField(text[1..], next, args).Err?
    ensures FaultAt(text, [], text, next, args, Format(text, next, args).error)
  {
  }

  lemma {:induction false} FindFault(text: string, next: int, args: seq<Arg>, e: FormatError)
    returns (pieces: seq<Piece>, bad: string)
    requires Format(text, next, args) == Err(e)
    ensures FaultAt(text, pieces, bad, next, args, e)
    decreases |text|
  {
    var c := Head(text);
    if (c != '{' && c != '}') || Head(text[1..]) == c {
      var later := text[|EscapedChar(c)|..];
      assert text == EscapedChar(c) + later;
      ErrorBehindText(c, later, next, args);
      pieces, bad := FindFault(later, next, args, e);
      FaultBehindText(c, later, pieces, bad, next, args, e);
      pieces := [Text([c])] + pieces;
    } else if c == '{' && ParseField(text[1..], next, args).Ok? {
      var field := ParseField(text[1..], next, args).value;
      var index, layout := SpellField(text[1..], next, args);
      assert text == FieldText(index, layout, field.rest);
      ErrorBehindField(text, field, next, args);
      pieces, bad := FindFault(field.rest, field.next, args, e);
      var filled := FieldMeaning(index, layout, next, args).value;
      FaultBehindField(index, layout, filled, field.rest, pieces, bad, next, args, e);
      pieces := [Field(index, layout)] + pieces;
    } else {
      FaultHere(text, next, args);
      pieces, bad := [], text;
    }
  }

  /**
  A format string is refused with an error exactly if, behind an allowed template, there is a
  closing brace by itself or a field that is refused with that error.
  */
  lemma RefusedIff(text: string, next: int, args: seq<Arg>, e: FormatError)
    ensures Format(text, next, args) == Err(e) <==> exists pieces, bad :: FaultAt(text, pieces, bad, next, args, e)
  {
    if Format(text, next, args) == Err(e) {
      var pieces, bad := FindFault(text, next, args, e);
    }
    if pieces, bad :| FaultAt(text, pieces, bad, next, args, e) {
      RenderedThen(pieces, bad, next, args);
      FaultRead(bad, NextOf(pieces, next, args), args, e);
    }
  }

  // ----- Fields: the index -----

  /** The arguments have no names. */
  lemma NameRefused(rest: string, next: int, args: seq<Arg>)
    requires rest != "" && ('a' <= rest[0] <= 'z' || 'A' <= rest[0] <= 'Z' || rest[0] == '_')
    ensures ParseField(rest, next, args) == Err(if next > 0 then Index(AutomaticToManual) else NoSuchName)
  {
  }

  /** The index ends here. */
  predicate IndexEnds(index: ArgIndex, tail: string) {
    ProperIndex(index) && !IsDigit(Head(tail)) && (index.InTurn? ==> !IsNameStart(Head(tail)))
  }

  lemma IndexAsked(index: ArgIndex, tail: string, next: int, n: nat)
    requires IndexEnds(index, tail)
    ensures !IsNameStart(Head(IndexText(index) + tail))
    ensures ParseArgIndex(IndexText(index) + tail, next, n) ==
            match Serve(next, n, RequestOf(index))
            case Err(e) => Err(if tail != "" && tail[0] in ['}', ':'] then Index(e) else InvalidFormat)
            case Ok((i, next1)) => Ok(Served(RequestOf(index), i, tail, next1))
  {
    if index.InTurn? {
      assert IndexText(index) + tail == tail;
    } else {
      NumberRead(index.d, tail);
    }
  }

  /** Numbering that changes sides, or an argument that is not there. */
  lemma IndexRefused(index: ArgIndex, tail: string, next: int, args: seq<Arg>)
    requires IndexEnds(index, tail) && Serve(next, |args|, RequestOf(index)).Err?
    ensures ParseField(IndexText(index) + tail, next, args) ==
            Err(if tail != "" && tail[0] in ['}', ':'] then Index(Serve(next, |args|, RequestOf(index)).error)
                else InvalidFormat)
  {
    IndexAsked(index, tail, next, |args|);
  }

  /** A number beyond INT_MAX, but for the misread ones. */
  predicate TooBig(d: string, tail: string) {
    IsNumeral(d) && d != "" && Value(d) > INT_MAX && !Misread(Value(d)) && !IsDigit(Head(tail))
  }

  lemma BigRefused(d: string, tail: string)
    requires TooBig(d, tail)
    ensures IsDigit(Head(d + tail)) && ReadNumber(d + tail) == Err(NumberTooBig)
  {
    RunOfNumeral(d, tail, 0);
    ReadableIff(d);
    assert (d + tail)[..|d|] == d;
  }

  lemma BigIndexRefused(d: string, tail: string, next: int, args: seq<Arg>)
    requires TooBig(d, tail)
    ensures ParseField(d + tail, next, args) == Err(NumberTooBig)
  {
    BigRefused(d, tail);
  }

  lemma Unclosed(index: ArgIndex, tail: string, next: int, args: seq<Arg>)
    requires IndexEnds(index, tail) && Serve(next, |args|, RequestOf(index)).Ok? && Head(tail) !in ['}', ':']
    ensures ParseField(IndexText(index) + tail, next, args) == Err(MissingBrace)
  {
    IndexAsked(index, tail, next, |args|);
  }

  /** Behind the colon, what is wrong with the format is wrong with the field. */
  lemma FormatRefused(index: ArgIndex, rest: string, next: int, args: seq<Arg>, i: nat, next1: int)
    requires ProperIndex(index) && Serve(next, |args|, RequestOf(index)) == Ok((i, next1))
    ensures var field := ParseField(IndexText(index) + (":" + rest), next, args);
            var parsed := ParseSpec(rest, args[i], next1, args);
            && (parsed.Err? ==> field == Err(parsed.error))
            && (parsed.Ok? && Head(parsed.value.rest) != '}' ==> field == Err(MissingBrace))
            && (parsed.Ok? && Head(parsed.value.rest) == '}' ==>
                  parsed.value.spec.kind !in ['\0', 'd', 'x', 'X', 'b', 'B', 'o'] ==> field == Err(UnknownType))
  {
    IndexAsked(index, ":" + rest, next, |args|);
    assert (":" + rest)[1..] == rest;
  }

  // ----- Fields: the format -----

  /** An opening brace cannot fill. */
  lemma FillRefused(c: char, tail: string, arg: Arg, next: int, args: seq<Arg>)
    requires c in ['<', '>', '=', '^']
    ensures ParseSpec("{" + ([c] + tail), arg, next, args) == Err(InvalidFill)
  {
    assert ("{" + ([c] + tail))[1..] == [c] + tail;
  }

  /** A sign for an argument of an unsigned type. */
  lemma SignRefused(align: AlignPart, c: char, tail: string, arg: Arg, next: int, args: seq<Arg>)
    requires ProperAlign(align) && c in ['+', '-', ' '] && !IsSigned(arg)
    requires align.NoAlign? ==> tail == "" || tail[0] !in ['<', '>', '=', '^']
    ensures ParseSpec(AlignText(align) + ([c] + tail), arg, next, args) == Err(UnsignedArgument)
  {
    var l := Layout(align, None, false, false, NoWidth, None);
    AlignRead(l, [c] + tail);
    AlignThenLater(AlignText(align) + ([c] + tail), AlignSpec(align), [c] + tail, arg, next, args);
  }

  function FlagsBehindAlign(l: Layout, rest: string): string {
    Optional(l.sign) + ((if l.hash then "#" else "") + ((if l.zero then "0" else "") + rest))
  }

  /** Alignment and flags, and then the rest. */
  function FlagsText(l: Layout, rest: string): string {
    AlignText(l.align) + FlagsBehindAlign(l, rest)
  }

  /** No alignment where one is looked for. */
  predicate NoAlignIn(text: string, second: bool) {
    text != "" && text[0] !in ['<', '>', '=', '^'] && (second ==> Head(text[1..]) !in ['<', '>', '=', '^'])
  }

  /** Alignment and flags end where `rest` begins. */
  predicate FlagsEnd(l: Layout, rest: string, arg: Arg) {
    && Proper(l) && l.width == NoWidth && l.kind == None && (l.sign.Some? ==> IsSigned(arg))
    && rest != "" && rest[0] !in ['+', '-', ' ', '#'] && (rest[0] == '0' ==> l.zero)
    && NoAlignIn(rest, l.align.NoAlign?)
  }

  lemma FlagInFront(flag: string, text: string, second: bool)
    requires |flag| <= 1 && (flag != "" ==> flag[0] !in ['<', '>', '=', '^']) && NoAlignIn(text, second)
    ensures NoAlignIn(flag + text, second)
  {
    if flag == "" {
      assert flag + text == text;
    } else {
      assert (flag + text)[1..] == text;
    }
  }

  lemma FlagsAlign(l: Layout, rest: string, arg: Arg)
    requires FlagsEnd(l, rest, arg)
    ensures ParseAlign(FlagsText(l, rest)) == Ok((AlignSpec(l.align), FlagsBehindAlign(l, rest)))
  {
    var rest4 := (if l.zero then "0" else "") + rest;
    var rest3 := (if l.hash then "#" else "") + rest4;
    FlagInFront(if l.zero then "0" else "", rest, l.align.NoAlign?);
    FlagInFront(if l.hash then "#" else "", rest4, l.align.NoAlign?);
    FlagInFront(Optional(l.sign), rest3, l.align.NoAlign?);
    AlignRead(l, FlagsBehindAlign(l, rest));
  }

  lemma FlagsSign(l: Layout, rest: string, arg: Arg)
    requires FlagsEnd(l, rest, arg)
    ensures var start, rest4 := AlignSpec(l.align), (if l.zero then "0" else "") + rest;
            var rest3 := (if l.hash then "#" else "") + rest4;
            && ParseSign(start, FlagsBehindAlign(l, rest), arg) == Ok((WithSign(start, l), rest3))
            && ParseHash(WithSign(start, l), rest3) == (WithSign(start, l).(hash := l.hash), rest4)
            && ParseZero(WithSign(start, l).(hash := l.hash), rest4) == (SpecOf(l, 0), rest)
  {
    var start, rest4 := AlignSpec(l.align), (if l.zero then "0" else "") + rest;
    var rest3 := (if l.hash then "#" else "") + rest4;
    HeadOf(if l.zero then "0" else "", rest);
    HeadOf(if l.hash then "#" else "", rest4);
    SignRead(l, start, rest3, arg);
    HashRead(l, WithSign(start, l), rest4);
    ZeroRead(l, WithSign(start, l).(hash := l.hash), rest);
    SpecIsAlignThenLater(l, 0);
  }

  /** Behind alignment and flags: the width, no precision, and the type. */
  lemma FlagsThen(l: Layout, rest: string, arg: Arg, next: int, args: seq<Arg>)
    requires FlagsEnd(l, rest, arg)
    ensures var parsed := ParseSpec(FlagsText(l, rest), arg, next, args);
            var sized := ParseWidth(SpecOf(l, 0), rest, next, args);
            && (sized.Err? ==> parsed == Err(sized.error))
            && (sized.Ok? && Head(sized.value.rest) == '.' ==>
                  parsed == Err(PrecisionError(sized.value.rest[1..], sized.value.next, args)))
            && (sized.Ok? && Head(sized.value.rest) !in ['.', '}', '\0'] ==>
                  var p := sized.value;
                  parsed == Ok(p.(spec := p.spec.(kind := p.rest[0]), rest := p.rest[1..])))
  {
    FlagsAlign(l, rest, arg);
    FlagsSign(l, rest, arg);
    AlignThenLater(FlagsText(l, rest), AlignSpec(l.align), FlagsBehindAlign(l, rest), arg, next, args);
  }

  // ----- Fields: the width, the precision and the type -----

  /** A field that is all right up to `rest`, and its argument and the numbering there. */
  ghost predicate ReadTo(index: ArgIndex, l: Layout, rest: string, next: int, args: seq<Arg>, i: nat, next1: int) {
    ProperIndex(index) && Serve(next, |args|, RequestOf(index)) == Ok((i, next1)) && FlagsEnd(l, rest, args[i])
  }

  ghost function FieldBehind(index: ArgIndex, l: Layout, rest: string, next: int, args: seq<Arg>)
      : Result<FieldResult, FormatError> {
    ParseField(IndexText(index) + (":" + FlagsText(l, rest)), next, args)
  }

  lemma BigWidthRefused(index: ArgIndex, l: Layout, d: string, tail: string, next: int, args: seq<Arg>, i: nat,
                        next1: int)
    requires ReadTo(index, l, d + tail, next, args, i, next1)
    requires TooBig(d, tail)
    ensures FieldBehind(index, l, d + tail, next, args) == Err(NumberTooBig)
  {
    BigRefused(d, tail);
    FlagsThen(l, d + tail, args[i], next1, args);
    FormatRefused(index, FlagsText(l, d + tail), next, args, i, next1);
  }

  /** What is wrong with an argument in braces. */
  ghost function NestedError(inner: ArgIndex, tail: string, next: int, args: seq<Arg>, negative: FormatError)
      : Option<FormatError>
    requires ProperIndex(inner)
  {
    match Serve(next, |args|, RequestOf(inner))
    case Err(e) => Some(if tail != "" && tail[0] in ['}', ':'] then Index(e) else InvalidFormat)
    case Ok((j, _)) =>
      if tail == "" || tail[0] != '}' then Some(InvalidFormat)
      else if args[j].value < 0 then Some(negative)
      else if args[j].value > INT_MAX then Some(NumberTooBig) else None
  }

  lemma BracedServed(inner: ArgIndex, tail: string, next: int, args: seq<Arg>, negative: FormatError, served: Served)
    requires IndexEnds(inner, tail) && ParseArgIndex(IndexText(inner) + tail, next, |args|) == Ok(served)
    requires served.rest == tail
    ensures var count, braced := args[served.index].value, ParseBraced(IndexText(inner) + tail, next, args, negative);
            if tail == "" || tail[0] != '}' then braced == Err(InvalidFormat)
            else if count < 0 then braced == Err(negative)
            else if count > INT_MAX then braced == Err(NumberTooBig) else braced.Ok?
  {
    IndexAsked(inner, tail, next, |args|);
  }

  lemma BracedRefused(inner: ArgIndex, tail: string, next: int, args: seq<Arg>, negative: FormatError)
    requires IndexEnds(inner, tail)
    ensures var braced := ParseBraced(IndexText(inner) + tail, next, args, negative);
            match NestedError(inner, tail, next, args, negative)
            case Some(e) => braced == Err(e)
            case None => braced.Ok?
  {
    IndexAsked(inner, tail, next, |args|);
    match Serve(next, |args|, RequestOf(inner))
    case Err(_) =>
    case Ok((j, next1)) =>
      BracedServed(inner, tail, next, args, negative, Served(RequestOf(inner), j, tail, next1));
  }

  /** A width in braces that is not there, not closed, negative or too big. */
  lemma NestedWidthRefused(index: ArgIndex, l: Layout, inner: ArgIndex, tail: string, next: int, args: seq<Arg>, i: nat,
                           next1: int)
    requires IndexEnds(inner, tail) && ReadTo(index, l, "{" + (IndexText(inner) + tail), next, args, i, next1)
    requires NestedError(inner, tail, next1, args, NegativeWidth).Some?
    ensures FieldBehind(index, l, "{" + (IndexText(inner) + tail), next, args) ==
            Err(NestedError(inner, tail, next1, args, NegativeWidth).value)
  {
    var rest := "{" + (IndexText(inner) + tail);
    assert rest[1..] == IndexText(inner) + tail;
    BracedRefused(inner, tail, next1, args, NegativeWidth);
    FlagsThen(l, rest, args[i], next1, args);
    FormatRefused(index, FlagsText(l, rest), next, args, i, next1);
  }

  /** A width that is all right, and what comes behind it. */
  ghost predicate SizedTo(l: Layout, width: WidthPart, tail: string, next: int, args: seq<Arg>, sized: Sized) {
    && ProperWidth(width, l.zero) && SizeOf(width, next, args) == Some(sized)
    && !IsDigit(Head(tail)) && Head(tail) != '{'
  }

  lemma SizeRead(l: Layout, width: WidthPart, tail: string, next: int, args: seq<Arg>, sized: Sized)
    requires Proper(l) && SizedTo(l, width, tail, next, args, sized)
    ensures ParseWidth(SpecOf(l, 0), WidthText(width) + tail, next, args) ==
            Ok(Parsed(SpecOf(l, sized.width), tail, sized.next, sized.asked))
  {
    WidthRead(l.(width := width), SpecOf(l, 0), tail, next, args);
  }

  /** Integers have no precision; the error is about the precision itself if there is something wrong with it. */
  lemma PrecisionRefused(index: ArgIndex, l: Layout, width: WidthPart, tail: string, next: int, args: seq<Arg>, i: nat,
                         next1: int, sized: Sized)
    requires ReadTo(index, l, WidthText(width) + ("." + tail), next, args, i, next1)
    requires SizedTo(l, width, "." + tail, next1, args, sized)
    ensures FieldBehind(index, l, WidthText(width) + ("." + tail), next, args) ==
            Err(PrecisionError(tail, sized.next, args))
  {
    assert ("." + tail)[1..] == tail;
    SizeRead(l, width, "." + tail, next1, args, sized);
    FlagsThen(l, WidthText(width) + ("." + tail), args[i], next1, args);
    FormatRefused(index, FlagsText(l, WidthText(width) + ("." + tail)), next, args, i, next1);
  }

  lemma PrecisionErrors(next: int, args: seq<Arg>)
    ensures forall d: string, tail :: Readable(d) && !IsDigit(Head(tail)) ==>
              PrecisionError(d + tail, next, args) == PrecisionNotAllowed
    ensures forall d: string, tail :: TooBig(d, tail) ==>
              PrecisionError(d + tail, next, args) == NumberTooBig
    ensures forall inner, tail :: IndexEnds(inner, tail) ==>
              PrecisionError("{" + (IndexText(inner) + tail), next, args) ==
              match NestedError(inner, tail, next, args, NegativePrecision)
              case Some(e) => e
              case None => PrecisionNotAllowed
    ensures forall tail :: !IsDigit(Head(tail)) && Head(tail) != '{' ==>
              PrecisionError(tail, next, args) == MissingPrecision
  {
    forall d: string, tail | Readable(d) && !IsDigit(Head(tail))
      ensures PrecisionError(d + tail, next, args) == PrecisionNotAllowed
    {
      NumberRead(d, tail);
    }
    forall d: string, tail | TooBig(d, tail)
      ensures PrecisionError(d + tail, next, args) == NumberTooBig
    {
      BigRefused(d, tail);
    }
    forall inner, tail | IndexEnds(inner, tail)
      ensures PrecisionError("{" + (IndexText(inner) + tail), next, args) ==
              match NestedError(inner, tail, next, args, NegativePrecision)
              case Some(e) => e
              case None => PrecisionNotAllowed
    {
      var rest := "{" + (IndexText(inner) + tail);
      assert rest[1..] == IndexText(inner) + tail;
      BracedRefused(inner, tail, next, args, NegativePrecision);
    }
  }

  /** One more character is taken for a type; then the field must end, and the type must be one of integers. */
  lemma TypeRefused(index: ArgIndex, l: Layout, width: WidthPart, c: char, tail: string, next: int, args: seq<Arg>,
                    i: nat, next1: int, sized: Sized)
    requires ReadTo(index, l, WidthText(width) + ([c] + tail), next, args, i, next1)
    requires SizedTo(l, width, [c] + tail, next1, args, sized) && c !in ['.', '}', '\0']
    requires tail == "" || tail[0] != '}' || c !in ['d', 'x', 'X', 'b', 'B', 'o']
    ensures FieldBehind(index, l, WidthText(width) + ([c] + tail), next, args) ==
            Err(if tail == "" || tail[0] != '}' then MissingBrace else UnknownType)
  {
    assert ([c] + tail)[1..] == tail;
    SizeRead(l, width, [c] + tail, next1, args, sized);
    FlagsThen(l, WidthText(width) + ([c] + tail), args[i], next1, args);
    FormatRefused(index, FlagsText(l, WidthText(width) + ([c] + tail)), next, args, i, next1);
  }
}
