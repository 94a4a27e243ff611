/** What single fields write, character by character: alignments, flags, types and widths. */
module FormatShown {
  import opened Wrappers
  import opened Decimal
  import opened NumberParse
  import opened IntPadding
  import opened ArgList
  import opened FormatGrammar
  import opened FormatTemplates

  function MinusOf(v: int): string {
    if v < 0 then "-" else ""
  }

  /** A number of a certain width: left, right, in the middle, or behind its sign. */
  function Aligned(c: char, fill: char, width: nat, sign: string, digits: string): string {
    var more := Repeat(fill, if |sign| + |digits| < width then width - |sign| - |digits| else 0);
    if c == '<' then sign + digits + more
    else if c == '^' then more[..|more| / 2] + sign + digits + more[|more| / 2..]
    else if c == '=' then sign + more + digits
    else more + sign + digits
  }

  lemma NumeralIsReadable(n: nat)
    requires n <= INT_MAX
    ensures Readable(Numeral(n)) && NumberOf(Numeral(n)) == n
  {
    ValueOfNumeral(n);
    SmallWord(n);
  }

  /** A template of one field writes what the field does. */
  lemma OnePiece(index: ArgIndex, layout: Option<Layout>, filled: Filled, args: seq<Arg>)
    requires FieldMeaning(index, layout, 0, args) == Some(filled)
    ensures Format(FieldText(index, layout, ""), 0, args) == Ok(Output(filled.text, filled.asked))
  {
    var pieces := [Field(index, layout)];
    var none: seq<Request> := [];
    assert pieces[1..] == [] && Rendered(pieces, "") == FieldText(index, layout, "");
    assert filled.text + "" == filled.text && filled.asked + none == filled.asked;
    assert Meaning([], filled.next, args) == Some(Output("", none));
    FormatOfRendered(pieces, "", 0, args);
  }

  lemma OneFieldMeans(l: Layout, width: nat, arg: Arg)
    requires Proper(l) && (l.sign.Some? ==> IsSigned(arg)) && SizeOf(l.width, 1, [arg]) == Some(Sized(width, 1, []))
    ensures FieldMeaning(InTurn, Some(l), 0, [arg]) == Some(Filled(Written(arg.value, SpecOf(l, width)), 1, [Auto]))
  {
    var none: seq<Request> := [];
    assert [Auto] + none == [Auto];
  }

  lemma BraceAndColon(text: string)
    ensures "{" + (":" + text) == "{:" + text
  {
  }

  lemma OneFieldText(l: Layout)
    ensures FieldText(InTurn, Some(l), "") == "{:" + LayoutText(l, "")
  {
    assert "" + (":" + LayoutText(l, "")) == ":" + LayoutText(l, "");
    BraceAndColon(LayoutText(l, ""));
  }

  /** The same for a field without an index whose width is no argument. */
  lemma OneField(l: Layout, width: nat, arg: Arg)
    requires Proper(l) && (l.sign.Some? ==> IsSigned(arg)) && SizeOf(l.width, 1, [arg]) == Some(Sized(width, 1, []))
    ensures Format("{:" + LayoutText(l, ""), 0, [arg]) == Ok(Output(Written(arg.value, SpecOf(l, width)), [Auto]))
  {
    OneFieldMeans(l, width, arg);
    OneFieldText(l);
    OnePiece(InTurn, Some(l), Filled(Written(arg.value, SpecOf(l, width)), 1, [Auto]), [arg]);
  }

  lemma NoFill(c: char, fill: char, width: nat, sign: string, digits: string)
    requires width <= |sign| + |digits|
    ensures Aligned(c, fill, width, sign, digits) == sign + digits
  {
    assert Repeat(fill, 0) == "";
  }

  lemma PaddedAligned(c: char, spec: Spec, sign: string, digits: string)
    requires c in ['<', '>', '^', '='] && spec.align == AlignOf(c)
    ensures Padded(spec, sign, digits) == Aligned(c, spec.fill, spec.width, sign, digits)
  {
    if |sign| + |digits| < spec.width {
      PaddedIs(spec, sign, digits);
    } else {
      PaddedNarrow(spec, sign, digits);
      NoFill(c, spec.fill, spec.width, sign, digits);
    }
  }

  lemma WrittenAligned(c: char, spec: Spec, v: int)
    requires c in ['<', '>', '^', '='] && spec == Spec(spec.width, spec.fill, AlignOf(c), false, false, false, '\0')
    ensures Written(v, spec) == Aligned(c, spec.fill, spec.width, MinusOf(v), Numeral(Abs(v)))
  {
    PrefixIs(v, spec);
    PaddedAligned(c, spec, MinusOf(v), Numeral(Abs(v)));
  }

  lemma FilledText(fill: char, c: char, d: string)
    ensures LayoutText(Layout(FillAlign(fill, c), None, false, false, Fixed(d), None), "") == [fill, c] + (d + "}")
  {
    assert "" + (d + ("" + ("}" + ""))) == d + "}";
  }

  /** A fill character, an alignment and a width. */
  lemma AlignmentShows(fill: char, c: char, width: nat, arg: Arg)
    requires fill !in ['{', '}', '\0'] && c in ['<', '>', '^', '='] && 0 < width <= INT_MAX
    ensures Format("{:" + ([fill, c] + (Numeral(width) + "}")), 0, [arg]) ==
            Ok(Output(Aligned(c, fill, width, MinusOf(arg.value), Numeral(Abs(arg.value))), [Auto]))
  {
    var l := Layout(FillAlign(fill, c), None, false, false, Fixed(Numeral(width)), None);
    NumeralIsReadable(width);
    NoLeadingZero(width);
    OneField(l, width, arg);
    FilledText(fill, c, Numeral(width));
    WrittenAligned(c, SpecOf(l, width), arg.value);
  }

  lemma ZeroFlagText(d: string)
    ensures LayoutText(Layout(NoAlign, None, false, true, Fixed(d), None), "") == "0" + (d + "}")
  {
    assert d + ("" + ("}" + "")) == d + "}";
  }

  /** The '0' flag pads with zeros behind the sign. */
  lemma ZeroFlagShows(width: nat, arg: Arg)
    requires width <= INT_MAX
    ensures Format("{:" + ("0" + (Numeral(width) + "}")), 0, [arg]) ==
            Ok(Output(Aligned('=', '0', width, MinusOf(arg.value), Numeral(Abs(arg.value))), [Auto]))
  {
    var l := Layout(NoAlign, None, false, true, Fixed(Numeral(width)), None);
    NumeralIsReadable(width);
    OneField(l, width, arg);
    ZeroFlagText(Numeral(width));
    WrittenAligned('=', SpecOf(l, width), arg.value);
  }

  lemma SignText(c: char)
    ensures LayoutText(Layout(NoAlign, Some(c), false, false, NoWidth, None), "") == [c] + "}"
  {
    assert [c] + ("" + ("" + ("" + ("" + ("}" + ""))))) == [c] + "}";
  }

  function SignShown(c: char, v: int): string {
    if v < 0 then "-" else if c == '-' then "" else [c]
  }

  lemma SignWritten(c: char, spec: Spec, v: int)
    requires c in ['+', '-', ' '] && spec == Spec(0, ' ', Default, c != '-', c == '+', false, '\0')
    ensures Written(v, spec) == SignShown(c, v) + Numeral(Abs(v))
  {
    PrefixIs(v, spec);
    PaddedNarrow(spec, Prefix(v, spec), Numeral(Abs(v)));
  }

  /** The signs, for arguments of a signed type. */
  lemma SignsShow(c: char, arg: Arg)
    requires c in ['+', '-', ' '] && IsSigned(arg)
    ensures Format("{:" + ([c] + "}"), 0, [arg]) == Ok(Output(SignShown(c, arg.value) + Numeral(Abs(arg.value)), [Auto]))
  {
    var l := Layout(NoAlign, Some(c), false, false, NoWidth, None);
    OneField(l, 0, arg);
    SignText(c);
    SignWritten(c, SpecOf(l, 0), arg.value);
  }

  function BasePrefixOf(c: char): string {
    if c == 'd' then "" else if c == 'o' then "0" else ['0', c]
  }

  lemma TypeText(c: char, hash: bool)
    ensures LayoutText(Layout(NoAlign, None, hash, false, NoWidth, Some(c)), "") ==
            (if hash then "#" else "") + ([c] + "}")
  {
    assert [c] + ("}" + "") == [c] + "}";
  }

  lemma TypeWritten(c: char, spec: Spec, v: int)
    requires c in ['d', 'x', 'X', 'b', 'B', 'o'] && spec == Spec(0, ' ', Default, false, false, spec.hash, c)
    ensures Written(v, spec) == MinusOf(v) + (if spec.hash then BasePrefixOf(c) else "") + Digits(Abs(v), c)
  {
    PrefixIs(v, spec);
    PaddedNarrow(spec, Prefix(v, spec), Digits(Abs(v), c));
  }

  /** The types with their base prefixes; IntPadding.DigitsAre says what the digits are. */
  lemma TypesShow(c: char, hash: bool, arg: Arg)
    requires c in ['d', 'x', 'X', 'b', 'B', 'o']
    ensures Format("{:" + ((if hash then "#" else "") + ([c] + "}")), 0, [arg]) ==
            Ok(Output(MinusOf(arg.value) + (if hash then BasePrefixOf(c) else "") + Digits(Abs(arg.value), c), [Auto]))
  {
    var l := Layout(NoAlign, None, hash, false, NoWidth, Some(c));
    OneField(l, 0, arg);
    TypeText(c, hash);
    TypeWritten(c, SpecOf(l, 0), arg.value);
  }

  lemma NestedText(text: string, l: Layout)
    requires text == "{:{}}" && l == Layout(NoAlign, None, false, false, Nested(InTurn), None)
    ensures FieldText(InTurn, Some(l), "") == text
  {
    assert LayoutText(l, "") == "{}}";
  }

  lemma DefaultIsRight(v: int, width: nat)
    ensures Written(v, Spec(width, ' ', Default, false, false, false, '\0')) ==
            Aligned('>', ' ', width, MinusOf(v), Numeral(Abs(v)))
  {
    var spec := Spec(width, ' ', Default, false, false, false, '\0');
    WrittenAligned('>', spec.(align := AlignRight), v);
    assert Padded(spec, Prefix(v, spec), Numeral(Abs(v))) ==
           Padded(spec.(align := AlignRight), Prefix(v, spec), Numeral(Abs(v)));
  }

  /** A width in braces is the value of the next argument. */
  lemma NestedWidthShows(text: string, arg: Arg, width: Arg)
    requires text == "{:{}}" && 0 <= width.value <= INT_MAX
    ensures Format(text, 0, [arg, width]) ==
            Ok(Output(Aligned('>', ' ', width.value, MinusOf(arg.value), Numeral(Abs(arg.value))), [Auto, Auto]))
  {
    var l := Layout(NoAlign, None, false, false, Nested(InTurn), None);
    assert [Auto] + [Auto] == [Auto, Auto];
    NestedText(text, l);
    OnePiece(InTurn, Some(l), Filled(Written(arg.value, SpecOf(l, width.value)), 2, [Auto, Auto]), [arg, width]);
    DefaultIsRight(arg.value, width.value);
  }

  /** Text around a field without a format. */
  lemma IndexBetweenDots(text: string, arg: Arg)
    requires text == ".{}." && arg.value >= 0
    ensures Format(text, 0, [arg]) == Ok(Output("." + Numeral(arg.value) + ".", [Auto]))
  {
    var pieces, none := [Text("."), Field(InTurn, None), Text(".")], [Auto];
    var spec := DEFAULT_SPEC;
    PaddedNarrow(spec, Prefix(arg.value, spec), Numeral(arg.value));
    assert Written(arg.value, spec) == Numeral(arg.value);
    DotsMean(pieces, arg);
    DotsRendered(pieces, text);
    FormatOfRendered(pieces, "", 0, [arg]);
  }

  lemma DotsRendered(pieces: seq<Piece>, text: string)
    requires pieces == [Text("."), Field(InTurn, None), Text(".")] && text == ".{}."
    ensures Rendered(pieces, "") == text
  {
    assert Escaped(".") == ".";
    assert pieces[1..] == [Field(InTurn, None), Text(".")] && pieces[1..][1..] == [Text(".")];
    assert [Text(".")][1..] == [] && Rendered([], "") == "";
    assert Rendered([Text(".")], "") == ".";
    assert Rendered(pieces[1..], "") == "{}.";
  }

  lemma DotsMean(pieces: seq<Piece>, arg: Arg)
    requires pieces == [Text("."), Field(InTurn, None), Text(".")]
    requires arg.value >= 0 && Written(arg.value, DEFAULT_SPEC) == Numeral(arg.value)
    ensures Meaning(pieces, 0, [arg]) == Some(Output("." + Numeral(arg.value) + ".", [Auto]))
  {
    var none: seq<Request> := [];
    assert pieces[1..] == [Field(InTurn, None), Text(".")] && pieces[1..][1..] == [Text(".")] && [Text(".")][1..] == [];
    assert Meaning([], 1, [arg]) == Some(Output("", none));
    assert Meaning([Text(".")], 1, [arg]) == Some(Output(".", none)) by {
      assert "." + "" == "." && none + none == none;
    }
    assert Meaning(pieces[1..], 0, [arg]) == Some(Output(Numeral(arg.value) + ".", [Auto])) by {
      assert [Auto] + none == [Auto];
    }
    assert none + [Auto] == [Auto];
    assert "." + (Numeral(arg.value) + ".") == "." + Numeral(arg.value) + ".";
  }
}
