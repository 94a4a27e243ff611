/** Nothing but the templates of FormatTemplates is accepted: every accepted format string is spelled like one. */
module FormatExact {
  import opened Wrappers
  import opened Decimal
  import opened NumberParse
  import opened IntPadding
  import opened ArgList
  import opened FormatGrammar
  import opened FormatTemplates

  // ----- The parts of a field that was read -----

  lemma SpellNumber(rest: string) returns (d: string)
    requires IsDigit(Head(rest)) && ReadNumber(rest).Ok?
    ensures var (n, rest') := ReadNumber(rest).value;
            Readable(d) && rest == d + rest' && n == NumberOf(d) && d[0] == Head(rest)
  {
    d := rest[..RunEnd(rest, 0)];
    assert RunEnd(rest, 0) == RunEnd(rest, 1);
    assert rest[0..RunEnd(rest, 0)] == d;
    ReadableIff(d);
  }

  lemma SpellIndex(rest: string, next: int, n: nat) returns (index: ArgIndex)
    requires ParseArgIndex(rest, next, n).Ok?
    ensures var served := ParseArgIndex(rest, next, n).value;
            ProperIndex(index) && rest == IndexText(index) + served.rest && served.request == RequestOf(index)
  {
    if IsDigit(Head(rest)) {
      var d := SpellNumber(rest);
      index := Numbered(d);
    } else {
      index := InTurn;
    }
  }

  /** A default format with some alignment, which does not show without a width. */
  predicate Unaligned(spec: Spec) {
    spec == DEFAULT_SPEC.(align := spec.align)
  }

  lemma SpellAlign(rest: string) returns (align: AlignPart)
    requires ParseAlign(rest).Ok?
    ensures var (spec, rest1) := ParseAlign(rest).value;
            && ProperAlign(align) && rest == AlignText(align) + rest1
            && (spec == AlignSpec(align) || (align == NoAlign && Head(rest) == '}' && Unaligned(spec)))
  {
    var c := Head(rest);
    align := NoAlign;
    if c != '\0' {
      if AlignOf(Head(rest[1..])) != Default {
        if c != '}' {
          align := FillAlign(c, rest[1]);
          assert rest == [c, rest[1]] + rest[2..];
        }
      } else if AlignOf(c) != Default {
        align := AlignOnly(c);
      }
    }
  }

  lemma SpellSign(spec: Spec, rest: string, arg: Arg) returns (c: Option<char>)
    requires ParseSign(spec, rest, arg).Ok? && !spec.sign && !spec.plus
    ensures var (spec2, rest2) := ParseSign(spec, rest, arg).value;
            && (c.Some? ==> c.value in ['+', '-', ' '] && IsSigned(arg))
            && rest == Optional(c) + rest2
            && spec2 == spec.(sign := c == Some('+') || c == Some(' '), plus := c == Some('+'))
  {
    c := if Head(rest) in ['+', '-', ' '] then Some(rest[0]) else None;
  }

  lemma SpellNested(rest: string, next: int, args: seq<Arg>) returns (index: ArgIndex)
    requires ParseBraced(rest, next, args, NegativeWidth).Ok?
    ensures var braced := ParseBraced(rest, next, args, NegativeWidth).value;
            && ProperIndex(index) && rest == IndexText(index) + ("}" + braced.rest)
            && SizeOf(Nested(index), next, args) == Some(Sized(braced.count, braced.next, [braced.request]))
  {
    index := SpellIndex(rest, next, |args|);
    var served := ParseArgIndex(rest, next, |args|).value;
    assert served.rest == "}" + served.rest[1..];
  }

  lemma Braces(rest: string, index: string, after: string)
    requires rest != "" && rest[0] == '{' && rest[1..] == index + ("}" + after)
    ensures rest == "{" + (index + "}") + after
  {
    assert rest == "{" + rest[1..];
  }

  lemma SpellWidth(spec: Spec, rest: string, next: int, args: seq<Arg>) returns (w: WidthPart)
    requires ParseWidth(spec, rest, next, args).Ok? && spec.width == 0
    ensures var parsed := ParseWidth(spec, rest, next, args).value;
            && ProperWidth(w, Head(rest) == '0') && rest == WidthText(w) + parsed.rest
            && parsed.spec == spec.(width := parsed.spec.width)
            && SizeOf(w, next, args) == Some(Sized(parsed.spec.width, parsed.next, parsed.asked))
  {
    if IsDigit(Head(rest)) {
      var d := SpellNumber(rest);
      w := Fixed(d);
    } else if Head(rest) == '{' {
      var index := SpellNested(rest[1..], next, args);
      w := Nested(index);
      Braces(rest, IndexText(index), ParseBraced(rest[1..], next, args, NegativeWidth).value.rest);
    } else {
      w := NoWidth;
    }
  }

  lemma SpellKind(spec: Spec, rest: string) returns (c: Option<char>)
    requires var (spec', rest') := ParseKind(spec, rest); Head(rest') == '}' && IsKind(spec'.kind)
    requires spec.kind == '\0'
    ensures var (spec', rest') := ParseKind(spec, rest);
            && (c.Some? ==> c.value in ['d', 'x', 'X', 'b', 'B', 'o'])
            && rest == Optional(c) + rest'
            && spec' == spec.(kind := if c.Some? then c.value else '\0')
  {
    c := if Head(rest) in ['}', '\0'] then None else Some(rest[0]);
  }

  // ----- Whole layouts -----

  /** What was read behind the alignment is spelled by the later parts of `l`. */
  ghost predicate SpellsLater(l: Layout, start: Spec, rest: string, arg: Arg, next: int, args: seq<Arg>, parsed: Parsed) {
    && Proper(l) && (l.sign.Some? ==> IsSigned(arg)) && Head(parsed.rest) == '}'
    && rest == AfterAlign(l, parsed.rest[1..])
    && SizeOf(l.width, next, args) == Some(Sized(parsed.spec.width, parsed.next, parsed.asked))
    && parsed.spec == WithLater(start, l, parsed.spec.width)
  }

  lemma Texts(l: Layout, rest1: string, rest2: string, rest3: string, rest4: string, rest5: string, rest6: string)
    requires rest1 == Optional(l.sign) + rest2 && rest2 == (if l.hash then "#" else "") + rest3
    requires rest3 == (if l.zero then "0" else "") + rest4 && rest4 == WidthText(l.width) + rest5
    requires rest5 == Optional(l.kind) + rest6 && Head(rest6) == '}'
    ensures rest1 == AfterAlign(l, rest6[1..])
  {
    assert rest6 == "}" + rest6[1..];
    assert rest5 == AfterWidth(l, rest6[1..]);
    assert rest4 == AfterZero(l, rest6[1..]);
    assert rest3 == AfterHash(l, rest6[1..]);
    assert rest2 == AfterSign(l, rest6[1..]);
  }

  /** What the stages behind the alignment gave, one after the other. */
  datatype Staged = Staged(spec2: Spec, rest2: string, spec3: Spec, rest3: string, spec4: Spec, rest4: string,
                           parsed: Parsed, spec6: Spec, rest6: string)

  /** What the stages gave all together. */
  function ParsedOf(x: Staged): Parsed {
    Parsed(x.spec6, x.rest6, x.parsed.next, x.parsed.asked)
  }

  ghost predicate IsStaged(x: Staged, spec1: Spec, rest1: string, arg: Arg, next: int, args: seq<Arg>) {
    && ParseSign(spec1, rest1, arg) == Ok((x.spec2, x.rest2)) && ParseHash(x.spec2, x.rest2) == (x.spec3, x.rest3)
    && ParseZero(x.spec3, x.rest3) == (x.spec4, x.rest4) && ParseWidth(x.spec4, x.rest4, next, args) == Ok(x.parsed)
    && ParseKind(x.parsed.spec, x.parsed.rest) == (x.spec6, x.rest6)
  }

  lemma StagesOf(spec1: Spec, rest1: string, arg: Arg, next: int, args: seq<Arg>) returns (x: Staged)
    requires ParseBehindAlign(spec1, rest1, arg, next, args).Ok?
    ensures IsStaged(x, spec1, rest1, arg, next, args)
    ensures ParseBehindAlign(spec1, rest1, arg, next, args) == Ok(ParsedOf(x))
  {
    var (spec2, rest2) := ParseSign(spec1, rest1, arg).value;
    var (spec3, rest3) := ParseHash(spec2, rest2);
    var (spec4, rest4) := ParseZero(spec3, rest3);
    var parsed := ParseWidth(spec4, rest4, next, args).value;
    var (spec6, rest6) := ParseKind(parsed.spec, parsed.rest);
    x := Staged(spec2, rest2, spec3, rest3, spec4, rest4, parsed, spec6, rest6);
  }

  lemma SpellHash(spec: Spec, rest: string) returns (flag: bool)
    requires !spec.hash
    ensures var (spec', rest') := ParseHash(spec, rest);
            rest == (if flag then "#" else "") + rest' && spec' == spec.(hash := flag)
  {
    flag := Head(rest) == '#';
  }

  lemma SpellZero(spec: Spec, rest: string) returns (flag: bool)
    ensures var (spec', rest') := ParseZero(spec, rest);
            && rest == (if flag then "0" else "") + rest' && (Head(rest') == '0' ==> flag)
            && spec' == if flag then spec.(align := Numeric, fill := '0') else spec
  {
    flag := Head(rest) == '0';
  }

  lemma SpellFlags(x: Staged, start: Spec, rest1: string, arg: Arg, next: int, args: seq<Arg>)
    returns (c: Option<char>, hashed: bool, zeros: bool)
    requires IsStaged(x, start, rest1, arg, next, args) && !start.sign && !start.plus && !start.hash
    ensures c.Some? ==> c.value in ['+', '-', ' '] && IsSigned(arg)
    ensures rest1 == Optional(c) + x.rest2 && x.rest2 == (if hashed then "#" else "") + x.rest3
    ensures x.rest3 == (if zeros then "0" else "") + x.rest4 && (Head(x.rest4) == '0' ==> zeros)
    ensures var spec3 := start.(sign := c == Some('+') || c == Some(' '), plus := c == Some('+'), hash := hashed);
            x.spec4 == if zeros then spec3.(align := Numeric, fill := '0') else spec3
  {
    c := SpellSign(start, rest1, arg);
    hashed := SpellHash(x.spec2, x.rest2);
    zeros := SpellZero(x.spec3, x.rest3);
  }

  lemma SpellSize(x: Staged, start: Spec, rest1: string, arg: Arg, next: int, args: seq<Arg>)
    returns (w: WidthPart, c: Option<char>)
    requires IsStaged(x, start, rest1, arg, next, args) && x.spec4.width == 0 && x.spec4.kind == '\0'
    requires Head(x.rest6) == '}' && IsKind(x.spec6.kind)
    ensures ProperWidth(w, Head(x.rest4) == '0') && x.rest4 == WidthText(w) + x.parsed.rest
    ensures SizeOf(w, next, args) == Some(Sized(x.spec6.width, x.parsed.next, x.parsed.asked))
    ensures c.Some? ==> c.value in ['d', 'x', 'X', 'b', 'B', 'o']
    ensures x.parsed.rest == Optional(c) + x.rest6
    ensures x.spec6 == x.spec4.(width := x.spec6.width, kind := if c.Some? then c.value else '\0')
  {
    w := SpellWidth(x.spec4, x.rest4, next, args);
    c := SpellKind(x.parsed.spec, x.parsed.rest);
  }

  lemma LaterSpec(start: Spec, l: Layout, spec4: Spec, spec6: Spec)
    requires var spec3 := start.(sign := l.sign == Some('+') || l.sign == Some(' '), plus := l.sign == Some('+'),
                                 hash := l.hash);
             spec4 == if l.zero then spec3.(align := Numeric, fill := '0') else spec3
    requires spec6 == spec4.(width := spec6.width, kind := if l.kind.Some? then l.kind.value else '\0')
    ensures spec6 == WithLater(start, l, spec6.width)
  {
  }

  lemma SpellLater(x: Staged, start: Spec, align: AlignPart, rest1: string, arg: Arg, next: int, args: seq<Arg>)
    returns (l: Layout)
    requires IsStaged(x, start, rest1, arg, next, args) && ProperAlign(align)
    requires start.width == 0 && !start.sign && !start.plus && !start.hash && start.kind == '\0'
    requires Head(x.rest6) == '}' && IsKind(x.spec6.kind)
    ensures l.align == align && SpellsLater(l, start, rest1, arg, next, args, ParsedOf(x))
  {
    var sign, hash, zero := SpellFlags(x, start, rest1, arg, next, args);
    var width, kind := SpellSize(x, start, rest1, arg, next, args);
    l := Layout(align, sign, hash, zero, width, kind);
    Texts(l, rest1, x.rest2, x.rest3, x.rest4, x.parsed.rest, x.rest6);
    LaterSpec(start, l, x.spec4, x.spec6);
  }

  /** A layout that starts with the closing brace is bare. */
  lemma BraceIsBare(l: Layout, tail: string)
    requires Proper(l) && l.align == NoAlign && Head(AfterAlign(l, tail)) == '}'
    ensures Bare(l)
  {
    HeadOf(Optional(l.sign), AfterSign(l, tail));
    HashHead(l, tail);
    ZeroHead(l, tail);
    WidthHead(l, tail);
    KindHead(l, tail);
  }

  lemma SpellSpec(rest: string, arg: Arg, next: int, args: seq<Arg>) returns (l: Layout)
    requires ParseSpec(rest, arg, next, args).Ok?
    requires var parsed := ParseSpec(rest, arg, next, args).value; Head(parsed.rest) == '}' && IsKind(parsed.spec.kind)
    ensures var parsed := ParseSpec(rest, arg, next, args).value;
            && Proper(l) && (l.sign.Some? ==> IsSigned(arg)) && rest == LayoutText(l, parsed.rest[1..])
            && SizeOf(l.width, next, args) == Some(Sized(parsed.spec.width, parsed.next, parsed.asked))
            && (parsed.spec == SpecOf(l, parsed.spec.width) || (Bare(l) && Unaligned(parsed.spec)))
  {
    var (start, rest1) := ParseAlign(rest).value;
    var align := SpellAlign(rest);
    var x := StagesOf(start, rest1, arg, next, args);
    l := SpellLater(x, start, align, rest1, arg, next, args);
    var parsed := ParseSpec(rest, arg, next, args).value;
    if start == AlignSpec(align) {
      SpecIsAlignThenLater(l, parsed.spec.width);
    } else {
      BraceIsBare(l, parsed.rest[1..]);
    }
  }

  lemma SpellFormat(served: Served, args: seq<Arg>) returns (layout: Option<Layout>)
    requires served.index < |args| && ParseFormat(served, args).Ok? && served.rest != "" && served.rest[0] in ['}', ':']
    ensures var field := ParseFormat(served, args).value;
            && served.rest == AfterIndex(layout, field.rest)
            && (layout.None? ==> field.spec == DEFAULT_SPEC && field.next == served.next && field.asked == [served.request])
            && (layout.Some? ==>
                  var l := layout.value;
                  && Proper(l) && (l.sign.Some? ==> IsSigned(args[served.index]))
                  && SizeOf(l.width, served.next, args) == Some(Sized(field.spec.width, field.next, field.asked[1..]))
                  && (field.spec == SpecOf(l, field.spec.width) || (Bare(l) && Unaligned(field.spec))))
  {
    if served.rest[0] == ':' {
      var l := SpellSpec(served.rest[1..], args[served.index], served.next, args);
      layout := Some(l);
      assert served.rest == ":" + served.rest[1..];
    } else {
      layout := None;
      assert served.rest == "}" + served.rest[1..];
    }
  }

  /** A field that was read is spelled by its parts, and means what was written for it. */
  lemma SpellField(rest: string, next: int, args: seq<Arg>) returns (index: ArgIndex, layout: Option<Layout>)
    requires ParseField(rest, next, args).Ok?
    ensures var field := ParseField(rest, next, args).value;
            && rest == IndexText(index) + AfterIndex(layout, field.rest)
            && FieldMeaning(index, layout, next, args) ==
               Some(Filled(Written(args[field.index].value, field.spec), field.next, field.asked))
  {
    index := SpellIndex(rest, next, |args|);
    var served := ParseArgIndex(rest, next, |args|).value;
    var field := ParseField(rest, next, args).value;
    assert field == ParseFormat(served, args).value;
    layout := SpellFormat(served, args);
    assert field.asked == [served.request] + field.asked[1..];
    if layout.Some? && field.spec != SpecOf(layout.value, field.spec.width) {
      NoWidthNoAlign(args[field.index].value, field.spec.align);
      assert SpecOf(layout.value, 0) == DEFAULT_SPEC;
    }
  }

  // ----- Whole strings -----

  lemma SpellChar(c: char, text: string, later: string, pieces: seq<Piece>, end: string, next: int, args: seq<Arg>)
    requires text == EscapedChar(c) + later && later == Rendered(pieces, end) && c != '\0'
    requires Format(later, next, args).Ok? && Meaning(pieces, next, args) == Some(Format(later, next, args).value)
    ensures text == Rendered([Text([c])] + pieces, end)
    ensures Format(text, next, args).Ok?
    ensures Meaning([Text([c])] + pieces, next, args) == Some(Format(text, next, args).value)
  {
    CharRead(c, later, next, args);
    assert ([Text([c])] + pieces)[1..] == pieces;
    assert Escaped([c]) == EscapedChar(c) + "" && EscapedChar(c) + "" == EscapedChar(c);
  }

  lemma PieceText(text: string, index: ArgIndex, layout: Option<Layout>, rest: string, pieces: seq<Piece>, end: string)
    requires text != "" && text[0] == '{' && text[1..] == IndexText(index) + AfterIndex(layout, rest)
    requires rest == Rendered(pieces, end)
    ensures text == Rendered([Field(index, layout)] + pieces, end)
  {
    assert ([Field(index, layout)] + pieces)[1..] == pieces;
    assert text == "{" + text[1..];
  }

  lemma PieceMeaning(index: ArgIndex, layout: Option<Layout>, filled: Filled, pieces: seq<Piece>, later: Output,
                     next: int, args: seq<Arg>)
    requires FieldMeaning(index, layout, next, args) == Some(filled) && Meaning(pieces, filled.next, args) == Some(later)
    ensures Meaning([Field(index, layout)] + pieces, next, args) ==
            Some(Output(filled.text + later.text, filled.asked + later.asked))
  {
    assert ([Field(index, layout)] + pieces)[1..] == pieces;
  }

  lemma SpellPiece(text: string, index: ArgIndex, layout: Option<Layout>, filled: Filled, field: FieldResult,
                   pieces: seq<Piece>, end: string, next: int, args: seq<Arg>)
    requires text != "" && text[0] == '{' && Head(text[1..]) != '{' && ParseField(text[1..], next, args) == Ok(field)
    requires text[1..] == IndexText(index) + AfterIndex(layout, field.rest) && field.rest == Rendered(pieces, end)
    requires FieldMeaning(index, layout, next, args) == Some(filled)
    requires filled == Filled(Written(args[field.index].value, field.spec), field.next, field.asked)
    requires Format(field.rest, field.next, args).Ok?
    requires Meaning(pieces, field.next, args) == Some(Format(field.rest, field.next, args).value)
    ensures text == Rendered([Field(index, layout)] + pieces, end)
    ensures Format(text, next, args).Ok?
    ensures Meaning([Field(index, layout)] + pieces, next, args) == Some(Format(text, next, args).value)
  {
    FieldFirst(text, next, args);
    PieceText(text, index, layout, field.rest, pieces, end);
    PieceMeaning(index, layout, filled, pieces, Format(field.rest, field.next, args).value, next, args);
  }

  /** What follows the first character or field of an accepted string is accepted as well. */
  lemma Later(text: string, next: int, args: seq<Arg>)
    requires Format(text, next, args).Ok? && Head(text) != '\0'
    ensures var c := Head(text);
            && (c != '{' && c != '}' ==> Format(text[1..], next, args).Ok?)
            && (c in ['{', '}'] && Head(text[1..]) == c ==> Format(text[2..], next, args).Ok?)
            && (c in ['{', '}'] && Head(text[1..]) != c ==>
                  && c == '{' && ParseField(text[1..], next, args).Ok?
                  && var field := ParseField(text[1..], next, args).value; Format(field.rest, field.next, args).Ok?)
  {
  }

  /** Every accepted format string is a template written down. */
  lemma {:induction false} SpellString(text: string, next: int, args: seq<Arg>) returns (pieces: seq<Piece>, end: string)
    requires Format(text, next, args).Ok?
    ensures Ends(end) && text == Rendered(pieces, end)
    ensures Meaning(pieces, next, args) == Some(Format(text, next, args).value)
    decreases |text|
  {
    var c := Head(text);
    if c == '\0' {
      pieces, end := [], text;
    } else {
      Later(text, next, args);
      if (c != '{' && c != '}') || Head(text[1..]) == c {
        var later := text[|EscapedChar(c)|..];
        assert text == EscapedChar(c) + later;
        pieces, end := SpellString(later, next, args);
        SpellChar(c, text, later, pieces, end, next, args);
        pieces := [Text([c])] + pieces;
      } else {
        var field := ParseField(text[1..], next, args).value;
        var index, layout := SpellField(text[1..], next, args);
        pieces, end := SpellString(field.rest, field.next, args);
        SpellPiece(text, index, layout, FieldMeaning(index, layout, next, args).value, field, pieces, end, next, args);
        pieces := [Field(index, layout)] + pieces;
      }
    }
  }

  /**
  A format string is accepted, writes a text and asks for certain arguments exactly if it is an
  allowed template written down, up to its end or a NUL, that means just this.
  */
  lemma AcceptedIff(text: string, next: int, args: seq<Arg>, output: Output)
    ensures Format(text, next, args) == Ok(output) <==>
            exists pieces, end :: Ends(end) && text == Rendered(pieces, end) && Meaning(pieces, next, args) == Some(output)
  {
    if Format(text, next, args) == Ok(output) {
      var pieces, end := SpellString(text, next, args);
    }
    if pieces, end :| Ends(end) && text == Rendered(pieces, end) && Meaning(pieces, next, args) == Some(output) {
      FormatOfRendered(pieces, end, next, args);
    }
  }
}
