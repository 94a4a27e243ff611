/**
BasicFormatter of format.h as it runs: a pointer that moves along the format string, the
numbering of the arguments, and the writer.  A `const Char *` is the text from there on.
*/
module Formatter {
  import opened Wrappers
  import opened Decimal
  import opened NumberParse
  import opened IntPadding
  import opened ArgList
  import opened FormatGrammar
  import opened MemoryBuffer

  /** The whole result is what was done so far, and then the result from here on. */
  ghost predicate Reaches(whole: Result<Output, FormatError>, done: Progress, later: Result<Output, FormatError>) {
    whole == Prepend(done.written + done.pending, done.asked, later)
  }

  ghost function AfterField(done: Progress, field: FieldResult, args: seq<Arg>): Progress
    requires field.index < |args| && IsKind(field.spec.kind)
  {
    Progress(done.written + done.pending + Written(args[field.index].value, field.spec), "", done.asked + field.asked)
  }

  lemma TextReaches(whole: Result<Output, FormatError>, done: Progress, s: string, next: int, args: seq<Arg>)
    requires Head(s) !in ['{', '}', '\0'] && Reaches(whole, done, FormatGrammar.Format(s, next, args))
    ensures Reaches(whole, done.(pending := done.pending + [s[0]]), FormatGrammar.Format(s[1..], next, args))
  {
    var none: seq<Request> := [];
    PrependTwice(done.written + done.pending, [s[0]], done.asked, none, FormatGrammar.Format(s[1..], next, args));
    assert done.asked + none == done.asked;
    Regroup(done.written, done.pending, [s[0]]);
  }

  function AfterEscape(done: Progress, c: char): Progress {
    Progress(done.written + (done.pending + [c]), "", done.asked)
  }

  lemma EscapeReaches(whole: Result<Output, FormatError>, done: Progress, s: string, next: int, args: seq<Arg>)
    requires Head(s) in ['{', '}'] && Head(s[1..]) == s[0] && Reaches(whole, done, FormatGrammar.Format(s, next, args))
    ensures Reaches(whole, AfterEscape(done, s[0]), FormatGrammar.Format(s[2..], next, args))
  {
    var none: seq<Request> := [];
    PrependTwice(done.written + done.pending, [s[0]], done.asked, none, FormatGrammar.Format(s[2..], next, args));
    assert done.asked + none == done.asked;
    Regroup(done.written, done.pending, [s[0]]);
    assert done.written + (done.pending + [s[0]]) + "" == done.written + (done.pending + [s[0]]);
  }

  lemma FieldReaches(whole: Result<Output, FormatError>, done: Progress, s: string, next: int, args: seq<Arg>)
    requires Head(s) == '{' && Head(s[1..]) != '{' && Reaches(whole, done, FormatGrammar.Format(s, next, args))
    ensures match ParseField(s[1..], next, args)
            case Err(e) => whole == Err(e)
            case Ok(field) =>
              Reaches(whole, AfterField(done, field, args), FormatGrammar.Format(field.rest, field.next, args))
  {
    if ParseField(s[1..], next, args).Ok? {
      var field := ParseField(s[1..], next, args).value;
      var written := Written(args[field.index].value, field.spec);
      var before := done.written + done.pending;
      assert before + written + "" == before + written;
      PrependTwice(before, written, done.asked, field.asked, FormatGrammar.Format(field.rest, field.next, args));
    }
  }

  class BasicFormatter {
    const base: FormatterBase
    const writer: Buffer

    constructor (base: FormatterBase, writer: Buffer)
      ensures this.base == base && this.writer == writer
    {
      this.base, this.writer := base, writer;
    }

    ghost predicate Valid()
      reads writer
    {
      base.Valid() && AreIntegers(base.contents) && writer.Valid()
    }

    method ParseIndex(s: string) returns (r: Result<Arg, FormatError>, rest: string)
      requires base.Valid()
      modifies base
      ensures match ParseArgIndex(s, old(base.nextArgIndex), |base.contents|)
              case Err(e) => r == Err(e)
              case Ok(served) =>
                r == Ok(base.contents[served.index]) && rest == served.rest && base.nextArgIndex == served.next
    {
      rest := s;
      var arg: Result<Arg, IndexError>;
      if !IsDigit(Head(s)) {
        arg := base.NextArg();
      } else {
        assert s[0..] == s;
        var number, end := ParseNonnegativeInt(s, 0);
        if number.Err? {
          return Err(NumberTooBig), rest;
        }
        rest := s[end..];
        arg := base.GetArg(number.value);
      }
      r := match arg
           case Ok(a) => Ok(a)
           case Err(e) => Err(if Head(rest) in ['}', ':'] then Index(e) else InvalidFormat);
    }

    /** Fill and alignment: the second character is looked at first, then the first one. */
    method ParseFillAndAlign(s: string) returns (r: Result<(Spec, string), FormatError>)
      ensures r == ParseAlign(s)
    {
      var spec, rest := DEFAULT_SPEC, s;
      if Head(s) != '\0' {
        var c, p := s[0], 1;
        while p >= 0
          invariant -1 <= p <= 1 && spec == DEFAULT_SPEC && rest == s
          invariant forall q :: p < q <= 1 ==> AlignOf(Head(s[q..])) == Default
        {
          spec := spec.(align := AlignOf(Head(s[p..])));
          if spec.align != Default {
            if p != 0 {
              if c == '}' {
                break;
              }
              if c == '{' {
                return Err(InvalidFill);
              }
              spec, rest := spec.(fill := c), s[2..];
            } else {
              assert s[0..] == s;
              rest := s[1..];
            }
            break;
          }
          p := p - 1;
        }
        assert s[0..] == s;
      }
      return Ok((spec, rest));
    }

    /** The value of an argument in braces. */
    method ParseBracedNumber(s: string, negative: FormatError) returns (r: Result<(nat, string), FormatError>)
      requires base.Valid()
      modifies base
      ensures match ParseBraced(s, old(base.nextArgIndex), base.contents, negative)
              case Err(e) => r == Err(e)
              case Ok(b) => r == Ok((b.count, b.rest)) && base.nextArgIndex == b.next
    {
      if IsNameStart(Head(s)) {
        return Err(NameError(base.nextArgIndex));
      }
      var arg, rest := ParseIndex(s);
      if arg.Err? {
        return Err(arg.error);
      }
      var count := arg.value.value;
      if Head(rest) != '}' {
        r := Err(InvalidFormat);
      } else if count < 0 {
        r := Err(negative);
      } else if count > INT_MAX {
        r := Err(NumberTooBig);
      } else {
        r := Ok((count, rest[1..]));
      }
    }

    method ParseFieldWidth(spec: Spec, s: string) returns (r: Result<(Spec, string), FormatError>)
      requires base.Valid()
      modifies base
      ensures match ParseWidth(spec, s, old(base.nextArgIndex), base.contents)
              case Err(e) => r == Err(e)
              case Ok(p) => r == Ok((p.spec, p.rest)) && base.nextArgIndex == p.next
    {
      if IsDigit(Head(s)) {
        assert s[0..] == s;
        var number, end := ParseNonnegativeInt(s, 0);
        r := if number.Err? then Err(NumberTooBig) else Ok((spec.(width := number.value), s[end..]));
      } else if Head(s) != '{' {
        r := Ok((spec, s));
      } else {
        var braced := ParseBracedNumber(s[1..], NegativeWidth);
        r := match braced
             case Err(e) => Err(e)
             case Ok((width, rest)) => Ok((spec.(width := width), rest));
      }
    }

    /** Integers have no precision: what follows the point decides which error it is. */
    method ParseFieldPrecision(s: string) returns (error: FormatError)
      requires base.Valid()
      modifies base
      ensures error == PrecisionError(s, old(base.nextArgIndex), base.contents)
    {
      error := PrecisionNotAllowed;
      if IsDigit(Head(s)) {
        assert s[0..] == s;
        var number, _ := ParseNonnegativeInt(s, 0);
        if number.Err? {
          error := NumberTooBig;
        }
      } else if Head(s) != '{' {
        error := MissingPrecision;
      } else {
        var braced := ParseBracedNumber(s[1..], NegativePrecision);
        if braced.Err? {
          error := braced.error;
        }
      }
    }

    /** The parts of a format one after the other. */
    method ParseFieldSpec(s: string, arg: Arg) returns (r: Result<(Spec, string), FormatError>)
      requires base.Valid()
      modifies base
      ensures match ParseSpec(s, arg, old(base.nextArgIndex), base.contents)
              case Err(e) => r == Err(e)
              case Ok(p) => r == Ok((p.spec, p.rest)) && base.nextArgIndex == p.next
    {
      var aligned := ParseFillAndAlign(s);
      if aligned.Err? {
        return Err(aligned.error);
      }
      var signed := ParseSign(aligned.value.0, aligned.value.1, arg);
      if signed.Err? {
        return Err(signed.error);
      }
      var (spec3, rest3) := ParseHash(signed.value.0, signed.value.1);
      var (spec4, rest4) := ParseZero(spec3, rest3);
      var widened := ParseFieldWidth(spec4, rest4);
      if widened.Err? {
        return Err(widened.error);
      }
      var (spec5, rest5) := widened.value;
      if Head(rest5) == '.' {
        var error := ParseFieldPrecision(rest5[1..]);
        return Err(error);
      }
      r := Ok(ParseKind(spec5, rest5));
    }

    /** Parses one field, after its opening brace, and writes its argument. */
    method FormatField(s: string) returns (r: Result<string, FormatError>)
      requires Valid()
      modifies base, writer, writer.store
      ensures Valid() && (writer.store == old(writer.store) || fresh(writer.store))
      ensures match ParseField(s, old(base.nextArgIndex), base.contents)
              case Err(e) => r == Err(e)
              case Ok(field) =>
                && r == Ok(field.rest) && base.nextArgIndex == field.next
                && writer.Contents() ==
                   old(writer.Contents()) + Written(base.contents[field.index].value, field.spec)
    {
      if IsNameStart(Head(s)) {
        return Err(NameError(base.nextArgIndex));
      }
      var arg, rest := ParseIndex(s);
      if arg.Err? {
        return Err(arg.error);
      }
      var spec := DEFAULT_SPEC;
      if Head(rest) == ':' {
        var parsed := ParseFieldSpec(rest[1..], arg.value);
        if parsed.Err? {
          return Err(parsed.error);
        }
        spec, rest := parsed.value.0, parsed.value.1;
      }
      if Head(rest) != '}' {
        return Err(MissingBrace);
      }
      var known := writer.WriteInt(arg.value.value, spec);
      r := if known then Ok(rest[1..]) else Err(UnknownType);
    }

    /** Writes the text between two pointers. */
    method Write(start: string, s: string, ghost between: string, ghost origin: string, ghost written: string)
      requires writer.Valid() && start == between + s && writer.Contents() == origin + written
      modifies writer, writer.store
      ensures writer.Valid() && (writer.store == old(writer.store) || fresh(writer.store))
      ensures writer.Contents() == origin + (written + between)
    {
      if |start| != |s| {
        writer.Append(start[..|start| - |s|]);
        assert start[..|start| - |s|] == between;
        assert origin + written + between == origin + (written + between);
      }
    }

    /** A field: the text before it, and its argument. */
    method WriteField(start: string, s: string, ghost field: Result<FieldResult, FormatError>, ghost done: Progress,
                      ghost origin: string)
      returns (r: Result<string, FormatError>)
      requires Valid() && start == done.pending + (['{'] + s) && writer.Contents() == origin + done.written
      requires field == ParseField(s, base.nextArgIndex, base.contents)
      modifies base, writer, writer.store
      ensures Valid() && (writer.store == old(writer.store) || fresh(writer.store))
      ensures match field
              case Err(e) => r == Err(e)
              case Ok(f) =>
                && r == Ok(f.rest) && base.nextArgIndex == f.next
                && writer.Contents() == origin + AfterField(done, f, base.contents).written
    {
      Write(start, ['{'] + s, done.pending, origin, done.written);
      ghost var before := done.written + done.pending;
      r := FormatField(s);
      if r.Ok? {
        Regroup(origin, before, Written(base.contents[field.value.index].value, field.value.spec));
      }
    }

    /** What holds at the head of the loop: see Reaches. */
    ghost predicate InLoop(whole: Result<Output, FormatError>, done: Progress, start: string, s: string, origin: string)
      requires Valid()
      reads base, writer, writer.store
    {
      && start == done.pending + s && writer.Contents() == origin + done.written
      && Reaches(whole, done, FormatGrammar.Format(s, base.nextArgIndex, base.contents))
    }

    /** A doubled brace: what was read, and one brace. */
    method EscapeTurn(start: string, s: string, ghost whole: Result<Output, FormatError>, ghost done: Progress,
                      ghost origin: string)
      returns (s': string, ghost done': Progress)
      requires Valid() && Head(s) in ['{', '}'] && Head(s[1..]) == s[0] && InLoop(whole, done, start, s, origin)
      modifies base, writer, writer.store
      ensures Valid() && (writer.store == old(writer.store) || fresh(writer.store))
      ensures |s'| < |s| && InLoop(whole, done', s', s', origin)
    {
      EscapeReaches(whole, done, s, base.nextArgIndex, base.contents);
      assert start == done.pending + [s[0]] + s[1..];
      Write(start, s[1..], done.pending + [s[0]], origin, done.written);
      s', done' := s[2..], AfterEscape(done, s[0]);
    }

    /** A field: what was read, and its argument. */
    method FieldTurn(start: string, s: string, ghost whole: Result<Output, FormatError>, ghost done: Progress,
                     ghost origin: string)
      returns (error: Option<FormatError>, s': string, ghost done': Progress)
      requires Valid() && Head(s) == '{' && Head(s[1..]) != '{' && InLoop(whole, done, start, s, origin)
      modifies base, writer, writer.store
      ensures Valid() && (writer.store == old(writer.store) || fresh(writer.store))
      ensures error.Some? ==> whole == Err(error.value)
      ensures error.None? ==> |s'| < |s| && InLoop(whole, done', s', s', origin)
    {
      FieldReaches(whole, done, s, base.nextArgIndex, base.contents);
      ghost var field := ParseField(s[1..], base.nextArgIndex, base.contents);
      assert s == ['{'] + s[1..];
      var result := WriteField(start, s[1..], field, done, origin);
      match result {
        case Err(e) => error, s', done' := Some(e), s, done;
        case Ok(rest) => error, s', done' := None, rest, AfterField(done, field.value, base.contents);
      }
    }

    /** Writes what the format string stands for; stops at the first error. */
    method Format(text: string) returns (error: Option<FormatError>)
      requires Valid()
      modifies base, writer, writer.store
      ensures Valid() && (writer.store == old(writer.store) || fresh(writer.store))
      ensures match FormatGrammar.Format(text, old(base.nextArgIndex), base.contents)
              case Err(e) => error == Some(e)
              case Ok(output) => error == None && writer.Contents() == old(writer.Contents()) + output.text
    {
      var s, start := text, text;
      ghost var whole := FormatGrammar.Format(text, base.nextArgIndex, base.contents);
      ghost var done, origin := Progress("", "", []), writer.Contents();
      NothingBefore(whole);
      assert done.written + done.pending == "";
      while Head(s) != '\0'
        invariant Valid() && (writer.store == old(writer.store) || fresh(writer.store))
        invariant InLoop(whole, done, start, s, origin)
        decreases |s|
      {
        if s[0] != '{' && s[0] != '}' {
          TextReaches(whole, done, s, base.nextArgIndex, base.contents);
          done := done.(pending := done.pending + [s[0]]);
          s := s[1..];
        } else if Head(s[1..]) == s[0] {
          s, done := EscapeTurn(start, s, whole, done, origin);
          start := s;
        } else if s[0] == '}' {
          return Some(UnmatchedBrace);
        } else {
          error, s, done := FieldTurn(start, s, whole, done, origin);
          if error.Some? {
            return error;
          }
          start := s;
        }
      }
      Write(start, s, done.pending, origin, done.written);
      return None;
    }
  }

  /** What has been written, what was read since, and which arguments were asked for. */
  datatype Progress = Progress(written: string, pending: string, asked: seq<Request>)
}
