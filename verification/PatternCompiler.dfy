/** compile_pattern of pattern_formatter_impl.h: running the formatters is interpreting the pattern. */
module PatternCompiler {
  import opened PatternFlags

  // ----- What a pattern means -----

  /** An unknown flag appears as it is. */
  function FlagText(flag: char, shown: Shown): string
  {
    if IsFlag(flag) then shown(flag) else ['%', flag]
  }

  /** Character by character; a percent sign at the very end is dropped. */
  function Interpret(pattern: string, shown: Shown): string
    decreases |pattern|
  {
    if pattern == "" then ""
    else if pattern[0] != '%' then [pattern[0]] + Interpret(pattern[1..], shown)
    else if |pattern| == 1 then ""
    else FlagText(pattern[1], shown) + Interpret(pattern[2..], shown)
  }

  // ----- The formatters of a pattern -----

  /** `pattern_formatter::format` without the end of the line. */
  function Render(formatters: seq<Formatter>, shown: Shown): string
  {
    if formatters == [] then ""
    else
      Render(formatters[..|formatters| - 1], shown) + Show(formatters[|formatters| - 1], shown)
  }

  /** handle_flag: one formatter, or two characters. */
  function FlagFormatters(flag: char): (formatters: seq<Formatter>)
  {
    if IsFlag(flag) then [FlagFormatter(flag)] else [CharFormatter('%'), CharFormatter(flag)]
  }

  lemma RenderLast(formatters: seq<Formatter>, f: Formatter, shown: Shown)
    ensures Render(formatters + [f], shown) == Render(formatters, shown) + Show(f, shown)
  {
    assert (formatters + [f])[..|formatters|] == formatters;
  }

  lemma RenderFlag(formatters: seq<Formatter>, flag: char, shown: Shown)
    ensures Render(formatters + FlagFormatters(flag), shown) == Render(formatters, shown) + FlagText(flag, shown)
  {
    if IsFlag(flag) {
      RenderLast(formatters, FlagFormatter(flag), shown);
    } else {
      RenderLast(formatters, CharFormatter('%'), shown);
      RenderLast(formatters + [CharFormatter('%')], CharFormatter(flag), shown);
      assert formatters + [CharFormatter('%')] + [CharFormatter(flag)] == formatters + FlagFormatters(flag);
      assert Render(formatters, shown) + ['%'] + [flag] == Render(formatters, shown) + ['%', flag];
    }
  }

  /** The formatters so far with the characters that wait to be added. */
  function Flushed(formatters: seq<Formatter>, userChars: string): seq<Formatter> {
    if userChars == "" then formatters else formatters + [TextFormatter(userChars)]
  }

  /** What the loop of compile_pattern makes of a pattern, from some point on. */
  function Compile(formatters: seq<Formatter>, userChars: string, pattern: string): (all: seq<Formatter>)
    decreases |pattern|
  {
    if pattern == "" then Flushed(formatters, userChars)
    else if pattern[0] != '%' then Compile(formatters, userChars + [pattern[0]], pattern[1..])
    else if |pattern| == 1 then Flushed(formatters, userChars)
    else Compile(Flushed(formatters, userChars) + FlagFormatters(pattern[1]), "", pattern[2..])
  }

  lemma RenderFlushed(formatters: seq<Formatter>, userChars: string, shown: Shown)
    ensures Render(Flushed(formatters, userChars), shown) == Render(formatters, shown) + userChars
  {
    if userChars != "" {
      RenderLast(formatters, TextFormatter(userChars), shown);
    }
  }

  lemma FlagPreserves(formatters: seq<Formatter>, userChars: string, flag: char, shown: Shown)
    ensures Render(Flushed(formatters, userChars) + FlagFormatters(flag), shown) ==
            Render(formatters, shown) + userChars + FlagText(flag, shown)
  {
    RenderFlushed(formatters, userChars, shown);
    RenderFlag(Flushed(formatters, userChars), flag, shown);
  }

  lemma Reflag(before: string, text: string, rest: string)
    ensures before + text + "" + rest == before + (text + rest)
  {
  }

  lemma Regroup(a: string, b: string, c: string, d: string)
    ensures a + (b + c) + d == a + b + (c + d)
  {
  }

  /** Compiling preserves meaning, whatever was compiled before. */
  lemma {:induction false} CompilePreserves(formatters: seq<Formatter>, userChars: string, pattern: string, shown: Shown)
    ensures Render(Compile(formatters, userChars, pattern), shown) ==
            Render(formatters, shown) + userChars + Interpret(pattern, shown)
    decreases |pattern|
  {
    var before := Render(formatters, shown);
    if pattern == "" || (pattern[0] == '%' && |pattern| == 1) {
      RenderFlushed(formatters, userChars, shown);
      assert before + userChars + "" == before + userChars;
    } else if pattern[0] != '%' {
      CompilePreserves(formatters, userChars + [pattern[0]], pattern[1..], shown);
      Regroup(before, userChars, [pattern[0]], Interpret(pattern[1..], shown));
    } else {
      FlagPreserves(formatters, userChars, pattern[1], shown);
      var flushed := Flushed(formatters, userChars) + FlagFormatters(pattern[1]);
      CompilePreserves(flushed, "", pattern[2..], shown);
      Reflag(before + userChars, FlagText(pattern[1], shown), Interpret(pattern[2..], shown));
    }
  }

  /** The formatters of a whole pattern show what the pattern means, for every message. */
  lemma CompileIsInterpret(pattern: string, shown: Shown)
    ensures Render(Compile([], "", pattern), shown) == Interpret(pattern, shown)
  {
    CompilePreserves([], "", pattern, shown);
    assert "" + "" + Interpret(pattern, shown) == Interpret(pattern, shown);
  }

  class PatternFormatter {
    var formatters: seq<Formatter>

    constructor (pattern: string)
      ensures formatters == Compile([], "", pattern)
    {
      formatters := [];
      new;
      CompilePattern(pattern);
    }

    method CompilePattern(pattern: string)
      modifies this
      ensures formatters == Compile(old(formatters), "", pattern)
    {
      var userChars := "";
      var it := 0;
      assert pattern[0..] == pattern;
      while it < |pattern|
        invariant it <= |pattern|
        invariant Compile(formatters, userChars, pattern[it..]) == Compile(old(formatters), "", pattern)
      {
        var rest := pattern[it..];
        assert rest[0] == pattern[it] && rest[1..] == pattern[it + 1..];
        if pattern[it] == '%' {
          if userChars != "" {
            formatters := formatters + [TextFormatter(userChars)];
            userChars := "";
          }
          it := it + 1;
          if it == |pattern| {
            break;
          }
          assert rest[2..] == pattern[it + 1..];
          HandleFlag(pattern[it]);
        } else {
          userChars := userChars + [pattern[it]];
        }
        it := it + 1;
      }
      if userChars != "" {
        formatters := formatters + [TextFormatter(userChars)];
      }
    }

    method HandleFlag(flag: char)
      modifies this
      ensures formatters == old(formatters) + FlagFormatters(flag)
    {
      if IsFlag(flag) {
        formatters := formatters + [FlagFormatter(flag)];
      } else {
        formatters := formatters + [CharFormatter('%')];
        formatters := formatters + [CharFormatter(flag)];
      }
    }

    /** Every formatter appends what it shows to what is formatted already. */
    method Append(formatted: string, shown: Shown) returns (r: string)
      ensures r == formatted + Render(formatters, shown)
    {
      r := formatted;
      for k := 0 to |formatters|
        invariant r == formatted + Render(formatters[..k], shown)
      {
        assert formatters[..k + 1] == formatters[..k] + [formatters[k]];
        RenderLast(formatters[..k], formatters[k], shown);
        r := r + Show(formatters[k], shown);
      }
      assert formatters[..|formatters|] == formatters;
    }

    /** The message, and the end of the line. */
    method Format(msg: Msg, tm: Tm, formatted: string, eol: string) returns (r: string)
        ensures r == formatted + Render(formatters, ShownFor(msg, tm)) + eol
    {
      r := Append(formatted, ShownFor(msg, tm));
      r := r + eol;
    }
  }

  // ----- Laws of patterns -----

  /** No percent sign is left without a flag. */
  predicate Complete(pattern: string)
    decreases |pattern|
  {
    if pattern == "" then true
    else if pattern[0] != '%' then Complete(pattern[1..])
    else |pattern| >= 2 && Complete(pattern[2..])
  }

  lemma Assoc(x: string, y: string, z: string)
    ensures x + y + z == x + (y + z)
  {
  }

  /** Patterns can be put together. */
  lemma {:induction false} InterpretConcat(a: string, b: string, shown: Shown)
    requires Complete(a)
    ensures Interpret(a + b, shown) == Interpret(a, shown) + Interpret(b, shown)
    decreases |a|
  {
    if a == "" {
      assert a + b == b;
    } else if a[0] != '%' {
      assert (a + b)[1..] == a[1..] + b;
      InterpretConcat(a[1..], b, shown);
      Assoc([a[0]], Interpret(a[1..], shown), Interpret(b, shown));
    } else {
      assert (a + b)[2..] == a[2..] + b && (a + b)[1] == a[1];
      InterpretConcat(a[2..], b, shown);
      Assoc(FlagText(a[1], shown), Interpret(a[2..], shown), Interpret(b, shown));
    }
  }

  /** Text without a percent sign is shown as it is. */
  lemma {:induction false} InterpretText(text: string, shown: Shown)
    requires '%' !in text
    ensures Interpret(text, shown) == text
  {
    if text != "" {
      assert text[0] in text && forall c :: c in text[1..] ==> c in text;
      InterpretText(text[1..], shown);
    }
  }

  lemma {:induction false} TextIsComplete(text: string)
    requires '%' !in text
    ensures Complete(text)
  {
    if text != "" {
      assert text[0] in text && forall c :: c in text[1..] ==> c in text;
      TextIsComplete(text[1..]);
    }
  }

  /**
  Behind the text in front of its first percent sign a pattern shows its flag, or an unknown flag with
  the percent sign, and then the rest; a percent sign at the very end shows nothing.
  */
  lemma InterpretFirstFlag(text: string, flag: char, rest: string, shown: Shown)
    requires '%' !in text
    ensures Interpret(text + (['%', flag] + rest), shown) ==
            text + ((if IsFlag(flag) then shown(flag) else ['%', flag]) + Interpret(rest, shown))
    ensures Interpret(text + "%", shown) == text
  {
    TextIsComplete(text);
    InterpretText(text, shown);
    InterpretConcat(text, ['%', flag] + rest, shown);
    InterpretConcat(text, "%", shown);
    assert (['%', flag] + rest)[2..] == rest;
  }
}
