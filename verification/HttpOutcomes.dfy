/** Which lines parse_request accepts, what a header line means, and every result for any input. */
module HttpOutcomes {
  import opened Wrappers
  import opened HttpConstants
  import opened HttpParser
  import opened HttpLaws

  // ----- Which request lines are accepted -----

  /** White space of the C locale. */
  predicate White(c: char) {
    c as int == 32 || 9 <= c as int <= 13
  }

  predicate WhiteFree(s: string) {
    forall k :: 0 <= k < |s| ==> !White(s[k])
  }

  /** One white space character at the end, the carriage return as a rule, does not count. */
  function WithoutLastWhite(line: string): string {
    if line != "" && White(line[|line| - 1]) then line[..|line| - 1] else line
  }

  /** Without white space a text is one token. */
  lemma {:induction false} OneToken(s: string)
    ensures |Tokens(s)| == 1 <==> WhiteFree(s)
    ensures WhiteFree(s) ==> Tokens(s) == [s]
  {
    if s != "" {
      OneToken(s[1..]);
      assert WhiteFree(s) <==> !White(s[0]) && WhiteFree(s[1..]);
      assert [s[0]] + s[1..] == s;
    }
  }

  /** Otherwise the first token ends at the first white space character. */
  lemma {:induction false} FirstToken(s: string) returns (word: string, sep: char, rest: string)
    requires |Tokens(s)| >= 2
    ensures s == word + ([sep] + rest) && WhiteFree(word) && White(sep)
    ensures Tokens(s) == [word] + Tokens(rest)
  {
    if White(s[0]) {
      word, sep, rest := "", s[0], s[1..];
      assert s == "" + ([sep] + rest);
    } else {
      word, sep, rest := FirstToken(s[1..]);
      assert s == ([s[0]] + word) + ([sep] + rest);
      word := [s[0]] + word;
    }
  }

  function ConsToken(c: char, tokens: seq<string>): seq<string>
    requires |tokens| >= 1
  {
    if IsSpace(c) then [""] + tokens else [[c] + tokens[0]] + tokens[1..]
  }

  lemma TokensCons(line: string)
    requires line != ""
    ensures Tokens(line) == ConsToken(line[0], Tokens(line[1..]))
  {
  }

  lemma ConsLonger(c: char, tokens: seq<string>)
    requires |tokens| >= 1
    ensures ConsToken(c, tokens + [""]) == ConsToken(c, tokens) + [""]
  {
  }

  /** White space at the end leaves an empty token there, and nothing else does. */
  lemma {:induction false} LastToken(line: string)
    requires line != ""
    ensures var tokens, init := Tokens(line), line[..|line| - 1];
            if White(line[|line| - 1]) then tokens == Tokens(init) + [""] else tokens[|tokens| - 1] != ""
  {
    TokensCons(line);
    if |line| == 1 {
      assert line[1..] == "" && line[..0] == "" && Tokens("") == [""];
    } else {
      var init, later := line[..|line| - 1], line[1..];
      LastToken(later);
      assert later[..|later| - 1] == init[1..] && later[|later| - 1] == line[|line| - 1];
      TokensCons(init);
      ConsLonger(line[0], Tokens(init[1..]));
    }
  }

  lemma DroppedToken(line: string)
    ensures WithoutLastEmpty(Tokens(line)) == if line == "" then [] else Tokens(WithoutLastWhite(line))
  {
    if line != "" {
      LastToken(line);
      var tokens := Tokens(line[..|line| - 1]);
      assert (tokens + [""])[..|tokens|] == tokens;
    }
  }

  /** Three parts with one character between neighbours. */
  function ThreeParts(a: string, v: char, b: string, w: char, c: string): string {
    a + ([v] + (b + ([w] + c)))
  }

  lemma TokensOfParts(a: string, v: char, b: string, w: char, c: string)
    requires WhiteFree(a) && WhiteFree(b) && WhiteFree(c) && White(v) && White(w)
    ensures Tokens(ThreeParts(a, v, b, w, c)) == [a, b, c]
  {
    TokensOfWord(a, [v] + (b + ([w] + c)));
    assert ([v] + (b + ([w] + c)))[1..] == b + ([w] + c);
    TokensOfWord(b, [w] + c);
    assert ([w] + c)[1..] == c;
    OneToken(c);
    assert [a] + ([b] + [c]) == [a, b, c];
  }

  lemma PartsOfTokens(s: string) returns (a: string, v: char, b: string, w: char, c: string)
    requires |Tokens(s)| == 3
    ensures WhiteFree(a) && WhiteFree(b) && WhiteFree(c) && White(v) && White(w)
    ensures s == ThreeParts(a, v, b, w, c) && Tokens(s) == [a, b, c]
  {
    var rest: string;
    a, v, rest := FirstToken(s);
    assert |Tokens(rest)| == 2;
    b, w, c := FirstToken(rest);
    assert |Tokens(c)| == 1;
    OneToken(c);
    assert [a] + ([b] + [c]) == [a, b, c];
  }

  lemma {:induction false} FindMethodIff(name: string, from: nat)
    requires from <= |METHODS|
    ensures FindMethod(name, from).Some? ==>
              exists k :: from <= k < |METHODS| && METHODS[k] == (name, FindMethod(name, from).value)
    ensures FindMethod(name, from).None? ==> forall k :: from <= k < |METHODS| ==> METHODS[k].0 != name
    decreases |METHODS| - from
  {
    if from < |METHODS| && METHODS[from].0 != name {
      FindMethodIff(name, from + 1);
    }
  }

  lemma MethodTable(k: nat)
    requires k < |METHODS|
    ensures METHODS[k].0 == MethodName(METHODS[k].1)
  {
  }

  /** A name is a method exactly if it is one of the eight. */
  lemma MethodIff(name: string, m: Method)
    ensures FindMethod(name, 0) == Some(m) <==> name == MethodName(m)
  {
    MethodIsWord(m);
    FindMethodIff(name, 0);
    if FindMethod(name, 0) == Some(m) {
      var k :| 0 <= k < |METHODS| && METHODS[k] == (name, m);
      MethodTable(k);
    }
  }

  lemma MethodIsWhiteFree(m: Method)
    ensures WhiteFree(MethodName(m))
  {
  }

  lemma AcceptedLine(line: string)
    requires |WithoutLastEmpty(Tokens(line))| == 3
    ensures var tokens := WithoutLastEmpty(Tokens(line));
            ParseRequestLine(line) == match FindMethod(tokens[0], 0)
                                      case None => None
                                      case Some(m) => Some(RequestLine(m, tokens[1], tokens[2]))
  {
  }

  /** The line is, but for one white space character at its end, the three parts of `r`. */
  ghost predicate IsRequestLine(line: string, r: RequestLine) {
    && WhiteFree(r.uri) && WhiteFree(r.version)
    && exists v, w :: White(v) && White(w)
         && WithoutLastWhite(line) == ThreeParts(MethodName(r.m), v, r.uri, w, r.version)
  }

  /**
  A request line is accepted exactly if it is, but for one white space character at its end, a
  method, the URI and the version with one white space character between neighbours.
  */
  lemma RequestLineIff(line: string, r: RequestLine)
    ensures ParseRequestLine(line) == Some(r) <==> IsRequestLine(line, r)
  {
    var core, tokens := WithoutLastWhite(line), WithoutLastEmpty(Tokens(line));
    DroppedToken(line);
    MethodIsWhiteFree(r.m);
    if ParseRequestLine(line) == Some(r) {
      AcceptedLine(line);
      MethodIff(tokens[0], r.m);
      var a, v, b, w, c := PartsOfTokens(core);
      assert core == ThreeParts(MethodName(r.m), v, r.uri, w, r.version);
    }
    if IsRequestLine(line, r) {
      var v, w :| White(v) && White(w) && core == ThreeParts(MethodName(r.m), v, r.uri, w, r.version);
      TokensOfParts(MethodName(r.m), v, r.uri, w, r.version);
      MethodIff(MethodName(r.m), r.m);
      AcceptedLine(line);
    }
  }

  // ----- Header lines -----

  /** One carriage return at the end of a line does not count. */
  function WithoutReturn(line: string): string {
    if line != "" && line[|line| - 1] == '\r' then line[..|line| - 1] else line
  }

  lemma HeaderOfParts(line: string, name: string, c: char, value: string)
    requires |line| >= 2 && ':' !in name && WithoutReturn(line) == name + ([':', c] + value)
    ensures ParseHeaderLine(line) == Header(name, value)
  {
    var stripped := WithoutReturn(line);
    assert stripped == WithoutCr(line);
    assert line == name + (":" + line[|name| + 1..]);
    ColonOfName(name, line[|name| + 1..]);
    assert stripped[..|name|] == name && stripped[|name| + 2..] == value;
  }

  /**
  What a header line means: the text before its first colon names the header, and its value starts
  behind the character that follows the colon.  Other lines mean nothing.
  */
  lemma HeaderLineIff(line: string, name: string, value: string)
    ensures ParseHeaderLine(line) == Header(name, value) <==>
            && |line| >= 2 && ':' !in name
            && exists c :: WithoutReturn(line) == name + ([':', c] + value)
    ensures ParseHeaderLine(line) == Skipped <==> |line| < 2 || ':' !in line
  {
    if ParseHeaderLine(line) == Header(name, value) {
      var stripped, colon := WithoutReturn(line), FindColon(line).value;
      assert stripped == WithoutCr(line) && stripped[..colon] == line[..colon];
      assert stripped == name + ([':', stripped[colon + 1]] + value);
    }
    if c :| |line| >= 2 && ':' !in name && WithoutReturn(line) == name + ([':', c] + value) {
      HeaderOfParts(line, name, c, value);
    }
  }

  // ----- Every outcome -----

  /** Which of its four results parse_request gives, for any input. */
  lemma OutcomeIff(before: Headers, text: string)
    ensures var r, first := Parse(before, text), Line(text);
            && (r.EmptyRequest? <==> text == "")
            && (r.InvalidRequestLine? <==> text != "" && forall line :: !IsRequestLine(first, line))
            && (r.Success? ==>
                  && IsRequestLine(first, r.request.line)
                  && r.request.headers == AddFields(before, FieldsOf(HeaderLines(AfterLine(text)))))
            && (r.Terminated? <==>
                  && text != "" && (exists line :: IsRequestLine(first, line))
                  && exists k :: 0 <= k < |HeaderLines(AfterLine(text))| && EndsAtColon(HeaderLines(AfterLine(text))[k]))
  {
    forall line ensures ParseRequestLine(Line(text)) == Some(line) <==> IsRequestLine(Line(text), line) {
      RequestLineIff(Line(text), line);
    }
    ParseHeadersIff(before, AfterLine(text));
  }
}
