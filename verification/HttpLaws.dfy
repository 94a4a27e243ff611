/** What parse_request recovers, when it is safe, and what the merge of the header maps means. */
module HttpLaws {
  import opened Wrappers
  import opened HttpConstants
  import opened HttpParser

  // ----- Writing a request down -----

  datatype Field = Field(name: string, value: string)

  const CRLF: string := "\r\n"

  function FieldLine(f: Field): string {
    f.name + (": " + f.value)
  }

  function FieldsText(fields: seq<Field>): string {
    if fields == [] then CRLF else FieldLine(fields[0]) + (CRLF + FieldsText(fields[1..]))
  }

  function MethodName(m: Method): string {
    match m
    case OPTIONS => "OPTIONS"
    case GET => "GET"
    case HEAD => "HEAD"
    case POST => "POST"
    case PUT => "PUT"
    case DELETE => "DELETE"
    case TRACE => "TRACE"
    case CONNECT => "CONNECT"
  }

  function LineText(line: RequestLine): string {
    MethodName(line.m) + (" " + (line.uri + (" " + line.version)))
  }

  /** Request-Line, header lines and the empty line of section 5 of RFC 2616, without a body. */
  function RequestText(line: RequestLine, fields: seq<Field>): string {
    LineText(line) + (CRLF + FieldsText(fields))
  }

  predicate SpaceFree(s: string) {
    forall k :: 0 <= k < |s| ==> !IsSpace(s[k])
  }

  /** A field that fits on a line: no colon in its name, no line feed in either part. */
  predicate Lined(f: Field) {
    ':' !in f.name && '\n' !in f.name && '\n' !in f.value
  }

  // ----- Lines -----

  lemma {:induction false} LineOfText(line: string, rest: string)
    requires '\n' !in line
    ensures LineEnd(line + ("\n" + rest)) == |line|
    ensures Line(line + ("\n" + rest)) == line && AfterLine(line + ("\n" + rest)) == rest
  {
    var text := line + ("\n" + rest);
    if line == "" {
      assert text == "\n" + rest;
    } else {
      assert text[1..] == line[1..] + ("\n" + rest);
      assert line[0] in line && forall c :: c in line[1..] ==> c in line;
      LineOfText(line[1..], rest);
    }
    assert text[..|line|] == line && text[|line| + 1..] == rest;
  }

  // ----- The request line -----

  lemma {:induction false} TokensOfWord(word: string, rest: string)
    requires SpaceFree(word) && rest != "" && IsSpace(rest[0])
    ensures Tokens(word + rest) == [word] + Tokens(rest[1..])
  {
    if word == "" {
      assert word + rest == rest;
    } else {
      assert (word + rest)[1..] == word[1..] + rest;
      TokensOfWord(word[1..], rest);
      assert [word[0]] + word[1..] == word;
      assert ([word[1..]] + Tokens(rest[1..]))[1..] == Tokens(rest[1..]);
    }
  }

  lemma MethodIsWord(m: Method)
    ensures SpaceFree(MethodName(m)) && '\n' !in MethodName(m) && FindMethod(MethodName(m), 0) == Some(m)
  {
  }

  lemma ParseLineText(line: RequestLine)
    requires SpaceFree(line.uri) && SpaceFree(line.version)
    ensures ParseRequestLine(LineText(line) + "\r") == Some(line)
  {
    var name, uri, version := MethodName(line.m), line.uri, line.version;
    MethodIsWord(line.m);
    assert LineText(line) + "\r" == name + (" " + (uri + (" " + (version + "\r"))));
    TokensOfWord(name, " " + (uri + (" " + (version + "\r"))));
    assert (" " + (uri + (" " + (version + "\r"))))[1..] == uri + (" " + (version + "\r"));
    TokensOfWord(uri, " " + (version + "\r"));
    assert (" " + (version + "\r"))[1..] == version + "\r";
    TokensOfWord(version, "\r");
    assert "\r"[1..] == "";
    assert Tokens("") == [""];
    var tokens := [name] + ([uri] + ([version] + [""]));
    assert tokens[..3] == [name, uri, version];
  }

  // ----- The header lines -----

  lemma {:induction false} ColonOfName(name: string, rest: string)
    requires ':' !in name
    ensures FindColon(name + (":" + rest)) == Some(|name|)
  {
    if name == "" {
      assert name + (":" + rest) == ":" + rest;
    } else {
      assert (name + (":" + rest))[1..] == name[1..] + (":" + rest);
      assert name[0] in name && forall c :: c in name[1..] ==> c in name;
      ColonOfName(name[1..], rest);
    }
  }

  lemma ParseFieldLine(f: Field)
    requires Lined(f)
    ensures ParseHeaderLine(FieldLine(f) + "\r") == Header(f.name, f.value)
  {
    var line := FieldLine(f) + "\r";
    assert line == f.name + (":" + (" " + f.value + "\r"));
    ColonOfName(f.name, " " + f.value + "\r");
    assert line[..|line| - 1] == FieldLine(f);
    assert FieldLine(f)[..|f.name|] == f.name && FieldLine(f)[|f.name| + 2..] == f.value;
  }

  function AddFields(h: Headers, fields: seq<Field>): Headers
    decreases |fields|
  {
    if fields == [] then h else AddFields(AddHeader(h, fields[0].name, fields[0].value), fields[1..])
  }

  /** One header line that gives a header. */
  lemma HeaderTurn(h: Headers, text: string, name: string, value: string)
    requires text != "" && Line(text) != "" && ParseHeaderLine(Line(text)) == Header(name, value)
    ensures ParseHeaders(h, text) == ParseHeaders(AddHeader(h, name, value), AfterLine(text))
  {
  }

  lemma LastLine(h: Headers)
    ensures ParseHeaders(h, "\r" + ("\n" + "")) == Some((h, ""))
  {
    LineOfText("\r", "");
    assert FindColon("\r") == None;
  }

  lemma FieldLineHasNoLf(f: Field)
    requires Lined(f)
    ensures '\n' !in FieldLine(f) + "\r"
  {
  }

  lemma SplitCrlf(line: string, rest: string)
    ensures line + (CRLF + rest) == line + "\r" + ("\n" + rest)
  {
  }

  lemma {:induction false} ParseFieldsText(h: Headers, fields: seq<Field>)
    requires forall k :: 0 <= k < |fields| ==> Lined(fields[k])
    ensures ParseHeaders(h, FieldsText(fields)) == Some((AddFields(h, fields), ""))
    decreases |fields|
  {
    if fields == [] {
      LastLine(h);
      assert CRLF == "\r" + ("\n" + "");
    } else {
      var f, rest := fields[0], FieldsText(fields[1..]);
      SplitCrlf(FieldLine(f), rest);
      FieldLineHasNoLf(f);
      LineOfText(FieldLine(f) + "\r", rest);
      ParseFieldLine(f);
      HeaderTurn(h, FieldsText(fields), f.name, f.value);
      ParseFieldsText(AddHeader(h, f.name, f.value), fields[1..]);
    }
  }

  lemma ParseParts(text: string, line: RequestLine, headers: Headers)
    requires text != "" && ParseRequestLine(Line(text)) == Some(line)
    requires ParseHeaders(NO_HEADERS, AfterLine(text)) == Some((headers, ""))
    ensures Parse(NO_HEADERS, text) == Success(Request(line, headers, ""))
  {
  }

  lemma NoLineFeed(line: RequestLine)
    requires SpaceFree(line.uri) && SpaceFree(line.version)
    ensures '\n' !in LineText(line) + "\r"
  {
    MethodIsWord(line.m);
    assert '\n' !in line.uri && '\n' !in line.version;
  }

  /** Every request without a body, with `Name: value` headers and CRLF line ends, is recovered. */
  lemma ParseRequestText(line: RequestLine, fields: seq<Field>)
    requires SpaceFree(line.uri) && SpaceFree(line.version)
    requires forall k :: 0 <= k < |fields| ==> Lined(fields[k])
    ensures Parse(NO_HEADERS, RequestText(line, fields)) ==
            Success(Request(line, AddFields(NO_HEADERS, fields), ""))
  {
    var first := LineText(line) + "\r";
    SplitCrlf(LineText(line), FieldsText(fields));
    NoLineFeed(line);
    LineOfText(first, FieldsText(fields));
    ParseLineText(line);
    ParseFieldsText(NO_HEADERS, fields);
    ParseParts(RequestText(line, fields), line, AddFields(NO_HEADERS, fields));
  }

  // ----- Any input -----

  /** The lines up to the first empty one, which CRLF line ends never give. */
  function HeaderLines(rest: string): seq<string>
    decreases |rest|
  {
    if rest == "" || Line(rest) == "" then [] else [Line(rest)] + HeaderLines(AfterLine(rest))
  }

  function BodyOf(rest: string): string
    decreases |rest|
  {
    if rest == "" then "" else if Line(rest) == "" then AfterLine(rest) else BodyOf(AfterLine(rest))
  }

  function FieldsOf(lines: seq<string>): seq<Field> {
    if lines == [] then []
    else
      match ParseHeaderLine(lines[0])
      case Header(name, value) => [Field(name, value)] + FieldsOf(lines[1..])
      case _ => FieldsOf(lines[1..])
  }

  /** The first colon of the line is its last character, but for a carriage return. */
  predicate EndsAtColon(line: string) {
    var stripped := WithoutCr(line);
    |line| >= 2 && stripped != "" && stripped[|stripped| - 1] == ':' && ':' !in stripped[..|stripped| - 1]
  }

  lemma OutOfRangeIff(line: string)
    ensures ParseHeaderLine(line) == OutOfRange <==> EndsAtColon(line)
  {
    var stripped := WithoutCr(line);
    match FindColon(line)
    case None =>
      assert forall k :: 0 <= k < |stripped| ==> stripped[k] == line[k];
    case Some(colon) =>
      assert colon < |stripped| && stripped[..colon] == line[..colon];
      if colon < |stripped| - 1 {
        assert stripped[..|stripped| - 1][colon] == ':';
      }
  }

  lemma LaterLines(line: string, later: seq<string>)
    requires !EndsAtColon(line)
    ensures var lines := [line] + later;
            && lines[1..] == later
            && ((exists k :: 0 <= k < |lines| && EndsAtColon(lines[k])) <==>
                (exists k :: 0 <= k < |later| && EndsAtColon(later[k])))
  {
    var lines := [line] + later;
    if k :| 0 <= k < |later| && EndsAtColon(later[k]) {
      assert lines[k + 1] == later[k];
    }
    if k :| 0 <= k < |lines| && EndsAtColon(lines[k]) {
      assert lines[k] == if k == 0 then line else later[k - 1];
    }
  }

  /**
  Reading the headers throws exactly when one of the header lines ends at its first colon;
  otherwise it adds what the lines say, and takes the rest for the body.
  */
  lemma {:induction false} ParseHeadersIff(h: Headers, rest: string)
    ensures ParseHeaders(h, rest) ==
            if exists k :: 0 <= k < |HeaderLines(rest)| && EndsAtColon(HeaderLines(rest)[k]) then None
            else Some((AddFields(h, FieldsOf(HeaderLines(rest))), BodyOf(rest)))
    decreases |rest|
  {
    var lines := HeaderLines(rest);
    if lines != [] {
      var line, after := Line(rest), AfterLine(rest);
      assert lines == [line] + HeaderLines(after);
      OutOfRangeIff(line);
      match ParseHeaderLine(line)
      case OutOfRange =>
        assert EndsAtColon(lines[0]);
      case Skipped =>
        ParseHeadersIff(h, after);
        LaterLines(line, HeaderLines(after));
      case Header(name, value) =>
        ParseHeadersIff(AddHeader(h, name, value), after);
        LaterLines(line, HeaderLines(after));
    }
  }

  // ----- Bodies -----

  /** Two line feeds in a row: the only thing that the parser sees as an empty line. */
  predicate Blank(text: string, i: nat) {
    i + 1 < |text| && text[i] == '\n' && text[i + 1] == '\n'
  }

  ghost predicate FirstBlank(text: string, i: nat) {
    Blank(text, i) && forall j :: 0 <= j < i ==> !Blank(text, j)
  }

  ghost predicate NoBlank(text: string) {
    forall j :: 0 <= j < |text| ==> !Blank(text, j)
  }

  /** Without a line there is no line feed. */
  lemma OneLine(text: string)
    requires AfterLine(text) == "" && Line(text) != ""
    ensures NoBlank(text)
  {
    var end := LineEnd(text);
    forall j | 0 <= j < |text| ensures !Blank(text, j) {
      assert j < end ==> text[..end][j] == text[j];
    }
  }

  lemma LineParts(text: string)
    requires AfterLine(text) != ""
    ensures var end, after := LineEnd(text), AfterLine(text);
            && end + 1 + |after| == |text| && text[end] == '\n'
            && (forall k :: 0 <= k < end ==> text[k] != '\n')
            && (forall k :: 0 <= k < |after| ==> after[k] == text[end + 1 + k])
  {
    assert forall k :: 0 <= k < LineEnd(text) ==> text[k] == text[..LineEnd(text)][k];
  }

  /** The pairs of a text are those behind its first line, and the one that an empty second line makes. */
  lemma BlankBehind(text: string, j: nat)
    requires AfterLine(text) != ""
    ensures var end, after := LineEnd(text), AfterLine(text);
            && end + 1 + |after| == |text|
            && (Blank(text, j) <==> (j == end && Line(after) == "") || (j > end && Blank(after, j - end - 1)))
  {
    var end, after := LineEnd(text), AfterLine(text);
    LineParts(text);
    if j < end {
    } else if j == end {
      assert Line(after) == "" <==> after[0] == '\n';
    } else if j + 1 < |text| {
      assert after[j - end - 1] == text[j] && after[j - end] == text[j + 1];
    }
  }

  lemma FirstBlankBehind(text: string, i: nat)
    requires AfterLine(text) != "" && FirstBlank(text, i)
    ensures var end, after := LineEnd(text), AfterLine(text);
            && end <= i && end + 1 + |after| == |text| && text[end + 1..] == after
            && (Line(after) == "" ==> i == end && LineEnd(after) == 0)
            && (Line(after) != "" ==> i > end && FirstBlank(after, i - end - 1))
  {
    var end, after := LineEnd(text), AfterLine(text);
    BlankBehind(text, end);
    BlankBehind(text, i);
    if Line(after) != "" {
      forall j | 0 <= j < i - end - 1 ensures !Blank(after, j) {
        BlankBehind(text, j + end + 1);
      }
    }
  }

  /** What follows the first pair is the body. */
  lemma {:induction false} BodyBehindFirstBlank(text: string, i: nat)
    requires Line(text) != "" && FirstBlank(text, i)
    ensures BodyOf(AfterLine(text)) == text[i + 2..]
    decreases |text|
  {
    var end, after := LineEnd(text), AfterLine(text);
    if after == "" {
      OneLine(text);
      assert false;
    }
    FirstBlankBehind(text, i);
    if Line(after) == "" {
      assert AfterLine(after) == after[1..] == text[i + 2..];
    } else {
      BodyBehindFirstBlank(after, i - end - 1);
      assert after[i - end - 1 + 2..] == text[i + 2..];
    }
  }

  lemma {:induction false} NoBodyWithoutBlank(text: string)
    requires Line(text) != "" && NoBlank(text)
    ensures BodyOf(AfterLine(text)) == ""
    decreases |text|
  {
    var end, after := LineEnd(text), AfterLine(text);
    if after != "" {
      BlankBehind(text, end);
      forall j | 0 <= j < |after| ensures !Blank(after, j) {
        BlankBehind(text, j + end + 1);
      }
      NoBodyWithoutBlank(after);
    }
  }

  /** A request whose first line is empty is refused. */
  lemma RequestHasLine(before: Headers, text: string)
    requires Parse(before, text).Success?
    ensures Line(text) != ""
  {
    assert Tokens("") == [""];
  }

  lemma {:induction false} FindBlank(text: string, n: nat) returns (i: nat)
    requires exists j: nat :: j < n && Blank(text, j)
    ensures i < n && FirstBlank(text, i)
  {
    if j: nat :| j < n - 1 && Blank(text, j) {
      i := FindBlank(text, n - 1);
    } else {
      i := n - 1;
    }
  }

  /** The body is exactly what follows the first two adjacent line feeds of the request. */
  lemma BodyIs(before: Headers, text: string)
    requires Parse(before, text).Success?
    ensures var body := Parse(before, text).request.body;
            && (forall i: nat :: FirstBlank(text, i) ==> body == text[i + 2..])
            && (NoBlank(text) ==> body == "")
  {
    RequestHasLine(before, text);
    ParseHeadersIff(before, AfterLine(text));
    forall i: nat | FirstBlank(text, i) ensures BodyOf(AfterLine(text)) == text[i + 2..] {
      BodyBehindFirstBlank(text, i);
    }
    if NoBlank(text) {
      NoBodyWithoutBlank(text);
    }
  }

  /** So a request has a body exactly if something follows two adjacent line feeds in it. */
  lemma BodyIff(before: Headers, text: string)
    requires Parse(before, text).Success?
    ensures Parse(before, text).request.body != "" <==> exists i: nat :: i + 2 < |text| && Blank(text, i)
  {
    BodyIs(before, text);
    if j: nat :| j < |text| && Blank(text, j) {
      var i := FindBlank(text, |text|);
      assert Parse(before, text).request.body == text[i + 2..];
    }
  }

  /** Every line feed follows a carriage return. */
  ghost predicate CrlfOnly(text: string) {
    forall k :: 0 <= k < |text| && text[k] == '\n' ==> k > 0 && text[k - 1] == '\r'
  }

  /** With the line ends of RFC 2616 no line is seen as empty, so a message never has a body. */
  lemma NoBody(before: Headers, text: string)
    requires CrlfOnly(text) && Parse(before, text).Success?
    ensures Parse(before, text).request.body == ""
  {
    BodyIff(before, text);
    forall i: nat ensures !Blank(text, i) {
      assert i + 1 < |text| && text[i + 1] == '\n' ==> text[i + 1 - 1] == '\r';
    }
  }

  // ----- Three maps, or one -----

  /** Each map holds only names of its own kind. */
  ghost predicate Sorted(h: Headers) {
    && (forall n :: n in h.general ==> n in GENERAL_HEADER)
    && (forall n :: n in h.request ==> n in REQUEST_HEADER && n !in GENERAL_HEADER)
    && (forall n :: n in h.entity ==> n !in REQUEST_HEADER && n !in GENERAL_HEADER)
  }

  /** One map in which the first value for a name stays. */
  function FirstWins(m: HeaderMap, fields: seq<Field>): HeaderMap
    decreases |fields|
  {
    if fields == [] then m else FirstWins(Emplace(m, fields[0].name, fields[0].value), fields[1..])
  }

  lemma {:induction false} FirstWinsKeeps(m: HeaderMap, fields: seq<Field>, name: string)
    ensures name in m ==> name in FirstWins(m, fields) && FirstWins(m, fields)[name] == m[name]
    ensures name in FirstWins(m, fields) <==> name in m || exists k :: 0 <= k < |fields| && fields[k].name == name
    decreases |fields|
  {
    if fields != [] {
      FirstWinsKeeps(Emplace(m, fields[0].name, fields[0].value), fields[1..], name);
      if k :| 0 < k < |fields| && fields[k].name == name {
        assert fields[1..][k - 1].name == name;
      }
    }
  }

  /** The field at `k` is the first with the name. */
  predicate FirstNamed(fields: seq<Field>, k: nat, name: string)
    requires k < |fields|
  {
    fields[k].name == name && forall j :: 0 <= j < k ==> fields[j].name != name
  }

  /** The value of a name is that of the first field with the name. */
  lemma {:induction false} FirstWinsAt(m: HeaderMap, fields: seq<Field>, k: nat)
    requires k < |fields| && fields[k].name !in m && FirstNamed(fields, k, fields[k].name)
    ensures fields[k].name in FirstWins(m, fields) && FirstWins(m, fields)[fields[k].name] == fields[k].value
    decreases |fields|
  {
    var m' := Emplace(m, fields[0].name, fields[0].value);
    if k == 0 {
      FirstWinsKeeps(m', fields[1..], fields[0].name);
    } else {
      assert fields[1..][k - 1] == fields[k];
      FirstWinsAt(m', fields[1..], k - 1);
    }
  }

  /** What the merged map has for a name. */
  function Lookup(h: Headers, name: string): Option<string> {
    if name in h.general then Some(h.general[name])
    else if name in h.request then Some(h.request[name])
    else if name in h.entity then Some(h.entity[name]) else None
  }

  lemma GenericAt(h: Headers, name: string)
    ensures Lookup(h, name) == if name in ToGeneric(h) then Some(ToGeneric(h)[name]) else None
  {
  }

  /** The merged map follows if the lookups do. */
  lemma SameLookups(h: Headers, h': Headers, name: string, value: string)
    requires forall n :: Lookup(h', n) == if n == name && Lookup(h, n) == None then Some(value) else Lookup(h, n)
    ensures ToGeneric(h') == Emplace(ToGeneric(h), name, value)
  {
    var a, b := ToGeneric(h'), Emplace(ToGeneric(h), name, value);
    forall n ensures n in a <==> n in b {
      GenericAt(h, n);
      GenericAt(h', n);
    }
    forall n | n in a ensures a[n] == b[n] {
      GenericAt(h, n);
      GenericAt(h', n);
    }
  }

  lemma AddHeaderSorted(h: Headers, name: string, value: string)
    requires Sorted(h)
    ensures Sorted(AddHeader(h, name, value))
  {
  }

  lemma AddHeaderMerges(h: Headers, name: string, value: string)
    requires Sorted(h)
    ensures ToGeneric(AddHeader(h, name, value)) == Emplace(ToGeneric(h), name, value)
  {
    SameLookups(h, AddHeader(h, name, value), name, value);
  }

  /** Sorting headers into three maps and merging the maps again is one map in which the first value stays. */
  lemma {:induction false} MergeIsFirstWins(h: Headers, fields: seq<Field>)
    requires Sorted(h)
    ensures Sorted(AddFields(h, fields))
    ensures ToGeneric(AddFields(h, fields)) == FirstWins(ToGeneric(h), fields)
    decreases |fields|
  {
    if fields != [] {
      AddHeaderMerges(h, fields[0].name, fields[0].value);
      AddHeaderSorted(h, fields[0].name, fields[0].value);
      MergeIsFirstWins(AddHeader(h, fields[0].name, fields[0].value), fields[1..]);
    }
  }

  lemma NothingYet()
    ensures Sorted(NO_HEADERS) && ToGeneric(NO_HEADERS) == map[]
  {
  }

  /** So the headers of a request are passed on, each name once, with the value of its first field. */
  lemma GenericOfFields(fields: seq<Field>, name: string)
    ensures var generic := ToGeneric(AddFields(NO_HEADERS, fields));
            && (name in generic <==> exists k :: 0 <= k < |fields| && fields[k].name == name)
            && (forall k | 0 <= k < |fields| && FirstNamed(fields, k, name) :: generic[name] == fields[k].value)
  {
    NothingYet();
    MergeIsFirstWins(NO_HEADERS, fields);
    FirstWinsKeeps(map[], fields, name);
    forall k | 0 <= k < |fields| && FirstNamed(fields, k, name)
      ensures FirstWins(map[], fields)[name] == fields[k].value
    {
      FirstWinsAt(map[], fields, k);
    }
  }
}
