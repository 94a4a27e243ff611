/**
parse_request of libhttp-cpp/src/http_protocol_one_one.cpp and to_generic of http_structure.cpp:
a request is read line by line, and its headers are sorted into three maps.
*/
module HttpParser {
  import opened Wrappers
  import opened HttpConstants

  // ----- Lines: std::getline on what is left of the request -----

  function LineEnd(rest: string): (end: nat)
    ensures end <= |rest| && '\n' !in rest[..end] && (end < |rest| ==> rest[end] == '\n')
  {
    if rest == "" || rest[0] == '\n' then 0
    else
      var end := LineEnd(rest[1..]);
      assert rest[..end + 1] == [rest[0]] + rest[1..][..end];
      end + 1
  }

  function Line(rest: string): string {
    rest[..LineEnd(rest)]
  }

  function AfterLine(rest: string): (after: string)
    ensures rest != "" ==> |after| < |rest|
  {
    if LineEnd(rest) == |rest| then "" else rest[LineEnd(rest) + 1..]
  }

  // ----- The request line -----

  predicate IsSpace(c: char) {
    c == ' ' || c == '\t' || c == '\n' || c as int == 11 || c as int == 12 || c == '\r'
  }

  /** boost::split at white space: every white space character separates. */
  function Tokens(s: string): (tokens: seq<string>)
    ensures |tokens| >= 1
  {
    if s == "" then [""]
    else
      var rest := Tokens(s[1..]);
      if IsSpace(s[0]) then [""] + rest else [[s[0]] + rest[0]] + rest[1..]
  }

  /** A carriage return at the end leaves an empty token, which is dropped. */
  function WithoutLastEmpty(tokens: seq<string>): seq<string>
    requires |tokens| >= 1
  {
    if tokens[|tokens| - 1] == "" then tokens[..|tokens| - 1] else tokens
  }

  function FindMethod(name: string, from: nat): Option<Method>
    requires from <= |METHODS|
    decreases |METHODS| - from
  {
    if from == |METHODS| then None
    else if METHODS[from].0 == name then Some(METHODS[from].1) else FindMethod(name, from + 1)
  }

  datatype RequestLine = RequestLine(m: Method, uri: string, version: string)

  function ParseRequestLine(line: string): Option<RequestLine> {
    var tokens := WithoutLastEmpty(Tokens(line));
    if |tokens| != 3 then None
    else
      match FindMethod(tokens[0], 0)
      case None => None
      case Some(m) => Some(RequestLine(m, tokens[1], tokens[2]))
  }

  // ----- Headers -----

  type HeaderMap = map<string, string>

  datatype Headers = Headers(general: HeaderMap, request: HeaderMap, entity: HeaderMap)

  const NO_HEADERS: Headers := Headers(map[], map[], map[])

  /** std::map::emplace: the first value for a key stays. */
  function Emplace(m: HeaderMap, name: string, value: string): HeaderMap {
    if name in m then m else m[name := value]
  }

  /**
  The last test of the source compares with the end of another list, so every name that is
  neither general nor a request header counts as an entity header.
  */
  function AddHeader(h: Headers, name: string, value: string): Headers {
    if name in GENERAL_HEADER then h.(general := Emplace(h.general, name, value))
    else if name in REQUEST_HEADER then h.(request := Emplace(h.request, name, value))
    else h.(entity := Emplace(h.entity, name, value))
  }

  function FindColon(line: string): (position: Option<nat>)
    ensures position.Some? ==> position.value < |line| && line[position.value] == ':' && ':' !in line[..position.value]
    ensures position.None? ==> ':' !in line
  {
    if line == "" then None
    else if line[0] == ':' then Some(0)
    else
      match FindColon(line[1..])
      case None => None
      case Some(p) =>
        assert line[..p + 1] == [line[0]] + line[1..][..p];
        Some(p + 1)
  }

  function WithoutCr(line: string): string {
    if line != "" && line[|line| - 1] == '\r' then line[..|line| - 1] else line
  }

  /** What a header line gives: nothing, a header, or an access past the end of the line. */
  datatype LineResult = Skipped | Header(name: string, value: string) | OutOfRange

  function ParseHeaderLine(line: string): LineResult {
    match FindColon(line)
    case None => Skipped
    case Some(colon) =>
      if |line| < 2 then Skipped
      else
        var stripped := WithoutCr(line);
        if colon + 2 > |stripped| then OutOfRange else Header(stripped[..colon], stripped[colon + 2..])
  }

  function AddLine(h: Headers, line: string): Option<Headers> {
    match ParseHeaderLine(line)
    case Skipped => Some(h)
    case Header(name, value) => Some(AddHeader(h, name, value))
    case OutOfRange => None
  }

  /** The header loop: the headers and the message body, or None if substr throws. */
  function ParseHeaders(h: Headers, rest: string): Option<(Headers, string)>
    decreases |rest|
  {
    if rest == "" then Some((h, ""))
    else if Line(rest) == "" then Some((h, AfterLine(rest)))
    else
      match AddLine(h, Line(rest))
      case None => None
      case Some(h') => ParseHeaders(h', AfterLine(rest))
  }

  // ----- The whole request -----

  datatype Request = Request(line: RequestLine, headers: Headers, body: string)

  /** A request, one of the two errors, or the exception that a noexcept function does not survive. */
  datatype Parsed = Success(request: Request) | EmptyRequest | InvalidRequestLine | Terminated

  /** The headers are added to those that the structure holds already. */
  function Parse(before: Headers, text: string): Parsed {
    if text == "" then EmptyRequest
    else
      match ParseRequestLine(Line(text))
      case None => InvalidRequestLine
      case Some(line) =>
        match ParseHeaders(before, AfterLine(text))
        case None => Terminated
        case Some((headers, body)) => Success(Request(line, headers, body))
  }

  /** `std::map::insert` of a range: keys that are there already stay. */
  function Inserted(m: HeaderMap, more: HeaderMap): HeaderMap {
    more + m
  }

  /** to_generic merges the three maps. */
  function ToGeneric(h: Headers): HeaderMap {
    Inserted(Inserted(Inserted(map[], h.general), h.request), h.entity)
  }

  // ----- As it runs -----

  datatype Status = Accepted | Empty | BadRequestLine | Threw

  class HttpRequest {
    var m: Method
    var requestUri: string
    var httpVersion: string
    var generalHeader: HeaderMap
    var requestHeader: HeaderMap
    var entityHeader: HeaderMap
    var messageBody: string

    constructor ()
      ensures HeadersOf() == NO_HEADERS
    {
      m, requestUri, httpVersion, messageBody := OPTIONS, "", "", "";
      generalHeader, requestHeader, entityHeader := map[], map[], map[];
    }

    function HeadersOf(): Headers
      reads this
    {
      Headers(generalHeader, requestHeader, entityHeader)
    }

    function View(): Request
      reads this
    {
      Request(RequestLine(m, requestUri, httpVersion), HeadersOf(), messageBody)
    }

    method EmplaceHeader(name: string, value: string)
      modifies `generalHeader, `requestHeader, `entityHeader
      ensures HeadersOf() == AddHeader(old(HeadersOf()), name, value)
    {
      if name in GENERAL_HEADER {
        if name !in generalHeader {
          generalHeader := generalHeader[name := value];
        }
      } else if name in REQUEST_HEADER {
        if name !in requestHeader {
          requestHeader := requestHeader[name := value];
        }
      } else {
        if name !in entityHeader {
          entityHeader := entityHeader[name := value];
        }
      }
    }

    /** The loop over the header lines; says what is left of the input, or that substr threw. */
    method ReadHeaders(input: string) returns (rest: string, threw: bool)
      modifies `generalHeader, `requestHeader, `entityHeader
      ensures match ParseHeaders(old(HeadersOf()), input)
              case None => threw
              case Some((headers, body)) => !threw && HeadersOf() == headers && rest == body
    {
      rest, threw := input, false;
      while rest != ""
        invariant ParseHeaders(HeadersOf(), rest) == ParseHeaders(old(HeadersOf()), input)
        decreases |rest|
      {
        var line := Line(rest);
        if line == "" {
          return AfterLine(rest), false;
        }
        var colon := FindColon(line);
        if colon.Some? && |line| >= 2 {
          line := WithoutCr(line);
          if colon.value + 2 > |line| {
            return rest, true;
          }
          EmplaceHeader(line[..colon.value], line[colon.value + 2..]);
        }
        rest := AfterLine(rest);
      }
    }

    method ParseRequest(text: string) returns (status: Status)
      modifies this
      ensures match Parse(old(HeadersOf()), text)
              case Success(request) => status == Accepted && View() == request
              case EmptyRequest => status == Empty && View() == old(View())
              case InvalidRequestLine => status == BadRequestLine && View() == old(View())
              case Terminated => status == Threw
    {
      if text == "" {
        return Empty;
      }
      var tokens := WithoutLastEmpty(Tokens(Line(text)));
      if |tokens| != 3 {
        return BadRequestLine;
      }
      var found := FindMethod(tokens[0], 0);
      if found.None? {
        return BadRequestLine;
      }
      m, requestUri, httpVersion := found.value, tokens[1], tokens[2];
      var rest, threw := ReadHeaders(AfterLine(text));
      messageBody := rest;
      return if threw then Threw else Accepted;
    }

    /** to_generic */
    method ToGenericHeader() returns (header: HeaderMap)
      ensures header.Keys == generalHeader.Keys + requestHeader.Keys + entityHeader.Keys
      ensures forall name :: name in header ==>
                header[name] == if name in generalHeader then generalHeader[name]
                                else if name in requestHeader then requestHeader[name] else entityHeader[name]
      ensures header == ToGeneric(HeadersOf())
    {
      header := Inserted(map[], generalHeader);
      header := Inserted(header, requestHeader);
      header := Inserted(header, entityHeader);
    }
  }
}
