/** Splitting a path at its slashes, and the syntax of one segment of a route (router.hpp). */
module RouteStrings {

  predicate SlashFree(s: string) {
    '/' !in s
  }

  /** boost::split at '/': every slash separates, empty segments are kept. */
  function Split(s: string): (segments: seq<string>)
    ensures |segments| >= 1
  {
    if s == "" then [""]
    else
      var rest := Split(s[1..]);
      if s[0] == '/' then [""] + rest else [[s[0]] + rest[0]] + rest[1..]
  }

  function Join(segments: seq<string>): string
    requires |segments| >= 1
  {
    if |segments| == 1 then segments[0] else segments[0] + "/" + Join(segments[1..])
  }

  lemma {:induction false} SplitIsSlashFree(s: string)
    ensures forall k :: 0 <= k < |Split(s)| ==> SlashFree(Split(s)[k])
  {
    if s != "" {
      SplitIsSlashFree(s[1..]);
    }
  }

  lemma {:induction false} JoinSplit(s: string)
    ensures Join(Split(s)) == s
  {
    if s != "" {
      JoinSplit(s[1..]);
      var rest := Split(s[1..]);
      if s[0] == '/' {
        assert ([""] + rest)[1..] == rest;
        assert Join([""] + rest) == "/" + s[1..];
      } else {
        var segments := [[s[0]] + rest[0]] + rest[1..];
        assert segments[1..] == rest[1..];
        assert Join(segments) == [s[0]] + Join(rest);
      }
    }
  }

  lemma {:induction false} SplitJoin(segments: seq<string>)
    requires |segments| >= 1 && forall k :: 0 <= k < |segments| ==> SlashFree(segments[k])
    ensures Split(Join(segments)) == segments
    decreases |segments|, |segments[0]|
  {
    var first, joined := segments[0], Join(segments);
    if first == "" {
      if |segments| > 1 {
        assert joined[1..] == Join(segments[1..]);
        SplitJoin(segments[1..]);
      }
    } else {
      assert first[0] in first;
      var shorter := [first[1..]] + segments[1..];
      assert forall c :: c in first[1..] ==> c in first;
      assert shorter[1..] == segments[1..];
      assert joined == [first[0]] + Join(shorter);
      assert joined[1..] == Join(shorter);
      SplitJoin(shorter);
      assert Split(joined) == [[first[0]] + shorter[0]] + shorter[1..];
      assert [first[0]] + first[1..] == first;
    }
  }

  // ----- One segment -----

  predicate NameStart(c: char) {
    'a' <= c <= 'z' || 'A' <= c <= 'Z' || c == '_'
  }

  predicate NameChar(c: char) {
    NameStart(c) || '0' <= c <= '9'
  }

  predicate IsName(s: string) {
    s != "" && NameStart(s[0]) && forall k :: 0 <= k < |s| ==> NameChar(s[k])
  }

  datatype Segment = Lit(text: string) | Dyn(name: string)

  /** The regular expression `:([a-zA-Z_][a-zA-Z0-9_]*)` decides which segments are dynamic. */
  function ParseSegment(s: string): (segment: Segment)
    ensures segment.Dyn? ==> segment.name != "" && s == ":" + segment.name
    ensures segment.Lit? ==> segment.text == s
  {
    if s != "" && s[0] == ':' && IsName(s[1..]) then Dyn(s[1..]) else Lit(s)
  }

  /**
  So the code recognises exactly `:name`, where the name starts with a letter or an underscore and
  goes on with letters, underscores and digits, as an identifier ...
  */
  lemma IdentifierIff(s: string, name: string)
    ensures ParseSegment(s) == Dyn(name) <==>
            && s == ":" + name && name != "" && !('0' <= name[0] <= '9')
            && forall k :: 0 <= k < |name| ==>
                 'a' <= name[k] <= 'z' || 'A' <= name[k] <= 'Z' || name[k] == '_' || '0' <= name[k] <= '9'
    ensures (forall n :: ParseSegment(s) != Dyn(n)) ==> ParseSegment(s) == Lit(s)
  {
    assert (":" + name)[1..] == name;
    assert ParseSegment(s).Dyn? ==> ParseSegment(s) == Dyn(ParseSegment(s).name);
  }

  /** ... and takes `<name:type>` for a literal. */
  lemma AngleBracketsAreLiteral(name: string, kind: string)
    ensures ParseSegment("<" + name + ":" + kind + ">") == Lit("<" + name + ":" + kind + ">")
  {
    assert ("<" + name + ":" + kind + ">")[0] == '<';
  }

  function ParseSegments(ss: seq<string>): (segments: seq<Segment>)
    ensures |segments| == |ss|
    ensures forall k :: 0 <= k < |ss| ==> segments[k] == ParseSegment(ss[k])
  {
    seq(|ss|, k requires 0 <= k < |ss| => ParseSegment(ss[k]))
  }
}
