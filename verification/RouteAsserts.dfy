/** When the assertions of get_dispatch hold for every request. */
module RouteAsserts {
  import opened RouteStrings
  import opened HttpConstants
  import opened RouteTable
  import opened RouteList
  import opened RouteRoundTrip

  /** The names that a walk from the root to `p` captures. */
  function NamesOn<H>(table: Table<H>, p: Path): set<string> {
    match p
    case Root => {}
    case Child(q, Static(_)) => NamesOn(table, q)
    case Child(q, Dynamic) => NamesOn(table, q) + (if q in table then {table[q].dynamicId} else {})
  }

  predicate DistinctNames(trail: Trail) {
    forall i, j :: 0 <= i < j < |trail| && trail[i].Dyn? && trail[j].Dyn? ==> trail[i].name != trail[j].name
  }

  /** The names that the first `k` segments of the trail use. */
  function NamesIn(trail: Trail, k: nat): set<string>
    requires k <= |trail|
  {
    if k == 0 then {} else NamesIn(trail, k - 1) + (if trail[k - 1].Dyn? then {trail[k - 1].name} else {})
  }

  lemma {:induction false} DistinctIsNew(trail: Trail, k: nat, d: nat)
    requires DistinctNames(trail) && k <= d < |trail| && trail[d].Dyn?
    ensures trail[d].name !in NamesIn(trail, k)
  {
    if k > 0 {
      DistinctIsNew(trail, k - 1, d);
    }
  }

  /** Along a trail those are the names that a walk captures. */
  lemma {:induction false} NamesOnTrail<H>(table: Table<H>, trail: Trail, k: nat)
    requires HasTrail(table, trail) && k <= |trail|
    ensures NamesOn(table, NodeOf(trail, k)) == NamesIn(trail, k)
  {
    if k > 0 {
      NamesOnTrail(table, trail, k - 1);
      assert NodeOf(trail, k - 1) in table;
    }
  }

  /** The walk of get_dispatch stops at an empty segment: this is what it can see of a route. */
  function Cut(trail: Trail): (cut: Trail)
    ensures cut <= trail && Lit("") !in cut
    ensures |cut| < |trail| ==> trail[|cut|] == Lit("")
  {
    if trail == [] || trail[0] == Lit("") then [] else [trail[0]] + Cut(trail[1..])
  }

  /** Above an empty segment no dynamic child of the trie repeats a name on the way to it. */
  ghost predicate NoRepeats<H>(table: Table<H>) {
    forall p :: p in table && NoEmptyEdge(p) && Child(p, Dynamic) in table ==>
      table[p].dynamicId !in NamesOn(table, p)
  }

  lemma {:induction false} LookupDistinct<H>(table: Table<H>, p: Path, segments: seq<string>, m: Method, params: Params)
    requires p in table && NoEmptyEdge(p) && NoRepeats(table) && params.Keys == NamesOn(table, p)
    ensures Lookup(table, p, segments, m, params).distinct
    decreases |segments|
  {
    if segments != [] && segments[0] != "" {
      if Child(p, Static(segments[0])) in table {
        LookupDistinct(table, Child(p, Static(segments[0])), segments[1..], m, params);
      } else if Child(p, Dynamic) in table {
        LookupDistinct(table, Child(p, Dynamic), segments[1..], m, Captured(params, table[p].dynamicId, segments[0]));
      }
    }
  }

  lemma CutHasTrail<H>(table: Table<H>, trail: Trail)
    requires HasTrail(table, trail)
    ensures HasTrail(table, Cut(trail))
  {
    var cut := Cut(trail);
    forall k | 0 <= k <= |cut| ensures NodeOf(cut, k) == NodeOf(trail, k) {
      NodeOfPrefix(cut, trail, k);
    }
  }

  lemma {:induction false} CutReaches(trail: Trail, k: nat)
    requires k <= |trail| && Lit("") !in trail[..k]
    ensures k <= |Cut(trail)|
  {
    if k > 0 {
      assert trail[0] in trail[..k] && trail[..k][1..] == trail[1..][..k - 1];
      assert forall segment :: segment in trail[..k][1..] ==> segment in trail[..k];
      CutReaches(trail[1..], k - 1);
    }
  }

  /** A node without an empty segment on the way lies on what can be seen of the trail. */
  lemma SeenOnCut(trail: Trail, k: nat)
    requires k <= |trail| && NoEmptyEdge(NodeOf(trail, k))
    ensures k <= |Cut(trail)| && NodeOf(Cut(trail), k) == NodeOf(trail, k)
  {
    TrailEdges(trail, k);
    CutReaches(trail, k);
    NodeOfPrefix(Cut(trail), trail, k);
  }

  lemma NewOnTrail<H>(table: Table<H>, trail: Trail, d: nat)
    requires HasTrail(table, trail) && DistinctNames(trail) && d < |trail| && trail[d].Dyn?
    ensures NodeOf(trail, d) in table && table[NodeOf(trail, d)].dynamicId !in NamesOn(table, NodeOf(trail, d))
  {
    NamesOnTrail(table, trail, d);
    DistinctIsNew(trail, d, d);
  }

  lemma DistinctRoutesNoRepeats<H(!new)>(table: Table<H>, routes: seq<Route<H>>)
    requires Represents(table, routes) && WellNamed(routes)
    requires forall k :: 0 <= k < |routes| ==> DistinctNames(Cut(routes[k].segments))
    ensures NoRepeats(table)
  {
    forall p | p in table && NoEmptyEdge(p) && Child(p, Dynamic) in table
      ensures table[p].dynamicId !in NamesOn(table, p)
    {
      var child := Child(p, Dynamic);
      assert HasNode(Trails(routes), child);
      var k :| 0 <= k < |routes| && Through(Trails(routes)[k], child);
      var trail := routes[k].segments;
      RouteHasTrail(table, routes, k);
      CutHasTrail(table, trail);
      SeenOnCut(trail, Depth(child));
      assert NodeOf(Cut(trail), Depth(p)) == p;
      NewOnTrail(table, Cut(trail), Depth(p));
    }
  }

  /** A repeated name is noticed when the route is walked from the root. */
  lemma {:induction false} RepeatIsNotNew(trail: Trail, args: seq<string>, from: nat, params: Params, i: nat, j: nat)
    requires |args| == |trail| && from <= j < |trail| && i < j
    requires trail[i].Dyn? && trail[j] == trail[i] && (i < from ==> trail[i].name in params)
    ensures !NewNames(trail, args, from, params)
    decreases |trail| - from
  {
    if from < j {
      match trail[from]
      case Lit(_) => RepeatIsNotNew(trail, args, from + 1, params, i, j);
      case Dyn(name) =>
        RepeatIsNotNew(trail, args, from + 1, Captured(params, name, args[from]), i, j);
    }
  }

  lemma RepeatFires<H(!new)>(table: Table<H>, routes: seq<Route<H>>, k: nat, m: Method) returns (request: seq<string>)
    requires Represents(table, routes) && k < |routes| && Named(routes[k].segments)
    requires !DistinctNames(Cut(routes[k].segments))
    ensures Root in table && !Lookup(table, Root, request, m, map[]).distinct
  {
    var trail := Cut(routes[k].segments);
    RouteHasTrail(table, routes, k);
    CutHasTrail(table, routes[k].segments);
    var args := UnusedArgs(table, trail);
    request := Fill(trail, args);
    assert request[0..] == request;
    FilledCaptures(table, trail, args, 0, m, map[]);
    var i, j :| 0 <= i < j < |trail| && trail[i].Dyn? && trail[j].Dyn? && trail[i].name == trail[j].name;
    RepeatIsNotNew(trail, args, 0, map[], i, j);
  }

  /**
  The assertions hold for every request with no parameters yet exactly when no accepted route
  uses a parameter name twice before its first empty segment.
  */
  lemma AssertsHoldIff<H(!new)>(table: Table<H>, routes: seq<Route<H>>, m: Method)
    requires Represents(table, routes) && WellNamed(routes)
    ensures Root in table
    ensures (forall request :: Lookup(table, Root, request, m, map[]).distinct) <==>
            (forall k :: 0 <= k < |routes| ==> DistinctNames(Cut(routes[k].segments)))
  {
    assert HasNode(Trails(routes), Root);
    if forall k :: 0 <= k < |routes| ==> DistinctNames(Cut(routes[k].segments)) {
      DistinctRoutesNoRepeats(table, routes);
      forall request ensures Lookup(table, Root, request, m, map[]).distinct {
        LookupDistinct(table, Root, request, m, map[]);
      }
    } else {
      var k :| 0 <= k < |routes| && !DistinctNames(Cut(routes[k].segments));
      var request := RepeatFires(table, routes, k, m);
    }
  }

  /** With the route `/:a//:a` alone they hold, although it uses the name twice. */
  lemma RepeatBehindEmptySegment(trail: Trail)
    requires trail == [Dyn("a"), Lit(""), Dyn("a")]
    ensures !DistinctNames(trail) && DistinctNames(Cut(trail))
  {
    assert trail[0].name == trail[2].name;
    assert Cut(trail) == [Dyn("a")];
  }
}
