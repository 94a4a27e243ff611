/** get_dispatch against the plain list of accepted routes. */
module RouteDispatch {
  import opened Wrappers
  import opened RouteStrings
  import opened HttpConstants
  import opened RouteTable
  import opened RouteList

  // ----- A greedy filter over the list -----

  /** The candidates that continue at `depth` by `edge`. */
  function Leading<H>(candidates: seq<Route<H>>, depth: nat, edge: Edge): seq<Route<H>> {
    if candidates == [] then []
    else
      var r := candidates[0];
      (if depth < |r.segments| && EdgeOf(r.segments[depth]) == edge then [r] else []) + Leading(candidates[1..], depth, edge)
  }

  function Ending<H>(candidates: seq<Route<H>>, depth: nat, m: Method): Option<H> {
    if candidates == [] then None
    else if |candidates[0].segments| == depth && candidates[0].m == m then Some(candidates[0].fn)
    else Ending(candidates[1..], depth, m)
  }

  lemma {:induction false} LeadingMembers<H>(candidates: seq<Route<H>>, depth: nat, edge: Edge, r: Route<H>)
    ensures r in Leading(candidates, depth, edge) <==>
            r in candidates && depth < |r.segments| && EdgeOf(r.segments[depth]) == edge
  {
    if candidates != [] {
      LeadingMembers(candidates[1..], depth, edge, r);
    }
  }

  /**
  Walk the request segment by segment keeping the routes that still match: those with the
  literal segment if there are any, else those with a dynamic one; stop at an empty segment.
  */
  function Greedy<H>(candidates: seq<Route<H>>, depth: nat, segments: seq<string>, m: Method, params: Params): Found<H>
    decreases |segments|
  {
    if segments == [] || segments[0] == "" then Found(Ending(candidates, depth, m), params, true)
    else
      var literal := Leading(candidates, depth, Static(segments[0]));
      var dynamic := Leading(candidates, depth, Dynamic);
      if literal != [] then Greedy(literal, depth + 1, segments[1..], m, params)
      else if dynamic != [] then
        LeadingMembers(candidates, depth, Dynamic, dynamic[0]);
        var name := dynamic[0].segments[depth].name;
        var rest := Greedy(dynamic, depth + 1, segments[1..], m, Captured(params, name, segments[0]));
        Found(rest.handler, rest.params, rest.distinct && name !in params)
      else Found(None, params, true)
  }

  lemma {:induction false} EndingMember<H>(candidates: seq<Route<H>>, depth: nat, m: Method)
    ensures Ending(candidates, depth, m).None? ==>
              forall r :: r in candidates && |r.segments| == depth ==> r.m != m
    ensures Ending(candidates, depth, m).Some? ==>
              exists r :: r in candidates && |r.segments| == depth && r.m == m && r.fn == Ending(candidates, depth, m).value
  {
    if candidates != [] {
      EndingMember(candidates[1..], depth, m);
    }
  }

  /** The candidates are the listed routes that pass through the node at `p`. */
  ghost predicate AllThrough<H(!new)>(candidates: seq<Route<H>>, routes: seq<Route<H>>, p: Path) {
    forall r :: r in candidates <==> r in routes && Through(r.segments, p)
  }

  lemma ThroughChild(trail: Trail, p: Path, edge: Edge)
    ensures Through(trail, Child(p, edge)) <==> Through(trail, p) && Depth(p) < |trail| && EdgeOf(trail[Depth(p)]) == edge
  {
  }

  /** A child node is there exactly when a candidate leads to it. */
  lemma ChildIff<H(!new)>(table: Table<H>, routes: seq<Route<H>>, candidates: seq<Route<H>>, p: Path, edge: Edge)
    requires NodesRep(table, Trails(routes)) && AllThrough(candidates, routes, p)
    ensures Child(p, edge) in table <==> Leading(candidates, Depth(p), edge) != []
    ensures AllThrough(Leading(candidates, Depth(p), edge), routes, Child(p, edge))
  {
    var child, leading := Child(p, edge), Leading(candidates, Depth(p), edge);
    forall r ensures r in leading <==> r in routes && Through(r.segments, child) {
      LeadingMembers(candidates, Depth(p), edge, r);
      ThroughChild(r.segments, p, edge);
    }
    if leading != [] {
      assert leading[0] in leading;
      var k :| 0 <= k < |routes| && routes[k] == leading[0];
      assert Through(Trails(routes)[k], child);
    }
    if child in table {
      var k :| 0 <= k < |routes| && Through(Trails(routes)[k], child);
      assert routes[k] in leading;
    }
  }

  lemma HandlerIff<H(!new)>(table: Table<H>, routes: seq<Route<H>>, candidates: seq<Route<H>>, p: Path, m: Method)
    requires FunctionsRep(table, routes) && AllThrough(candidates, routes, p) && p in table
    ensures HandlerAt(table, p, m) == Ending(candidates, Depth(p), m)
  {
    EndingMember(candidates, Depth(p), m);
    var ending := Ending(candidates, Depth(p), m);
    if ending.Some? {
      var r :| r in candidates && |r.segments| == Depth(p) && r.m == m && r.fn == ending.value;
      var k :| 0 <= k < |routes| && routes[k] == r;
      assert Serves(routes, p, m, ending.value);
    } else if m in table[p].functions {
      assert Serves(routes, p, m, table[p].functions[m]);
      var k :| 0 <= k < |routes| && routes[k].m == m && PathOf(routes[k].segments) == p;
      assert false;
    }
  }

  lemma NameIff<H(!new)>(table: Table<H>, routes: seq<Route<H>>, candidates: seq<Route<H>>, p: Path)
    requires NodesRep(table, Trails(routes)) && WellNamed(routes) && AllThrough(candidates, routes, p) && p in table
    requires Leading(candidates, Depth(p), Dynamic) != []
    ensures var r := Leading(candidates, Depth(p), Dynamic)[0];
            Depth(p) < |r.segments| && r.segments[Depth(p)] == Dyn(table[p].dynamicId)
  {
    var leading := Leading(candidates, Depth(p), Dynamic);
    var r := leading[0];
    LeadingMembers(candidates, Depth(p), Dynamic, r);
    var k :| 0 <= k < |routes| && routes[k] == r;
    var n := r.segments[Depth(p)].name;
    assert r.segments[Depth(p)] in routes[k].segments;
    assert Named(routes[k].segments) && n != "";
    assert NamesAt(Trails(routes)[k], p, n);
    assert Names(Trails(routes), p, n);
  }

  ghost predicate MirrorsTurn<H>(table: Table<H>, candidates: seq<Route<H>>, p: Path, segment: string)
    requires p in table
  {
    && (Child(p, Static(segment)) in table <==> Leading(candidates, Depth(p), Static(segment)) != [])
    && (Child(p, Dynamic) in table <==> Leading(candidates, Depth(p), Dynamic) != [])
    && (Child(p, Dynamic) in table ==>
          var r := Leading(candidates, Depth(p), Dynamic)[0];
          Depth(p) < |r.segments| && r.segments[Depth(p)] == Dyn(table[p].dynamicId))
  }

  /** Along the walk for `segments` the table and the candidates take the same branches. */
  ghost predicate Mirrors<H>(table: Table<H>, candidates: seq<Route<H>>, p: Path, segments: seq<string>, m: Method)
    decreases |segments|
  {
    if p !in table then false
    else if segments == [] || segments[0] == "" then HandlerAt(table, p, m) == Ending(candidates, Depth(p), m)
    else if !MirrorsTurn(table, candidates, p, segments[0]) then false
    else if Child(p, Static(segments[0])) in table then
      Mirrors(table, Leading(candidates, Depth(p), Static(segments[0])), Child(p, Static(segments[0])), segments[1..], m)
    else if Child(p, Dynamic) in table then
      Mirrors(table, Leading(candidates, Depth(p), Dynamic), Child(p, Dynamic), segments[1..], m)
    else true
  }

  lemma TurnMirrors<H(!new)>(table: Table<H>, routes: seq<Route<H>>, candidates: seq<Route<H>>, p: Path, segment: string)
    requires NodesRep(table, Trails(routes)) && WellNamed(routes) && p in table && AllThrough(candidates, routes, p)
    ensures MirrorsTurn(table, candidates, p, segment)
  {
    ChildIff(table, routes, candidates, p, Static(segment));
    ChildIff(table, routes, candidates, p, Dynamic);
    if Child(p, Dynamic) in table {
      NameIff(table, routes, candidates, p);
    }
  }

  lemma {:induction false} TableMirrors<H(!new)>(table: Table<H>, routes: seq<Route<H>>, candidates: seq<Route<H>>,
                                                p: Path, segments: seq<string>, m: Method)
    requires Represents(table, routes) && WellNamed(routes) && p in table && AllThrough(candidates, routes, p)
    ensures Mirrors(table, candidates, p, segments, m)
    decreases |segments|
  {
    if segments == [] || segments[0] == "" {
      HandlerIff(table, routes, candidates, p, m);
    } else {
      var edge := Static(segments[0]);
      TurnMirrors(table, routes, candidates, p, segments[0]);
      if Child(p, edge) in table {
        ChildIff(table, routes, candidates, p, edge);
        TableMirrors(table, routes, Leading(candidates, Depth(p), edge), Child(p, edge), segments[1..], m);
      } else if Child(p, Dynamic) in table {
        ChildIff(table, routes, candidates, p, Dynamic);
        TableMirrors(table, routes, Leading(candidates, Depth(p), Dynamic), Child(p, Dynamic), segments[1..], m);
      }
    }
  }

  /** What both walks do at a node, given what they find further on. */
  datatype Turn = Stop | Down(edge: Edge) | Stuck

  function TurnOf<H>(table: Table<H>, p: Path, segments: seq<string>): Turn {
    if segments == [] || segments[0] == "" then Stop
    else if Child(p, Static(segments[0])) in table then Down(Static(segments[0]))
    else if Child(p, Dynamic) in table then Down(Dynamic)
    else Stuck
  }

  /** What is found behind a node that captured `id`. */
  function Behind<H>(rest: Found<H>, id: string, params: Params): Found<H> {
    Found(rest.handler, rest.params, rest.distinct && id !in params)
  }

  lemma LookupTurn<H>(table: Table<H>, p: Path, segments: seq<string>, m: Method, params: Params)
    requires p in table
    ensures Lookup(table, p, segments, m, params) ==
      match TurnOf(table, p, segments)
      case Stop => Found(HandlerAt(table, p, m), params, true)
      case Stuck => Found(None, params, true)
      case Down(Static(s)) => Lookup(table, Child(p, Static(s)), segments[1..], m, params)
      case Down(Dynamic) =>
        Behind(Lookup(table, Child(p, Dynamic), segments[1..], m, Captured(params, table[p].dynamicId, segments[0])),
          table[p].dynamicId, params)
  {
  }

  lemma GreedyTurn<H>(table: Table<H>, candidates: seq<Route<H>>, p: Path, segments: seq<string>, m: Method, params: Params)
    requires Mirrors(table, candidates, p, segments, m)
    ensures Greedy(candidates, Depth(p), segments, m, params) ==
      match TurnOf(table, p, segments)
      case Stop => Found(HandlerAt(table, p, m), params, true)
      case Stuck => Found(None, params, true)
      case Down(Static(s)) => Greedy(Leading(candidates, Depth(p), Static(s)), Depth(p) + 1, segments[1..], m, params)
      case Down(Dynamic) =>
        Behind(Greedy(Leading(candidates, Depth(p), Dynamic), Depth(p) + 1, segments[1..], m,
                      Captured(params, table[p].dynamicId, segments[0])), table[p].dynamicId, params)
  {
  }

  lemma MirrorsDown<H>(table: Table<H>, candidates: seq<Route<H>>, p: Path, segments: seq<string>, m: Method)
    requires Mirrors(table, candidates, p, segments, m)
    ensures p in table
    ensures var turn := TurnOf(table, p, segments);
            turn.Down? ==>
              && segments != []
              && Mirrors(table, Leading(candidates, Depth(p), turn.edge), Child(p, turn.edge), segments[1..], m)
  {
  }

  lemma {:induction false} MirrorsAgree<H>(table: Table<H>, candidates: seq<Route<H>>, p: Path,
                                           segments: seq<string>, m: Method, params: Params)
    requires Mirrors(table, candidates, p, segments, m)
    ensures Lookup(table, p, segments, m, params) == Greedy(candidates, Depth(p), segments, m, params)
    decreases |segments|
  {
    MirrorsDown(table, candidates, p, segments, m);
    LookupTurn(table, p, segments, m, params);
    GreedyTurn(table, candidates, p, segments, m, params);
    match TurnOf(table, p, segments)
    case Stop =>
    case Stuck =>
    case Down(Static(s)) =>
      MirrorsAgree(table, Leading(candidates, Depth(p), Static(s)), Child(p, Static(s)), segments[1..], m, params);
    case Down(Dynamic) =>
      var params' := Captured(params, table[p].dynamicId, segments[0]);
      MirrorsAgree(table, Leading(candidates, Depth(p), Dynamic), Child(p, Dynamic), segments[1..], m, params');
  }

  /** get_dispatch on the trie is the greedy filter over the list of accepted routes. */
  lemma DispatchIsGreedy<H(!new)>(table: Table<H>, routes: seq<Route<H>>, m: Method, route: string, params: Params)
    requires Represents(table, routes) && WellNamed(routes) && Linked(table)
    ensures Dispatch(table, m, route, params) ==
            if route != "" && route[0] == '/' then Ok(Greedy(routes, 0, Split(route[1..]), m, params)) else Err(BadRoute)
  {
    if GoodRoute(route) {
      TableMirrors(table, routes, routes, Root, Split(route[1..]), m);
      MirrorsAgree(table, routes, Root, Split(route[1..]), m, params);
    }
  }
}
