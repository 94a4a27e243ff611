/** Dispatching an accepted route with its dynamic segments filled in. */
module RouteRoundTrip {
  import opened Wrappers
  import opened RouteStrings
  import opened HttpConstants
  import opened RouteTable
  import opened RouteList
  import opened RouteOrder

  /** The request segments for a route whose k-th segment, when dynamic, is filled with `args[k]`. */
  function Fill(segments: seq<Segment>, args: seq<string>): (filled: seq<string>)
    requires |args| == |segments|
    ensures |filled| == |segments|
    ensures forall k :: 0 <= k < |filled| ==>
              filled[k] == match segments[k] case Lit(text) => text case Dyn(_) => args[k]
  {
    seq(|segments|, k requires 0 <= k < |segments| =>
      match segments[k] case Lit(text) => text case Dyn(_) => args[k])
  }

  /** The parameters that the filled route captures from depth `from` on. */
  function Captures(segments: seq<Segment>, args: seq<string>, from: nat, params: Params): Params
    requires |args| == |segments| && from <= |segments|
    decreases |segments| - from
  {
    if from == |segments| then params
    else
      Captures(segments, args, from + 1,
               match segments[from] case Lit(_) => params case Dyn(name) => Captured(params, name, args[from]))
  }

  /** No parameter is captured twice. */
  predicate NewNames(segments: seq<Segment>, args: seq<string>, from: nat, params: Params)
    requires |args| == |segments| && from <= |segments|
    decreases |segments| - from
  {
    if from == |segments| then true
    else
      match segments[from]
      case Lit(_) => NewNames(segments, args, from + 1, params)
      case Dyn(name) => name !in params && NewNames(segments, args, from + 1, Captured(params, name, args[from]))
  }

  /** Nowhere from depth `from` on is a filled-in argument also a literal sibling. */
  ghost predicate Unshadowed<H>(table: Table<H>, segments: seq<Segment>, args: seq<string>, from: nat)
    requires |args| == |segments|
  {
    forall k :: from <= k < |segments| && segments[k].Dyn? ==> Child(NodeOf(segments, k), Static(args[k])) !in table
  }

  /** The node at which the walk of get_dispatch looks for the handler, if it gets that far. */
  function Reached<H>(table: Table<H>, path: Path, segments: seq<string>): Option<Path>
    requires path in table
    decreases |segments|
  {
    if segments == [] || segments[0] == "" then Some(path)
    else if Child(path, Static(segments[0])) in table then Reached(table, Child(path, Static(segments[0])), segments[1..])
    else if Child(path, Dynamic) in table then Reached(table, Child(path, Dynamic), segments[1..])
    else None
  }

  /** `p` lies in the subtree of `q`. */
  predicate Below(p: Path, q: Path) {
    p == q || (p.Child? && Below(p.parent, q))
  }

  lemma {:induction false} BelowChild(p: Path, q: Path, edge: Edge)
    ensures Below(p, Child(q, edge)) ==> Below(p, q)
  {
    if p.Child? {
      BelowChild(p.parent, q, edge);
    }
  }

  lemma {:induction false} ReachedInTable<H>(table: Table<H>, path: Path, segments: seq<string>)
    requires path in table
    ensures var p := Reached(table, path, segments);
            p.Some? ==> p.value in table && Below(p.value, path)
    decreases |segments|
  {
    if segments == [] || segments[0] == "" {
    } else if Child(path, Static(segments[0])) in table {
      ReachedInTable(table, Child(path, Static(segments[0])), segments[1..]);
      var p := Reached(table, path, segments);
      if p.Some? { BelowChild(p.value, path, Static(segments[0])); }
    } else if Child(path, Dynamic) in table {
      ReachedInTable(table, Child(path, Dynamic), segments[1..]);
      var p := Reached(table, path, segments);
      if p.Some? { BelowChild(p.value, path, Dynamic); }
    }
  }

  /** A trail that passes below a node passes through it. */
  lemma {:induction false} TrailBelow(trail: Trail, k: nat, q: Path)
    requires k <= |trail| && Below(NodeOf(trail, k), q)
    ensures Depth(q) <= k && NodeOf(trail, Depth(q)) == q
  {
    if NodeOf(trail, k) != q {
      TrailBelow(trail, k - 1, q);
    }
  }

  /** get_dispatch answers with the handler of the node it reaches. */
  lemma {:induction false} LookupAtReached<H>(table: Table<H>, path: Path, segments: seq<string>, m: Method, params: Params)
    requires path in table
    ensures var p := Reached(table, path, segments);
            (p.Some? ==> p.value in table) &&
            Lookup(table, path, segments, m, params).handler == (if p.Some? then HandlerAt(table, p.value, m) else None)
    decreases |segments|
  {
    ReachedInTable(table, path, segments);
    if segments == [] || segments[0] == "" {
    } else if Child(path, Static(segments[0])) in table {
      LookupAtReached(table, Child(path, Static(segments[0])), segments[1..], m, params);
    } else if Child(path, Dynamic) in table {
      LookupAtReached(table, Child(path, Dynamic), segments[1..], m,
                      Captured(params, table[path].dynamicId, segments[0]));
    }
  }

  /** The trie has the nodes and names of the trail. */
  ghost predicate HasTrail<H>(table: Table<H>, trail: Trail) {
    && (forall k :: 0 <= k <= |trail| ==> NodeOf(trail, k) in table)
    && (forall k :: 0 <= k < |trail| && trail[k].Dyn? ==> table[NodeOf(trail, k)].dynamicId == trail[k].name)
  }

  lemma RouteHasTrail<H(!new)>(table: Table<H>, routes: seq<Route<H>>, r: nat)
    requires Represents(table, routes) && r < |routes| && Named(routes[r].segments)
    ensures HasTrail(table, routes[r].segments)
  {
    var trail := routes[r].segments;
    forall k | 0 <= k <= |trail| ensures NodeOf(trail, k) in table {
      assert Through(Trails(routes)[r], NodeOf(trail, k));
    }
    forall k | 0 <= k < |trail| && trail[k].Dyn? ensures table[NodeOf(trail, k)].dynamicId == trail[k].name {
      assert trail[k] in trail;
      assert NamesAt(Trails(routes)[r], NodeOf(trail, k), trail[k].name);
      assert Names(Trails(routes), NodeOf(trail, k), trail[k].name);
    }
  }

  /** A route filled with these arguments has no empty segment. */
  predicate NonEmpty(trail: Trail, args: seq<string>) {
    |args| == |trail| && forall k :: 0 <= k < |trail| ==> Fill(trail, args)[k] != ""
  }

  lemma UnshadowedTurn<H>(table: Table<H>, trail: Trail, args: seq<string>, k: nat)
    requires |args| == |trail| && k < |trail|
    ensures Unshadowed(table, trail, args, k) <==>
            (trail[k].Dyn? ==> Child(NodeOf(trail, k), Static(args[k])) !in table) && Unshadowed(table, trail, args, k + 1)
  {
  }

  /** A walk that has left the route's path never comes back to it. */
  lemma AsideMisses<H>(table: Table<H>, trail: Trail, args: seq<string>, k: nat)
    requires |args| == |trail| && k < |trail| && trail[k].Dyn? && Child(NodeOf(trail, k), Static(args[k])) in table
    ensures Reached(table, Child(NodeOf(trail, k), Static(args[k])), Fill(trail, args)[k + 1..]) != Some(PathOf(trail))
  {
    var aside := Child(NodeOf(trail, k), Static(args[k]));
    ReachedInTable(table, aside, Fill(trail, args)[k + 1..]);
    if Below(PathOf(trail), aside) {
      TrailBelow(trail, |trail|, aside);
      assert false;
    }
  }

  /** One step of the walk for a filled route, from the route's node at depth `k`. */
  lemma ReachedTurn<H>(table: Table<H>, trail: Trail, args: seq<string>, k: nat)
    requires HasTrail(table, trail) && NonEmpty(trail, args) && k < |trail|
    ensures var filled, aside := Fill(trail, args), Child(NodeOf(trail, k), Static(args[k]));
            Reached(table, NodeOf(trail, k), filled[k..]) ==
              if trail[k].Dyn? && aside in table then Reached(table, aside, filled[k + 1..])
              else Reached(table, NodeOf(trail, k + 1), filled[k + 1..])
  {
    var filled := Fill(trail, args);
    assert filled[k..][0] == filled[k] && filled[k..][1..] == filled[k + 1..];
    assert NodeOf(trail, k + 1) in table;
  }

  /**
  The walk for a filled route ends at the route's own node exactly when no argument on the
  way is also a literal sibling.
  */
  lemma {:induction false} FilledReachesIff<H>(table: Table<H>, trail: Trail, args: seq<string>, k: nat)
    requires HasTrail(table, trail) && NonEmpty(trail, args) && k <= |trail|
    ensures Reached(table, NodeOf(trail, k), Fill(trail, args)[k..]) == Some(PathOf(trail))
            <==> Unshadowed(table, trail, args, k)
    decreases |trail| - k
  {
    if k == |trail| {
      assert Fill(trail, args)[k..] == [];
    } else {
      FilledReachesIff(table, trail, args, k + 1);
      ReachedTurn(table, trail, args, k);
      UnshadowedTurn(table, trail, args, k);
      if trail[k].Dyn? && Child(NodeOf(trail, k), Static(args[k])) in table {
        AsideMisses(table, trail, args, k);
      }
    }
  }

  lemma LookupOwnTurn<H>(table: Table<H>, trail: Trail, args: seq<string>, k: nat, m: Method, params: Params)
    requires HasTrail(table, trail) && NonEmpty(trail, args) && k < |trail| && Unshadowed(table, trail, args, k)
    ensures var filled := Fill(trail, args);
            var found := Lookup(table, NodeOf(trail, k), filled[k..], m, params);
            match trail[k]
            case Lit(_) => found == Lookup(table, NodeOf(trail, k + 1), filled[k + 1..], m, params)
            case Dyn(name) =>
              var rest := Lookup(table, NodeOf(trail, k + 1), filled[k + 1..], m, Captured(params, name, args[k]));
              found == Found(rest.handler, rest.params, rest.distinct && name !in params)
  {
    var filled := Fill(trail, args);
    assert filled[k..][0] == filled[k] && filled[k..][1..] == filled[k + 1..];
    assert NodeOf(trail, k + 1) in table;
  }

  lemma {:induction false} FilledCaptures<H>(table: Table<H>, trail: Trail, args: seq<string>,
                                            k: nat, m: Method, params: Params)
    requires HasTrail(table, trail) && NonEmpty(trail, args) && k <= |trail|
    requires Unshadowed(table, trail, args, k)
    ensures var found := Lookup(table, NodeOf(trail, k), Fill(trail, args)[k..], m, params);
            && found.params == Captures(trail, args, k, params)
            && (found.distinct <==> NewNames(trail, args, k, params))
    decreases |trail| - k
  {
    if k < |trail| {
      LookupOwnTurn(table, trail, args, k, m, params);
      var params' := match trail[k] case Lit(_) => params case Dyn(name) => Captured(params, name, args[k]);
      FilledCaptures(table, trail, args, k + 1, m, params');
    }
  }

  /** The segment at `k` is the first from `from` on that uses its name. */
  predicate FirstUse(segments: seq<Segment>, from: nat, k: nat)
    requires k < |segments|
  {
    segments[k].Dyn? && forall j :: from <= j < k ==> segments[j] != segments[k]
  }

  /** Whatever the names, a parameter keeps the first value it gets. */
  lemma {:induction false} CapturesKeepFirst(segments: seq<Segment>, args: seq<string>, from: nat, params: Params)
    requires |args| == |segments| && from <= |segments|
    ensures var c := Captures(segments, args, from, params);
            && (forall n :: n in params ==> n in c && c[n] == params[n])
            && (forall k :: from <= k < |segments| && FirstUse(segments, from, k) && segments[k].name !in params ==>
                  segments[k].name in c && c[segments[k].name] == args[k])
    decreases |segments| - from
  {
    if from < |segments| {
      var params' := match segments[from] case Lit(_) => params case Dyn(name) => Captured(params, name, args[from]);
      CapturesKeepFirst(segments, args, from + 1, params');
    }
  }

  /** With distinct names the captures are exactly the route's names with the arguments. */
  lemma {:induction false} CapturesAre(segments: seq<Segment>, args: seq<string>, from: nat, params: Params)
    requires |args| == |segments| && from <= |segments| && NewNames(segments, args, from, params)
    ensures var c := Captures(segments, args, from, params);
            && (forall n :: n in params ==> n in c && c[n] == params[n])
            && (forall k :: from <= k < |segments| && segments[k].Dyn? ==>
                  segments[k].name in c && c[segments[k].name] == args[k])
            && (forall n :: n in c ==> n in params || exists k :: from <= k < |segments| && segments[k] == Dyn(n))
    decreases |segments| - from
  {
    if from < |segments| {
      var params' := match segments[from] case Lit(_) => params case Dyn(name) => Captured(params, name, args[from]);
      CapturesAre(segments, args, from + 1, params');
    }
  }

  lemma LookupOwnRoute<H(!new)>(table: Table<H>, routes: seq<Route<H>>, r: nat, args: seq<string>, params: Params)
    requires Represents(table, routes) && Root in table && r < |routes| && Named(routes[r].segments)
    requires NonEmpty(routes[r].segments, args) && Unshadowed(table, routes[r].segments, args, 0)
    ensures Lookup(table, Root, Fill(routes[r].segments, args), routes[r].m, params) ==
            Found(Some(routes[r].fn), Captures(routes[r].segments, args, 0, params),
                  NewNames(routes[r].segments, args, 0, params))
  {
    var trail, filled := routes[r].segments, Fill(routes[r].segments, args);
    RouteHasTrail(table, routes, r);
    assert filled[0..] == filled;
    FilledReachesIff(table, trail, args, 0);
    LookupAtReached(table, Root, filled, routes[r].m, params);
    FilledCaptures(table, trail, args, 0, routes[r].m, params);
    assert Serves(routes, PathOf(trail), routes[r].m, routes[r].fn);
  }

  /**
  A request made from an accepted route by filling its dynamic segments with non-empty
  slash-free strings, none of them a literal sibling, gets that route's handler and captures
  exactly those strings; no assertion fires exactly when no parameter name is captured twice.
  */
  lemma DispatchOwnRoute<H(!new)>(table: Table<H>, routes: seq<Route<H>>, r: nat, args: seq<string>, params: Params)
    requires Represents(table, routes) && Linked(table) && r < |routes| && Named(routes[r].segments)
    requires |routes[r].segments| >= 1 && NonEmpty(routes[r].segments, args)
    requires forall j :: 0 <= j < |args| ==> SlashFree(Fill(routes[r].segments, args)[j])
    requires Unshadowed(table, routes[r].segments, args, 0)
    ensures Dispatch(table, routes[r].m, "/" + Join(Fill(routes[r].segments, args)), params) ==
            Ok(Found(Some(routes[r].fn), Captures(routes[r].segments, args, 0, params),
                     NewNames(routes[r].segments, args, 0, params)))
  {
    var filled := Fill(routes[r].segments, args);
    assert ("/" + Join(filled))[1..] == Join(filled);
    SplitJoin(filled);
    LookupOwnRoute(table, routes, r, args, params);
  }

  // ----- Routes that can never be reached -----

  predicate NoEmptyEdge(p: Path) {
    p.Root? || (p.edge != Static("") && NoEmptyEdge(p.parent))
  }

  lemma {:induction false} TrailEdges(trail: Trail, k: nat)
    requires k <= |trail|
    ensures NoEmptyEdge(NodeOf(trail, k)) <==> Lit("") !in trail[..k]
  {
    if k > 0 {
      TrailEdges(trail, k - 1);
      assert trail[..k] == trail[..k - 1] + [trail[k - 1]];
    }
  }

  /** The walk stops at an empty segment, so it never goes below one. */
  lemma {:induction false} ReachedHasNoEmpty<H>(table: Table<H>, path: Path, segments: seq<string>)
    requires path in table && NoEmptyEdge(path)
    ensures var p := Reached(table, path, segments); p.Some? ==> NoEmptyEdge(p.value)
    decreases |segments|
  {
    if segments == [] || segments[0] == "" {
    } else if Child(path, Static(segments[0])) in table {
      ReachedHasNoEmpty(table, Child(path, Static(segments[0])), segments[1..]);
    } else if Child(path, Dynamic) in table {
      ReachedHasNoEmpty(table, Child(path, Dynamic), segments[1..]);
    }
  }

  /** A bound on the literal segments in the trie. */
  lemma {:induction false} LongestLiteral(paths: set<Path>) returns (n: nat)
    ensures forall p, text :: Child(p, Static(text)) in paths ==> |text| <= n
    decreases |paths|
  {
    if paths == {} {
      n := 0;
    } else {
      var q: Path :| q in paths;
      n := LongestLiteral(paths - {q});
      if q.Child? && q.edge.Static? && |q.edge.text| > n {
        n := |q.edge.text|;
      }
      forall p, text | Child(p, Static(text)) in paths ensures |text| <= n {
        if Child(p, Static(text)) != q {
          assert Child(p, Static(text)) in paths - {q};
        }
      }
    }
  }

  /** Arguments longer than any literal segment, so that none of them is one. */
  lemma UnusedArgs<H>(table: Table<H>, trail: Trail) returns (args: seq<string>)
    requires Lit("") !in trail
    ensures NonEmpty(trail, args) && Unshadowed(table, trail, args, 0)
  {
    var n := LongestLiteral(table.Keys);
    var unused := seq(n + 1, _ => 'x');
    args := seq(|trail|, _ => unused);
    forall k | 0 <= k < |trail| ensures Fill(trail, args)[k] != "" {
      assert trail[k] in trail;
    }
  }

  /** Some request reaches an accepted route's node exactly when the route has no empty segment. */
  lemma ReachableIff<H(!new)>(table: Table<H>, routes: seq<Route<H>>, r: nat)
    requires Represents(table, routes) && r < |routes| && Named(routes[r].segments)
    ensures Root in table
    ensures (exists request :: Reached(table, Root, request) == Some(PathOf(routes[r].segments)))
            <==> Lit("") !in routes[r].segments
  {
    var trail := routes[r].segments;
    RouteHasTrail(table, routes, r);
    if Lit("") in trail {
      TrailEdges(trail, |trail|);
      assert trail[..|trail|] == trail;
      forall request ensures Reached(table, Root, request) != Some(PathOf(trail)) {
        ReachedHasNoEmpty(table, Root, request);
      }
    } else {
      var args := UnusedArgs(table, trail);
      FilledReachesIff(table, trail, args, 0);
      assert Fill(trail, args)[0..] == Fill(trail, args);
    }
  }

  /** A handler registered for "/" alone is accepted and never found. */
  lemma RootRouteIsLost<H(!new)>(fn: H, params: Params)
    ensures var r := AddRoute(EmptyTable(), GET, "/", fn);
            r.Ok? && Dispatch(r.value, GET, "/", params) == Ok(Found(None, params, true))
  {
    assert Split("/"[1..]) == [""];
    assert SegmentsOf("/") == [Lit("")];
    var route := Route(GET, [Lit("")], fn);
    assert Build<H>([]) == Some(EmptyTable<H>());
    BuildIff<H>([]);
    AddRep(EmptyTable(), [], route);
    var table := AddSegments(EmptyTable(), GET, [Lit("")], fn).value;
    assert [] + [route] == [route];
    SlotTaken(table, [route], GET, Root);
  }

  /** So after any calls of add_route a filled-in accepted route is dispatched to its own handler. */
  lemma CallsAreServed<H(!new)>(calls: seq<Call<H>>, r: nat, args: seq<string>, params: Params)
    requires r < |Accepted(calls)| && |Accepted(calls)[r].segments| >= 1
    requires NonEmpty(Accepted(calls)[r].segments, args)
    requires forall j :: 0 <= j < |args| ==> SlashFree(Fill(Accepted(calls)[r].segments, args)[j])
    requires Unshadowed(Register(calls), Accepted(calls)[r].segments, args, 0)
    ensures var route := Accepted(calls)[r];
            Dispatch(Register(calls), route.m, "/" + Join(Fill(route.segments, args)), params) ==
            Ok(Found(Some(route.fn), Captures(route.segments, args, 0, params), NewNames(route.segments, args, 0, params)))
  {
    RegisterRepresents(calls);
    DispatchOwnRoute(Register(calls), Accepted(calls), r, args, params);
  }
}
