/**
The trie against the plain list of accepted routes: which nodes, names and handlers a list
of routes gives, which routes a list accepts, and why the order of registration is irrelevant.
*/
module RouteList {
  import opened Wrappers
  import opened RouteStrings
  import opened HttpConstants
  import opened RouteTable

  datatype Route<H> = Route(m: Method, segments: seq<Segment>, fn: H)

  type Trail = seq<Segment>

  function Trails<H>(routes: seq<Route<H>>): (trails: seq<Trail>)
    ensures |trails| == |routes| && forall k :: 0 <= k < |routes| ==> trails[k] == routes[k].segments
  {
    seq(|routes|, k requires 0 <= k < |routes| => routes[k].segments)
  }

  // ----- What a list of routes says about a node -----

  /** The trail passes through the node at `p`. */
  predicate Through(trail: Trail, p: Path) {
    Depth(p) <= |trail| && NodeOf(trail, Depth(p)) == p
  }

  /** The trail leaves the node at `p` by a dynamic segment called `name`. */
  predicate NamesAt(trail: Trail, p: Path, name: string) {
    Depth(p) < |trail| && Through(trail, p) && trail[Depth(p)] == Dyn(name)
  }

  ghost predicate HasNode(trails: seq<Trail>, p: Path) {
    p == Root || exists k :: 0 <= k < |trails| && Through(trails[k], p)
  }

  ghost predicate Names(trails: seq<Trail>, p: Path, name: string) {
    exists k :: 0 <= k < |trails| && NamesAt(trails[k], p, name)
  }

  ghost predicate Serves<H>(routes: seq<Route<H>>, p: Path, m: Method, fn: H) {
    exists k :: 0 <= k < |routes| && routes[k].m == m && PathOf(routes[k].segments) == p && routes[k].fn == fn
  }

  ghost predicate NodesRep<H>(table: Table<H>, trails: seq<Trail>) {
    && (forall p :: p in table <==> HasNode(trails, p))
    && (forall p, n :: p in table && n != "" ==> (table[p].dynamicId == n <==> Names(trails, p, n)))
  }

  ghost predicate FunctionsRep<H(!new)>(table: Table<H>, routes: seq<Route<H>>) {
    forall p, m, fn :: p in table ==>
      ((m in table[p].functions && table[p].functions[m] == fn) <==> Serves(routes, p, m, fn))
  }

  /** The table is the trie of exactly these routes. */
  ghost predicate Represents<H(!new)>(table: Table<H>, routes: seq<Route<H>>) {
    NodesRep(table, Trails(routes)) && FunctionsRep(table, routes)
  }

  // ----- Adding one segment -----

  lemma PathOfAppend(w: Trail, segment: Segment)
    ensures PathOf(w + [segment]) == Child(PathOf(w), EdgeOf(segment))
  {
    NodeOfPrefix(w, w + [segment], |w|);
  }

  /** Extending a trail by one segment adds one node, and perhaps a name at its old end. */
  lemma ThroughLonger(w: Trail, segment: Segment, p: Path, n: string)
    ensures Through(w + [segment], p) <==> Through(w, p) || p == PathOf(w + [segment])
    ensures NamesAt(w + [segment], p, n) <==> NamesAt(w, p, n) || (p == PathOf(w) && segment == Dyn(n))
  {
    PathOfAppend(w, segment);
    if Depth(p) <= |w| {
      NodeOfPrefix(w, w + [segment], Depth(p));
    }
  }

  lemma SplitLast(trails: seq<Trail>, w: Trail, p: Path, n: string)
    ensures HasNode(trails + [w], p) <==> HasNode(trails, p) || Through(w, p)
    ensures Names(trails + [w], p, n) <==> Names(trails, p, n) || NamesAt(w, p, n)
  {
    var all := trails + [w];
    if k :| 0 <= k < |trails| && Through(trails[k], p) {
      assert Through(all[k], p);
    }
    if k :| 0 <= k < |trails| && NamesAt(trails[k], p, n) {
      assert NamesAt(all[k], p, n);
    }
    assert all[|trails|] == w;
  }

  lemma Longer(trails: seq<Trail>, w: Trail, segment: Segment, p: Path, n: string)
    ensures HasNode(trails + [w + [segment]], p) <==> HasNode(trails + [w], p) || p == PathOf(w + [segment])
    ensures Names(trails + [w + [segment]], p, n) <==>
            Names(trails + [w], p, n) || (p == PathOf(w) && segment == Dyn(n))
  {
    SplitLast(trails, w, p, n);
    SplitLast(trails, w + [segment], p, n);
    ThroughLonger(w, segment, p, n);
  }

  /** Nobody names a node's dynamic child without passing through the child. */
  lemma NamesHasChild(trails: seq<Trail>, p: Path, n: string)
    requires Names(trails, p, n)
    ensures HasNode(trails, p) && HasNode(trails, Child(p, Dynamic))
  {
    var k :| 0 <= k < |trails| && NamesAt(trails[k], p, n);
    assert Through(trails[k], Child(p, Dynamic));
  }

  ghost predicate AllNamed(trails: seq<Trail>) {
    forall k :: 0 <= k < |trails| ==> Named(trails[k])
  }

  /** A dynamic child is there only because some trail names it. */
  lemma ChildHasName(trails: seq<Trail>, p: Path) returns (n: string)
    requires HasNode(trails, Child(p, Dynamic)) && AllNamed(trails)
    ensures Names(trails, p, n) && n != ""
  {
    var child := Child(p, Dynamic);
    var k :| 0 <= k < |trails| && Through(trails[k], child);
    n := trails[k][Depth(p)].name;
    assert trails[k][Depth(p)] in trails[k];
    assert NamesAt(trails[k], p, n);
  }

  /** The conflict test of add_route, read off the list. */
  ghost predicate NoConflict(trails: seq<Trail>, p: Path, segment: Segment) {
    segment.Dyn? ==> forall n :: n != "" && Names(trails, p, n) ==> n == segment.name
  }

  lemma AddSegmentOk<H>(table: Table<H>, trails: seq<Trail>, w: Trail, segment: Segment)
    requires NodesRep(table, trails + [w]) && (segment.Dyn? ==> segment.name != "")
    ensures PathOf(w) in table
    ensures AddSegment(table, PathOf(w), segment).Ok? <==> NoConflict(trails + [w], PathOf(w), segment)
  {
    var path := PathOf(w);
    SplitLast(trails, w, path, "");
    if segment.Dyn? && table[path].dynamicId != "" {
      assert Names(trails + [w], path, table[path].dynamicId);
    }
  }

  lemma AddSegmentNodes<H>(table: Table<H>, trails: seq<Trail>, w: Trail, segment: Segment, p: Path)
    requires NodesRep(table, trails + [w]) && PathOf(w) in table
    requires segment.Dyn? ==> segment.name != ""
    requires AddSegment(table, PathOf(w), segment).Ok?
    ensures p in AddSegment(table, PathOf(w), segment).value <==> HasNode(trails + [w + [segment]], p)
  {
    var path := PathOf(w);
    PathOfAppend(w, segment);
    Longer(trails, w, segment, p, "");
    if segment.Dyn? && table[path].dynamicId != "" {
      NamesHasChild(trails + [w], path, table[path].dynamicId);
    }
  }

  lemma AddSegmentNames<H>(table: Table<H>, trails: seq<Trail>, w: Trail, segment: Segment, p: Path, n: string)
    requires NodesRep(table, trails + [w]) && PathOf(w) in table && AllNamed(trails + [w])
    requires segment.Dyn? ==> segment.name != ""
    requires AddSegment(table, PathOf(w), segment).Ok?
    requires p in AddSegment(table, PathOf(w), segment).value && n != ""
    ensures AddSegment(table, PathOf(w), segment).value[p].dynamicId == n <==> Names(trails + [w + [segment]], p, n)
  {
    var path, before := PathOf(w), trails + [w];
    PathOfAppend(w, segment);
    Longer(trails, w, segment, p, n);
    if Names(before, p, n) {
      NamesHasChild(before, p, n);
    }
    var child := Child(path, EdgeOf(segment));
    if segment.Dyn? && child in table {
      var name := ChildHasName(before, path);
      assert table[path].dynamicId == name;
    }
  }

  lemma AddSegmentRep<H>(table: Table<H>, trails: seq<Trail>, w: Trail, segment: Segment)
    requires NodesRep(table, trails + [w]) && AllNamed(trails + [w])
    requires segment.Dyn? ==> segment.name != ""
    ensures PathOf(w) in table
    ensures var r := AddSegment(table, PathOf(w), segment);
            && (r.Ok? <==> NoConflict(trails + [w], PathOf(w), segment))
            && (r.Ok? ==> NodesRep(r.value, trails + [w + [segment]]))
  {
    AddSegmentOk(table, trails, w, segment);
    var r := AddSegment(table, PathOf(w), segment);
    if r.Ok? {
      forall p ensures p in r.value <==> HasNode(trails + [w + [segment]], p) {
        AddSegmentNodes(table, trails, w, segment, p);
      }
      forall p, n | p in r.value && n != ""
        ensures r.value[p].dynamicId == n <==> Names(trails + [w + [segment]], p, n)
      {
        AddSegmentNames(table, trails, w, segment, p, n);
      }
    }
  }

  // ----- Adding one route -----

  /** Handlers of a node, none if there is no node. */
  function FunctionsAt<H>(table: Table<H>, p: Path): map<Method, H> {
    if p in table then table[p].functions else map[]
  }

  lemma AddSegmentKeepsFunctions<H>(table: Table<H>, path: Path, segment: Segment, p: Path)
    requires Linked(table) && path in table && AddSegment(table, path, segment).Ok?
    ensures FunctionsAt(AddSegment(table, path, segment).value, p) == FunctionsAt(table, p)
  {
    assert DynamicIff(table, path);
  }

  /** Creating nodes does not create handlers. */
  lemma {:induction false} WalkKeepsFunctions<H>(table: Table<H>, segments: seq<Segment>, k: nat, p: Path)
    requires Linked(table) && Named(segments) && k <= |segments| && AddWalk(table, segments, k).Ok?
    ensures FunctionsAt(AddWalk(table, segments, k).value, p) == FunctionsAt(table, p)
  {
    if k > 0 {
      WalkKeepsFunctions(table, segments, k - 1, p);
      AddSegmentKeepsFunctions(AddWalk(table, segments, k - 1).value, NodeOf(segments, k - 1), segments[k - 1], p);
    }
  }

  /** Where two routes leave the same node by dynamic segments, they use the same name. */
  predicate NamesAgree(a: Trail, b: Trail) {
    forall j :: 0 <= j < |a| && j < |b| && NodeOf(a, j) == NodeOf(b, j) && a[j].Dyn? && b[j].Dyn? ==> a[j] == b[j]
  }

  /** The first `k` turns of add_route along `full` meet no conflict. */
  ghost predicate NoConflictUpTo(trails: seq<Trail>, full: Trail, k: nat)
    requires k <= |full|
  {
    forall j :: 0 <= j < k ==> NoConflict(trails, NodeOf(full, j), full[j])
  }

  /** What the walk has done after `k` turns. */
  ghost predicate WalkedTo<H>(r: Result<Table<H>, RouteError>, trails: seq<Trail>, full: Trail, k: nat)
    requires k <= |full|
  {
    && (r.Ok? <==> NoConflictUpTo(trails, full, k))
    && (r.Ok? ==> NodesRep(r.value, trails + [full[..k]]))
  }

  lemma AddWalkLast<H>(table: Table<H>, full: Trail, k: nat)
    requires 0 < k <= |full| && Linked(table) && Named(full)
    ensures var before := AddWalk(table, full, k - 1);
            AddWalk(table, full, k) ==
              if before.Err? then before else AddSegment(before.value, NodeOf(full, k - 1), full[k - 1])
  {
  }

  lemma OwnTrailNoConflict(trails: seq<Trail>, w: Trail, segment: Segment)
    ensures NoConflict(trails + [w], PathOf(w), segment) <==> NoConflict(trails, PathOf(w), segment)
  {
    forall n ensures Names(trails + [w], PathOf(w), n) <==> Names(trails, PathOf(w), n) {
      SplitLast(trails, w, PathOf(w), n);
    }
  }

  lemma WalkRepStep<H>(table: Table<H>, trails: seq<Trail>, w: Trail, segment: Segment)
    requires NodesRep(table, trails + [w]) && AllNamed(trails) && Named(w) && (segment.Dyn? ==> segment.name != "")
    ensures PathOf(w) in table
    ensures var r := AddSegment(table, PathOf(w), segment);
            && (r.Ok? <==> NoConflict(trails, PathOf(w), segment))
            && (r.Ok? ==> NodesRep(r.value, trails + [w + [segment]]))
  {
    AddSegmentRep(table, trails, w, segment);
    OwnTrailNoConflict(trails, w, segment);
  }

  lemma WalkRepTurn<H>(walked: Table<H>, trails: seq<Trail>, full: Trail, k: nat)
    requires 0 < k <= |full| && AllNamed(trails) && Named(full) && NodesRep(walked, trails + [full[..k - 1]])
    ensures NodeOf(full, k - 1) in walked
    ensures var r := AddSegment(walked, NodeOf(full, k - 1), full[k - 1]);
            && (r.Ok? <==> NoConflict(trails, NodeOf(full, k - 1), full[k - 1]))
            && (r.Ok? ==> NodesRep(r.value, trails + [full[..k]]))
  {
    NodeOfPrefix(full[..k - 1], full, k - 1);
    WalkRepStep(walked, trails, full[..k - 1], full[k - 1]);
    assert full[..k] == full[..k - 1] + [full[k - 1]];
  }

  lemma NoConflictLast(trails: seq<Trail>, full: Trail, k: nat)
    requires 0 < k <= |full|
    ensures NoConflictUpTo(trails, full, k) <==>
            NoConflictUpTo(trails, full, k - 1) && NoConflict(trails, NodeOf(full, k - 1), full[k - 1])
  {
  }

  /** Before the first segment the new route adds nothing: its trail is the root. */
  lemma StartWalk<H>(table: Table<H>, trails: seq<Trail>)
    requires NodesRep(table, trails)
    ensures NodesRep(table, trails + [[]])
  {
    forall p ensures HasNode(trails + [[]], p) <==> HasNode(trails, p) {
      SplitLast(trails, [], p, "");
    }
    forall p, n ensures Names(trails + [[]], p, n) <==> Names(trails, p, n) {
      SplitLast(trails, [], p, n);
    }
  }

  lemma {:induction false} WalkRep<H>(table: Table<H>, trails: seq<Trail>, full: Trail, k: nat)
    requires k <= |full| && NodesRep(table, trails) && AllNamed(trails) && Named(full) && Linked(table)
    ensures WalkedTo(AddWalk(table, full, k), trails, full, k)
  {
    if k == 0 {
      StartWalk(table, trails);
      assert full[..k] == [];
    } else {
      WalkRep(table, trails, full, k - 1);
      NoConflictLast(trails, full, k);
      AddWalkLast(table, full, k);
      if AddWalk(table, full, k - 1).Ok? {
        WalkRepTurn(AddWalk(table, full, k - 1).value, trails, full, k);
      }
    }
  }

  lemma NoConflictIffAgree(trails: seq<Trail>, full: Trail)
    requires AllNamed(trails)
    ensures NoConflictUpTo(trails, full, |full|) <==> forall k :: 0 <= k < |trails| ==> NamesAgree(trails[k], full)
  {
    if NoConflictUpTo(trails, full, |full|) {
      forall k | 0 <= k < |trails| ensures NamesAgree(trails[k], full) {
        forall j | 0 <= j < |full| && j < |trails[k]|
                   && NodeOf(trails[k], j) == NodeOf(full, j) && trails[k][j].Dyn? && full[j].Dyn?
          ensures trails[k][j] == full[j]
        {
          var p := NodeOf(full, j);
          assert Named(trails[k]) && trails[k][j] in trails[k];
          assert NamesAt(trails[k], p, trails[k][j].name) && Names(trails, p, trails[k][j].name);
          assert NoConflict(trails, p, full[j]);
        }
      }
    }
    if forall k :: 0 <= k < |trails| ==> NamesAgree(trails[k], full) {
      forall j, n | 0 <= j < |full| && full[j].Dyn? && Names(trails, NodeOf(full, j), n) ensures n == full[j].name {
        var k :| 0 <= k < |trails| && NamesAt(trails[k], NodeOf(full, j), n);
        assert NodeOf(trails[k], j) == NodeOf(full, j);
        assert NamesAgree(trails[k], full);
      }
    }
  }

  /** Two routes can be registered in one router. */
  predicate Compatible<H>(a: Route<H>, b: Route<H>) {
    NamesAgree(a.segments, b.segments) && !(a.m == b.m && PathOf(a.segments) == PathOf(b.segments))
  }

  predicate WellNamed<H>(routes: seq<Route<H>>) {
    forall k :: 0 <= k < |routes| ==> Named(routes[k].segments)
  }

  lemma SameNodes<H>(table: Table<H>, table': Table<H>, trails: seq<Trail>)
    requires NodesRep(table, trails) && table'.Keys == table.Keys
    requires forall p :: p in table ==> table'[p].dynamicId == table[p].dynamicId
    ensures NodesRep(table', trails)
  {
    forall p ensures p in table' <==> HasNode(trails, p) {
      assert p in table' <==> p in table'.Keys;
    }
  }

  lemma SlotTaken<H(!new)>(table: Table<H>, routes: seq<Route<H>>, m: Method, p: Path)
    requires FunctionsRep(table, routes) && p in table
    ensures m in table[p].functions <==>
            exists k :: 0 <= k < |routes| && routes[k].m == m && PathOf(routes[k].segments) == p
  {
    if m in table[p].functions {
      assert Serves(routes, p, m, table[p].functions[m]);
    }
    if k :| 0 <= k < |routes| && routes[k].m == m && PathOf(routes[k].segments) == p {
      assert Serves(routes, p, m, routes[k].fn);
    }
  }

  lemma ServesLonger<H>(routes: seq<Route<H>>, route: Route<H>, p: Path, m: Method, fn: H)
    ensures Serves(routes + [route], p, m, fn) <==>
            Serves(routes, p, m, fn) || (route.m == m && PathOf(route.segments) == p && route.fn == fn)
  {
    var all := routes + [route];
    if k :| 0 <= k < |routes| && routes[k].m == m && PathOf(routes[k].segments) == p && routes[k].fn == fn {
      assert all[k] == routes[k];
    }
    assert all[|routes|] == route;
  }

  lemma NewHandler<H(!new)>(table: Table<H>, routes: seq<Route<H>>, route: Route<H>)
    requires FunctionsRep(table, routes) && PathOf(route.segments) in table
    requires route.m !in table[PathOf(route.segments)].functions
    ensures var end := PathOf(route.segments);
            FunctionsRep(table[end := Entry(table[end].dynamicId, table[end].functions[route.m := route.fn])],
                         routes + [route])
  {
    var end := PathOf(route.segments);
    var final := table[end := Entry(table[end].dynamicId, table[end].functions[route.m := route.fn])];
    forall p, m, fn | p in final
      ensures (m in final[p].functions && final[p].functions[m] == fn) <==> Serves(routes + [route], p, m, fn)
    {
      ServesLonger(routes, route, p, m, fn);
      SlotTaken(table, routes, route.m, end);
    }
  }

  lemma RegisterRep<H(!new)>(walked: Table<H>, routes: seq<Route<H>>, route: Route<H>)
    requires NodesRep(walked, Trails(routes) + [route.segments]) && FunctionsRep(walked, routes)
    requires var end := PathOf(route.segments); end in walked && route.m !in walked[end].functions
    ensures var end := PathOf(route.segments);
            Represents(walked[end := Entry(walked[end].dynamicId, walked[end].functions[route.m := route.fn])],
                       routes + [route])
  {
    var end := PathOf(route.segments);
    assert Trails(routes + [route]) == Trails(routes) + [route.segments];
    NewHandler(walked, routes, route);
    SameNodes(walked, walked[end := Entry(walked[end].dynamicId, walked[end].functions[route.m := route.fn])],
              Trails(routes + [route]));
  }

  /** Once the nodes are there, the handlers are still those of the routes accepted before. */
  lemma FunctionsWhileWalking<H(!new)>(table: Table<H>, routes: seq<Route<H>>, route: Route<H>, walked: Table<H>)
    requires Represents(table, routes) && Linked(table) && Named(route.segments)
    requires AddWalk(table, route.segments, |route.segments|) == Ok(walked)
    ensures FunctionsRep(walked, routes)
  {
    forall p, m, fn | p in walked
      ensures (m in walked[p].functions && walked[p].functions[m] == fn) <==> Serves(routes, p, m, fn)
    {
      WalkKeepsFunctions(table, route.segments, |route.segments|, p);
      if p !in table && Serves(routes, p, m, fn) {
        var k :| 0 <= k < |routes| && routes[k].m == m && PathOf(routes[k].segments) == p && routes[k].fn == fn;
        assert HasNode(Trails(routes), p) by {
          assert Through(Trails(routes)[k], p);
        }
        assert false;
      }
    }
  }

  lemma FinishRep<H(!new)>(table: Table<H>, routes: seq<Route<H>>, route: Route<H>, walked: Table<H>)
    requires Represents(table, routes) && Linked(table) && Named(route.segments)
    requires AddWalk(table, route.segments, |route.segments|) == Ok(walked)
    requires NodesRep(walked, Trails(routes) + [route.segments])
    ensures var r := AddSegments(table, route.m, route.segments, route.fn);
            && (r.Ok? <==> forall k :: 0 <= k < |routes| ==>
                  !(routes[k].m == route.m && PathOf(routes[k].segments) == PathOf(route.segments)))
            && (r.Ok? ==> Represents(r.value, routes + [route]))
  {
    var end := PathOf(route.segments);
    FunctionsWhileWalking(table, routes, route, walked);
    SlotTaken(walked, routes, route.m, end);
    if route.m !in walked[end].functions {
      RegisterRep(walked, routes, route);
    }
  }

  /**
  add_route accepts a route exactly when it is compatible with every route accepted so far,
  and the trie then represents the longer list.
  */
  lemma AddRep<H(!new)>(table: Table<H>, routes: seq<Route<H>>, route: Route<H>)
    requires Represents(table, routes) && Linked(table) && WellNamed(routes) && Named(route.segments)
    ensures var r := AddSegments(table, route.m, route.segments, route.fn);
            && (r.Ok? <==> forall k :: 0 <= k < |routes| ==> Compatible(routes[k], route))
            && (r.Ok? ==> Represents(r.value, routes + [route]))
  {
    var trails, full := Trails(routes), route.segments;
    WalkRep(table, trails, full, |full|);
    NoConflictIffAgree(trails, full);
    assert full[..|full|] == full;
    var walk := AddWalk(table, full, |full|);
    if walk.Ok? {
      FinishRep(table, routes, route, walk.value);
    }
  }
}
