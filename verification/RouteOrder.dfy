/** The order in which routes are registered does not matter. */
module RouteOrder {
  import opened Wrappers
  import opened HttpConstants
  import opened RouteStrings
  import opened RouteTable
  import opened RouteList

  /** The trie after registering the routes one after another, or None if one is refused. */
  function Build<H>(routes: seq<Route<H>>): (table: Option<Table<H>>)
    requires WellNamed(routes)
    ensures table.Some? ==> Linked(table.value)
  {
    if routes == [] then Some(EmptyTable())
    else
      var init, last := routes[..|routes| - 1], routes[|routes| - 1];
      match Build(init)
      case None => None
      case Some(table) =>
        AddSegments(table, last.m, last.segments, last.fn).ToOption()
  }

  /** No two of the routes stand in each other's way, counting repeated routes. */
  ghost predicate PairwiseCompatible<H(!new)>(routes: multiset<Route<H>>) {
    forall a, b :: multiset{a, b} <= routes ==> Compatible(a, b)
  }

  /** If a pair fits only together with one more copy of `extra`, the other one was there before. */
  lemma OtherIn<T>(ms: multiset<T>, other: T, extra: T)
    requires multiset{other, extra} <= ms + multiset{extra}
    ensures other in ms
  {
    if other == extra {
      assert multiset{other, extra}[other] == 2;
    } else {
      assert multiset{other, extra}[other] == 1;
    }
  }

  lemma PairOfLonger<H(!new)>(routes: seq<Route<H>>, route: Route<H>, a: Route<H>, b: Route<H>)
    requires PairwiseCompatible(multiset(routes)) && forall k :: 0 <= k < |routes| ==> Compatible(routes[k], route)
    requires multiset{a, b} <= multiset(routes) + multiset{route}
    ensures Compatible(a, b)
  {
    var ms := multiset(routes);
    if !(multiset{a, b} <= ms) {
      assert a == route || b == route;
      var other := if b == route then a else b;
      assert multiset{a, b} == multiset{other, route};
      OtherIn(ms, other, route);
      var k :| 0 <= k < |routes| && routes[k] == other;
      assert Compatible(routes[k], route);
    }
  }

  lemma PairwiseLonger<H(!new)>(routes: seq<Route<H>>, route: Route<H>)
    ensures PairwiseCompatible(multiset(routes + [route])) <==>
            PairwiseCompatible(multiset(routes)) && forall k :: 0 <= k < |routes| ==> Compatible(routes[k], route)
  {
    var ms, all := multiset(routes), multiset(routes + [route]);
    assert all == ms + multiset{route};
    if PairwiseCompatible(all) {
      forall k | 0 <= k < |routes| ensures Compatible(routes[k], route) {
        assert routes[k] in ms;
        assert multiset{routes[k], route} <= all;
      }
    }
    if PairwiseCompatible(ms) && forall k :: 0 <= k < |routes| ==> Compatible(routes[k], route) {
      forall a, b | multiset{a, b} <= all ensures Compatible(a, b) {
        PairOfLonger(routes, route, a, b);
      }
    }
  }

  lemma EmptyRepresents<H(!new)>()
    ensures Represents<H>(EmptyTable(), [])
  {
  }

  /** A trie was built exactly if the routes are pairwise compatible, and it represents them. */
  ghost predicate BuiltFrom<H(!new)>(built: Option<Table<H>>, routes: seq<Route<H>>) {
    && (built.Some? <==> PairwiseCompatible(multiset(routes)))
    && (built.Some? ==> Represents(built.value, routes))
  }

  /** One more route, given what the routes before it have built. */
  lemma BuildStep<H(!new)>(built: Option<Table<H>>, init: seq<Route<H>>, last: Route<H>)
    requires WellNamed(init) && Named(last.segments) && BuiltFrom(built, init) && (built.Some? ==> Linked(built.value))
    ensures var next := if built.None? then None else AddSegments(built.value, last.m, last.segments, last.fn).ToOption();
            BuiltFrom(next, init + [last])
  {
    PairwiseLonger(init, last);
    if built.Some? {
      AddRep(built.value, init, last);
    }
  }

  /** A list of routes is accepted exactly when its routes are pairwise compatible. */
  lemma {:induction false} BuildIff<H(!new)>(routes: seq<Route<H>>)
    requires WellNamed(routes)
    ensures BuiltFrom(Build(routes), routes)
  {
    if routes == [] {
      EmptyRepresents<H>();
    } else {
      var init, last := routes[..|routes| - 1], routes[|routes| - 1];
      assert routes == init + [last];
      BuildIff(init);
      BuildStep(Build(init), init, last);
    }
  }

  lemma Reorder<H>(r1: seq<Route<H>>, r2: seq<Route<H>>, k: nat) returns (j: nat)
    requires multiset(r1) == multiset(r2) && k < |r1|
    ensures j < |r2| && r2[j] == r1[k]
  {
    assert r1[k] in multiset(r2);
    j :| 0 <= j < |r2| && r2[j] == r1[k];
  }

  lemma NodesReordered<H>(r1: seq<Route<H>>, r2: seq<Route<H>>, p: Path)
    requires multiset(r1) == multiset(r2)
    ensures HasNode(Trails(r1), p) ==> HasNode(Trails(r2), p)
    ensures HasNode(Trails(r2), p) ==> HasNode(Trails(r1), p)
  {
    if k :| 0 <= k < |r1| && Through(Trails(r1)[k], p) {
      var j := Reorder(r1, r2, k);
      assert Through(Trails(r2)[j], p);
    }
    if k :| 0 <= k < |r2| && Through(Trails(r2)[k], p) {
      var j := Reorder(r2, r1, k);
      assert Through(Trails(r1)[j], p);
    }
  }

  lemma NamesReordered<H>(r1: seq<Route<H>>, r2: seq<Route<H>>, p: Path, n: string)
    requires multiset(r1) == multiset(r2) && Names(Trails(r1), p, n)
    ensures Names(Trails(r2), p, n)
  {
    var k :| 0 <= k < |r1| && NamesAt(Trails(r1)[k], p, n);
    var j := Reorder(r1, r2, k);
    assert NamesAt(Trails(r2)[j], p, n);
  }

  lemma ServesReordered<H>(r1: seq<Route<H>>, r2: seq<Route<H>>, p: Path, m: Method, fn: H)
    requires multiset(r1) == multiset(r2) && Serves(r1, p, m, fn)
    ensures Serves(r2, p, m, fn)
  {
    var k :| 0 <= k < |r1| && r1[k].m == m && PathOf(r1[k].segments) == p && r1[k].fn == fn;
    var j := Reorder(r1, r2, k);
  }

  lemma SameEntry<H(!new)>(t1: Table<H>, r1: seq<Route<H>>, t2: Table<H>, r2: seq<Route<H>>, p: Path)
    requires Represents(t1, r1) && Represents(t2, r2) && multiset(r1) == multiset(r2) && p in t1 && p in t2
    ensures t1[p] == t2[p]
  {
    var e1, e2 := t1[p], t2[p];
    if e1.dynamicId != "" {
      NamesReordered(r1, r2, p, e1.dynamicId);
    }
    if e2.dynamicId != "" {
      NamesReordered(r2, r1, p, e2.dynamicId);
    }
    forall m | m in e1.functions ensures m in e2.functions && e2.functions[m] == e1.functions[m] {
      assert Serves(r1, p, m, e1.functions[m]);
      ServesReordered(r1, r2, p, m, e1.functions[m]);
    }
    forall m | m in e2.functions ensures m in e1.functions {
      assert Serves(r2, p, m, e2.functions[m]);
      ServesReordered(r2, r1, p, m, e2.functions[m]);
    }
  }

  /** A table that represents a list is determined by which routes are on the list. */
  lemma RepresentsUnique<H(!new)>(t1: Table<H>, r1: seq<Route<H>>, t2: Table<H>, r2: seq<Route<H>>)
    requires Represents(t1, r1) && Represents(t2, r2) && multiset(r1) == multiset(r2)
    ensures t1 == t2
  {
    forall p ensures p in t1 <==> p in t2 {
      NodesReordered(r1, r2, p);
    }
    forall p | p in t1 ensures t1[p] == t2[p] {
      SameEntry(t1, r1, t2, r2, p);
    }
  }

  /**
  Registering the same routes in another order is accepted in the same cases and builds the
  same trie, so every later dispatch finds the same.
  */
  lemma OrderIrrelevant<H(!new)>(r1: seq<Route<H>>, r2: seq<Route<H>>)
    requires WellNamed(r1) && multiset(r1) == multiset(r2)
    ensures WellNamed(r2) && Build(r1) == Build(r2)
  {
    forall k | 0 <= k < |r2| ensures Named(r2[k].segments) {
      var j := Reorder(r2, r1, k);
    }
    BuildIff(r1);
    BuildIff(r2);
    if Build(r1).Some? {
      RepresentsUnique(Build(r1).value, r1, Build(r2).value, r2);
    }
  }

  // ----- Calls that may be refused -----

  /** A call of add_route. */
  datatype Call<H> = Call(m: Method, route: string, fn: H)

  /** The trie after any calls; a call that throws leaves it as it was. */
  function Register<H>(calls: seq<Call<H>>): (table: Table<H>)
    ensures Linked(table)
  {
    if calls == [] then EmptyTable()
    else
      var before, call := Register(calls[..|calls| - 1]), calls[|calls| - 1];
      match AddRoute(before, call.m, call.route, call.fn)
      case Err(_) => before
      case Ok(table) => table
  }

  /** The routes of the calls that did not throw. */
  function Accepted<H>(calls: seq<Call<H>>): (routes: seq<Route<H>>)
    ensures WellNamed(routes)
  {
    if calls == [] then []
    else
      var init, call := calls[..|calls| - 1], calls[|calls| - 1];
      if AddRoute(Register(init), call.m, call.route, call.fn).Ok?
      then Accepted(init) + [Route(call.m, SegmentsOf(call.route), call.fn)] else Accepted(init)
  }

  /** A further call throws exactly when its route is malformed or incompatible with an accepted one. */
  lemma CallAccepted<H(!new)>(table: Table<H>, routes: seq<Route<H>>, call: Call<H>)
    requires Represents(table, routes) && Linked(table) && WellNamed(routes)
    ensures AddRoute(table, call.m, call.route, call.fn).Ok? <==>
              && call.route != "" && call.route[0] == '/'
              && forall k :: 0 <= k < |routes| ==>
                   Compatible(routes[k], Route(call.m, SegmentsOf(call.route), call.fn))
    ensures AddRoute(table, call.m, call.route, call.fn).Ok? ==>
              Represents(AddRoute(table, call.m, call.route, call.fn).value,
                         routes + [Route(call.m, SegmentsOf(call.route), call.fn)])
  {
    if GoodRoute(call.route) {
      AddRep(table, routes, Route(call.m, SegmentsOf(call.route), call.fn));
    }
  }

  /** After any calls, accepted or not, the trie represents the accepted routes. */
  lemma {:induction false} RegisterRepresents<H(!new)>(calls: seq<Call<H>>)
    ensures Represents(Register(calls), Accepted(calls))
  {
    if calls == [] {
      assert Build<H>([]) == Some(Register<H>([]));
      BuildIff<H>([]);
    } else {
      var init := calls[..|calls| - 1];
      RegisterRepresents(init);
      CallAccepted(Register(init), Accepted(init), calls[|calls| - 1]);
    }
  }

  /** What a route string stands for: its parts between the slashes, each read as a segment. */
  lemma RouteOfParts(parts: seq<string>)
    requires parts != [] && forall k :: 0 <= k < |parts| ==> SlashFree(parts[k])
    ensures GoodRoute("/" + Join(parts)) && SegmentsOf("/" + Join(parts)) == ParseSegments(parts)
  {
    assert ("/" + Join(parts))[1..] == Join(parts);
    SplitJoin(parts);
  }

  /** The first segment that an accepted route has named differently. */
  ghost predicate FirstConflict(trails: seq<Trail>, full: Trail, j: nat) {
    j < |full| && NoConflictUpTo(trails, full, j) && !NoConflict(trails, NodeOf(full, j), full[j])
  }

  lemma ErrorOfTurn<H>(table: Table<H>, path: Path, segment: Segment)
    requires path in table && AddSegment(table, path, segment).Err?
    ensures AddSegment(table, path, segment) == Err(NameConflict(Depth(path)))
  {
  }

  lemma TurnError<H>(walk: Result<Table<H>, RouteError>, trails: seq<Trail>, full: Trail, j: nat)
    requires j < |full| && AllNamed(trails) && Named(full) && WalkedTo(walk, trails, full, j) && walk.Ok?
    requires NodeOf(full, j) in walk.value && AddSegment(walk.value, NodeOf(full, j), full[j]).Err?
    ensures FirstConflict(trails, full, j)
    ensures AddSegment(walk.value, NodeOf(full, j), full[j]) == Err(NameConflict(j))
  {
    WalkRepTurn(walk.value, trails, full, j + 1);
    ErrorOfTurn(walk.value, NodeOf(full, j), full[j]);
  }

  lemma ErrorKept<H>(table: Table<H>, full: Trail, k: nat)
    requires 0 < k <= |full| && Linked(table) && Named(full)
    ensures var before := AddWalk(table, full, k - 1);
            && (before.Err? ==> AddWalk(table, full, k) == before)
            && (before.Ok? ==>
                  && NodeOf(full, k - 1) in before.value
                  && AddWalk(table, full, k) == AddSegment(before.value, NodeOf(full, k - 1), full[k - 1]))
  {
  }

  /** The turn at which a walk fails. */
  lemma {:induction false} FailingTurn<H>(table: Table<H>, full: Trail, k: nat) returns (j: nat)
    requires k <= |full| && Named(full) && Linked(table) && AddWalk(table, full, k).Err?
    ensures j < k && AddWalk(table, full, j).Ok? && NodeOf(full, j) in AddWalk(table, full, j).value
    ensures AddWalk(table, full, k) == AddSegment(AddWalk(table, full, j).value, NodeOf(full, j), full[j])
  {
    ErrorKept(table, full, k);
    if AddWalk(table, full, k - 1).Err? {
      j := FailingTurn(table, full, k - 1);
    } else {
      j := k - 1;
    }
  }

  /** The first turn of the loop at which a name clashes is the one that is reported. */
  lemma WalkError<H>(table: Table<H>, trails: seq<Trail>, full: Trail) returns (j: nat)
    requires NodesRep(table, trails) && AllNamed(trails) && Named(full) && Linked(table)
    requires AddWalk(table, full, |full|).Err?
    ensures FirstConflict(trails, full, j) && AddWalk(table, full, |full|) == Err(NameConflict(j))
  {
    j := FailingTurn(table, full, |full|);
    WalkRep(table, trails, full, j);
    var walk := AddWalk(table, full, j);
    assert AddSegment(walk.value, NodeOf(full, j), full[j]).Err?;
    TurnError(walk, trails, full, j);
  }

  /**
  Which exception a call throws: a malformed route; else the first segment whose name an accepted
  route has already named differently; else a second handler for the same method and path.
  */
  lemma CallErrors<H(!new)>(table: Table<H>, routes: seq<Route<H>>, call: Call<H>)
    requires Represents(table, routes) && Linked(table) && WellNamed(routes)
    ensures var r := AddRoute(table, call.m, call.route, call.fn);
            && (r == Err(BadRoute) <==> call.route == "" || call.route[0] != '/')
            && (r.Err? && r != Err(BadRoute) ==>
                  var full := SegmentsOf(call.route);
                  if forall k :: 0 <= k < |routes| ==> NamesAgree(routes[k].segments, full) then
                    && r == Err(MethodExists)
                    && exists k :: 0 <= k < |routes| && routes[k].m == call.m && PathOf(routes[k].segments) == PathOf(full)
                  else
                    exists j: nat :: r == Err(NameConflict(j)) && FirstConflict(Trails(routes), full, j))
  {
    if GoodRoute(call.route) {
      var full := SegmentsOf(call.route);
      if AddWalk(table, full, |full|).Err? {
        var j := WalkError(table, Trails(routes), full);
      }
      WalkRep(table, Trails(routes), full, |full|);
      NoConflictIffAgree(Trails(routes), full);
      AddRep(table, routes, Route(call.m, full, call.fn));
    }
  }
}
