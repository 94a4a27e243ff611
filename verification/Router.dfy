/**
The router of librest as it runs: nodes that own their children, updated in place while
add_route walks down.  Its state is the table of module RouteTable.
*/
module RouterClass {
  import opened Wrappers
  import opened RouteStrings
  import opened HttpConstants
  import opened RouteTable

  type Nodes<H> = map<Path, Node<H>>

  /** `url_dispatch_node`. */
  class Node<H> {
    var staticRoutes: map<string, Node<H>>
    var dynamicId: string
    var dynamicNode: Node?<H>
    var functions: map<Method, H>
    /** Where the node is; known to the proof only. */
    ghost const path: Path

    constructor (ghost at: Path)
      ensures path == at && staticRoutes == map[] && dynamicId == "" && dynamicNode == null && functions == map[]
    {
      path := at;
      staticRoutes, dynamicId, dynamicNode, functions := map[], "", null, map[];
    }

    /** It holds what the table has at its path, and its children are the nodes one edge below. */
    ghost predicate At(nodes: Nodes<H>, table: Table<H>)
      reads this
    {
      && path in table && table[path] == Entry(dynamicId, functions)
      && (forall text :: text in staticRoutes <==> Child(path, Static(text)) in nodes)
      && (forall text :: text in staticRoutes ==> nodes[Child(path, Static(text))] == staticRoutes[text])
      && (dynamicNode != null <==> Child(path, Dynamic) in nodes)
      && (dynamicNode != null ==> nodes[Child(path, Dynamic)] == dynamicNode)
    }

    /** A new node elsewhere in the tree does not concern this one. */
    lemma Kept(nodes: Nodes<H>, table: Table<H>, nodes': Nodes<H>, table': Table<H>, q: Path, child: Node<H>)
      requires At(nodes, table) && q.Child? && q.parent != path && nodes' == nodes[q := child]
      requires path in table' && table'[path] == table[path]
      ensures At(nodes', table')
    {
      assert forall edge :: Child(path, edge) != q;
    }

    /** Hang a new node below this one. */
    method SetChild(segment: Segment, child: Node<H>, ghost nodes: Nodes<H>, ghost table: Table<H>)
      requires At(nodes, table) && Child(path, EdgeOf(segment)) !in nodes && path in table
      modifies `staticRoutes, `dynamicId, `dynamicNode
      ensures var id := if segment.Dyn? then segment.name else table[path].dynamicId;
              At(nodes[Child(path, EdgeOf(segment)) := child], table[path := Entry(id, table[path].functions)])
    {
      match segment {
        case Lit(text) => staticRoutes := staticRoutes[text := child];
        case Dyn(name) => dynamicId, dynamicNode := name, child;
      }
    }
  }

  /** A node just created: it holds nothing and has no children. */
  ghost predicate FreshAt<H>(table: Table<H>, p: Path) {
    p in table && table[p] == NewEntry() && forall edge :: Child(p, edge) !in table
  }

  lemma NoChildrenYet<H>(table: Table<H>, p: Path, q: Path)
    requires Linked(table) && q !in table && p in table
    ensures q != p && forall edge :: Child(q, edge) !in table && Child(q, edge) != p && Child(q, edge) != q
  {
    forall edge ensures Child(q, edge) !in table && Child(q, edge) != q {
      assert Child(q, edge) in table ==> HasParent(table.Keys, Child(q, edge));
      assert Depth(Child(q, edge)) == Depth(q) + 1;
    }
  }

  /** The table after a child for `segment` was added below `p`. */
  ghost function Grown<H>(table: Table<H>, p: Path, segment: Segment): (grown: Table<H>)
    requires Linked(table) && p in table && Child(p, EdgeOf(segment)) !in table && (segment.Dyn? ==> segment.name != "")
    ensures AddSegment(table, p, segment) == Ok(grown)
    ensures Linked(grown) && FreshAt(grown, Child(p, EdgeOf(segment)))
    ensures grown.Keys == table.Keys + {Child(p, EdgeOf(segment))}
    ensures grown[p] == Entry(if segment.Dyn? then segment.name else table[p].dynamicId, table[p].functions)
    ensures forall r :: r in table && r != p ==> grown[r] == table[r]
  {
    assert DynamicIff(table, p);
    AddSegmentLinked(table, p, segment);
    NoChildrenYet(table, p, Child(p, EdgeOf(segment)));
    AddSegment(table, p, segment).value
  }

  // ----- The loops of get_dispatch and add_route, on values -----

  /** From turn `i` on. */
  function Resume<H>(view: Table<H>, p: Path, split: seq<string>, i: nat, m: Method, params: Params, distinct: bool)
      : Found<H>
    requires p in view && i <= |split|
    decreases |split| - i
  {
    if i == |split| || split[i] == "" then Found(HandlerAt(view, p, m), params, distinct)
    else if Child(p, Static(split[i])) in view then
      Resume(view, Child(p, Static(split[i])), split, i + 1, m, params, distinct)
    else if Child(p, Dynamic) in view then
      Resume(view, Child(p, Dynamic), split, i + 1, m, Captured(params, view[p].dynamicId, split[i]),
             distinct && view[p].dynamicId !in params)
    else Found(None, params, distinct)
  }

  lemma {:induction false} ResumeIsLookup<H>(view: Table<H>, p: Path, split: seq<string>, i: nat, m: Method,
                                             params: Params, distinct: bool)
    requires p in view && i <= |split|
    ensures var found := Lookup(view, p, split[i..], m, params);
            Resume(view, p, split, i, m, params, distinct) == Found(found.handler, found.params, found.distinct && distinct)
    decreases |split| - i
  {
    if i < |split| {
      var rest := split[i..];
      assert rest[0] == split[i] && rest[1..] == split[i + 1..];
      if split[i] != "" {
        if Child(p, Static(split[i])) in view {
          ResumeIsLookup(view, Child(p, Static(split[i])), split, i + 1, m, params, distinct);
        } else if Child(p, Dynamic) in view {
          ResumeIsLookup(view, Child(p, Dynamic), split, i + 1, m, Captured(params, view[p].dynamicId, split[i]),
                         distinct && view[p].dynamicId !in params);
        }
      }
    }
  }

  /** Below a fresh node there is no conflict: a walk that fails has added nothing. */
  lemma WalkTurn<H>(before: Table<H>, view: Table<H>, segments: seq<Segment>, p: Path, i: nat)
    requires Linked(before) && Named(segments) && i < |segments| && p == NodeOf(segments, i)
    requires AddWalk(before, segments, i) == Ok(view) && (view == before || FreshAt(view, p))
    ensures Depth(p) == i && p in view
    ensures var turn := AddSegment(view, p, segments[i]);
            && AddWalk(before, segments, i + 1) == turn
            && (turn.Err? ==> view == before)
            && (turn.Ok? && turn.value == view ==> view == before)
  {
    if FreshAt(view, p) {
      assert Child(p, EdgeOf(segments[i])) !in view;
    }
  }

  lemma {:induction false} WalkFails<H>(before: Table<H>, segments: seq<Segment>, i: nat, k: nat)
    requires Linked(before) && Named(segments) && i <= k <= |segments| && AddWalk(before, segments, i).Err?
    ensures AddWalk(before, segments, k) == AddWalk(before, segments, i)
    decreases k
  {
    if i < k {
      WalkFails(before, segments, i, k - 1);
    }
  }

  // ----- The router -----

  class Router<H> {
    const root: Node<H>
    /** Every node by its path from the root, and as a set for frames. */
    ghost var nodes: Nodes<H>
    ghost var repr: set<Node<H>>
    /** The trie as a value. */
    ghost var table: Table<H>

    ghost predicate Placed(p: Path)
      reads this, repr
    {
      p in nodes && nodes[p].path == p && nodes[p] in repr && nodes[p].At(nodes, table)
    }

    ghost predicate Valid()
      reads this, repr
    {
      && Root in nodes && nodes[Root] == root
      && nodes.Keys == table.Keys && Linked(table)
      && (forall p {:trigger Placed(p)} :: p in nodes ==> Placed(p))
    }

    constructor ()
      ensures Valid() && table == EmptyTable() && fresh(repr)
    {
      root := new Node<H>(Root);
      new;
      nodes, repr, table := map[Root := root], {root}, EmptyTable();
      assert Placed(Root);
    }

    /** A new child of `node`, for a segment that has none yet. */
    method NewChild(ghost p: Path, node: Node<H>, segment: Segment) returns (child: Node<H>)
      requires Valid() && p in nodes && nodes[p] == node
      requires Child(p, EdgeOf(segment)) !in table && (segment.Dyn? ==> segment.name != "")
      modifies this`nodes, this`repr, this`table
      modifies node`staticRoutes, node`dynamicId, node`dynamicNode
      ensures Valid() && fresh(child) && repr == old(repr) + {child}
      ensures nodes == old(nodes)[Child(p, EdgeOf(segment)) := child]
      ensures table == Grown(old(table), p, segment)
    {
      assert Placed(p);
      child := new Node<H>(Child(p, EdgeOf(segment)));
      node.SetChild(segment, child, nodes, table);
      forall r {:trigger Placed(r)} | r in nodes && r != p ensures Placed(r) {
        assert old(Placed(r));
      }
      Adopt(p, segment, child);
    }

    /** Put a child that the node at `p` has got into the table. */
    ghost method Adopt(p: Path, segment: Segment, child: Node<H>)
      requires Root in nodes && nodes[Root] == root && nodes.Keys == table.Keys && Linked(table)
      requires p in nodes && Child(p, EdgeOf(segment)) !in table && (segment.Dyn? ==> segment.name != "")
      requires forall r {:trigger Placed(r)} :: r in nodes && r != p ==> Placed(r)
      requires nodes[p].path == p && nodes[p] in repr && child.path == Child(p, EdgeOf(segment))
      requires nodes[p].At(nodes[Child(p, EdgeOf(segment)) := child], table[p := Grown(table, p, segment)[p]])
      requires child.staticRoutes == map[] && child.dynamicNode == null
      requires Entry(child.dynamicId, child.functions) == NewEntry()
      modifies this`nodes, this`repr, this`table
      ensures Valid() && repr == old(repr) + {child}
      ensures nodes == old(nodes)[Child(p, EdgeOf(segment)) := child]
      ensures table == Grown(old(table), p, segment)
    {
      ghost var q, shape, before := Child(p, EdgeOf(segment)), nodes, table;
      nodes, repr, table := nodes[q := child], repr + {child}, Grown(table, p, segment);
      forall r {:trigger Placed(r)} | r in nodes ensures Placed(r) {
        if r == p || r == q {
          assert nodes[r].At(nodes, table);
        } else {
          assert old(Placed(r));
          nodes[r].Kept(shape, before, nodes, table, q, child);
        }
      }
    }

    /** One turn of the loop of add_route; null when the dynamic route has another name. */
    method Descend(ghost p: Path, node: Node<H>, segment: Segment) returns (child: Node?<H>)
      requires Valid() && p in nodes && nodes[p] == node && (segment.Dyn? ==> segment.name != "")
      modifies this`nodes, this`repr, this`table
      modifies node`staticRoutes, node`dynamicId, node`dynamicNode
      ensures Valid()
      ensures repr == old(repr) || (child != null && fresh(child) && repr == old(repr) + {child})
      ensures p in old(table)
      ensures child == null ==>
                && table == old(table)
                && AddSegment(old(table), p, segment) == Err(NameConflict(Depth(p)))
      ensures child != null ==>
                && Child(p, EdgeOf(segment)) in nodes && nodes[Child(p, EdgeOf(segment))] == child
                && AddSegment(old(table), p, segment) == Ok(table)
                && (table == old(table) || FreshAt(table, Child(p, EdgeOf(segment))))
    {
      assert Placed(p) && DynamicIff(table, p);
      match segment {
        case Dyn(name) =>
          if node.dynamicId == "" {
            child := NewChild(p, node, segment);
          } else if node.dynamicId != name {
            child := null;
          } else {
            child := node.dynamicNode;
          }
        case Lit(text) =>
          if text in node.staticRoutes {
            child := node.staticRoutes[text];
          } else {
            child := NewChild(p, node, segment);
          }
      }
    }

    method SetHandler(ghost p: Path, node: Node<H>, m: Method, fn: H)
      requires Valid() && p in nodes && nodes[p] == node
      modifies this`table, node`functions
      ensures Valid() && p in old(table)
      ensures table == old(table)[p := Entry(old(table)[p].dynamicId, old(table)[p].functions[m := fn])]
    {
      assert Placed(p);
      ghost var before := table;
      node.functions := node.functions[m := fn];
      KeepsLinks(table, p, node.functions);
      table := table[p := Entry(node.dynamicId, node.functions)];
      forall r {:trigger Placed(r)} | r in nodes ensures Placed(r) {
        if r != p {
          assert old(Placed(r));
          assert nodes[r].At(nodes, before);
        }
      }
    }

    /** The walk from the table `before` has reached turn `i` at this node: nothing was added, or the node is new. */
    ghost predicate AtTurn(before: Table<H>, segments: seq<Segment>, node: Node<H>, i: nat)
      requires Linked(before) && Named(segments) && i <= |segments|
      reads this, repr
    {
      match AddWalk(before, segments, i)
      case Err(_) => false
      case Ok(view) =>
        var p := NodeOf(segments, i);
        && Valid() && p in nodes && nodes[p] == node && node in repr
        && table == view && (view == before || FreshAt(view, p))
    }

    /** The walk starts at the root. */
    lemma StartTurn(segments: seq<Segment>)
      requires Valid() && Named(segments)
      ensures root in repr && Linked(table) && AtTurn(table, segments, root, 0)
    {
      assert Placed(Root);
    }

    /** One turn, and where it leaves the walk. */
    method DescendAlong(node: Node<H>, part: string, ghost before: Table<H>, ghost segments: seq<Segment>, ghost i: nat)
      returns (child: Node?<H>)
      requires Linked(before) && Named(segments) && i < |segments| && segments[i] == ParseSegment(part)
      requires AtTurn(before, segments, node, i)
      modifies this`nodes, this`repr, this`table
      modifies node`staticRoutes, node`dynamicId, node`dynamicNode
      ensures forall o :: o in repr ==> o in old(repr) || fresh(o)
      ensures child == null ==>
                && Valid() && table == before
                && AddWalk(before, segments, |segments|) == Err(NameConflict(i))
      ensures child != null ==> child in repr && AtTurn(before, segments, child, i + 1)
    {
      ghost var p := NodeOf(segments, i);
      WalkTurn(before, table, segments, p, i);
      child := Descend(p, node, ParseSegment(part));
      if child == null {
        WalkFails(before, segments, i + 1, |segments|);
      } else {
        assert Placed(Child(p, EdgeOf(segments[i])));
      }
    }

    /** The loop of add_route: the node at the end of the route, or the depth of a name conflict. */
    method Walk(split: seq<string>, ghost segments: seq<Segment>) returns (node: Node?<H>, depth: nat)
      requires Valid() && segments == ParseSegments(split)
      modifies this`nodes, this`repr, this`table, repr
      ensures (forall o :: o in repr ==> o in old(repr) || fresh(o)) && Linked(old(table))
      ensures node == null ==>
                && Valid() && table == old(table)
                && AddWalk(old(table), segments, |segments|) == Err(NameConflict(depth))
      ensures node != null ==> AtTurn(old(table), segments, node, |segments|)
    {
      ghost var before := table;
      StartTurn(segments);
      node, depth := root, 0;
      while depth < |split|
        invariant depth <= |split| && (forall o :: o in repr ==> o in old(repr) || fresh(o))
        invariant node != null && node in repr && AtTurn(before, segments, node, depth)
      {
        node := DescendAlong(node, split[depth], before, segments, depth);
        if node == null {
          return;
        }
        depth := depth + 1;
      }
    }

    /** Returns the error that is thrown, if any; then the trie is as it was. */
    method AddRoute(m: Method, route: string, fn: H) returns (error: Option<RouteError>)
      requires Valid()
      modifies this`nodes, this`repr, this`table, repr
      ensures Valid() && (forall o :: o in repr ==> o in old(repr) || fresh(o)) && Linked(old(table))
      ensures error.None? ==> RouteTable.AddRoute(old(table), m, route, fn) == Ok(table)
      ensures error.Some? ==>
                RouteTable.AddRoute(old(table), m, route, fn) == Err(error.value) && table == old(table)
    {
      if route == "" || route[0] != '/' {
        return Some(BadRoute);
      }
      var split := Split(route[1..]);
      var node, depth := Walk(split, ParseSegments(split));
      if node == null {
        return Some(NameConflict(depth));
      }
      assert Placed(PathOf(ParseSegments(split)));
      if m in node.functions {
        return Some(MethodExists);
      }
      SetHandler(PathOf(ParseSegments(split)), node, m, fn);
      return None;
    }

    /** The handler or nullptr, the captured parameters, and whether every assertion held. */
    method GetDispatch(m: Method, route: string, outParams: Params) returns (r: Result<Found<H>, RouteError>)
      requires Valid()
      ensures Root in table && r == Dispatch(table, m, route, outParams)
    {
      if route == "" || route[0] != '/' {
        return Err(BadRoute);
      }
      var split := Split(route[1..]);
      var node, i, params, distinct := root, 0, outParams, true;
      ghost var p := Root;
      ResumeIsLookup(table, p, split, 0, m, params, true);
      assert split[0..] == split;
      while i < |split| && split[i] != ""
        invariant i <= |split| && p in nodes && nodes[p] == node && p in table
        invariant Resume(table, Root, split, 0, m, outParams, true) == Resume(table, p, split, i, m, params, distinct)
      {
        assert Placed(p) && DynamicIff(table, p);
        if split[i] in node.staticRoutes {
          node := node.staticRoutes[split[i]];
          p := Child(p, Static(split[i]));
        } else if node.dynamicNode != null {
          assert node.dynamicId != "";
          distinct := distinct && node.dynamicId !in params;
          params := Captured(params, node.dynamicId, split[i]);
          node := node.dynamicNode;
          p := Child(p, Dynamic);
        } else {
          return Ok(Found(None, params, distinct));
        }
        i := i + 1;
      }
      assert Placed(p);
      return Ok(Found(if m in node.functions then Some(node.functions[m]) else None, params, distinct));
    }
  }
}
