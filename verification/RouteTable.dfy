/**
The routing trie of librest/include/router.hpp as a value: a table from the path of a node to
what the node holds.  `AddWalk` and `Lookup` follow add_route and get_dispatch node by node.
*/
module RouteTable {
  import opened Wrappers
  import opened RouteStrings
  import opened HttpConstants

  /** From a node to its child: the static child of a segment, or the dynamic child. */
  datatype Edge = Static(text: string) | Dynamic

  /** Where a node is: the root, or below another node. */
  datatype Path = Root | Child(parent: Path, edge: Edge)

  function Depth(path: Path): nat {
    match path
    case Root => 0
    case Child(parent, _) => Depth(parent) + 1
  }

  /** What a node holds besides its children. */
  datatype Entry<H> = Entry(dynamicId: string, functions: map<Method, H>)

  type Table<H> = map<Path, Entry<H>>

  datatype RouteError = BadRoute | NameConflict(depth: nat) | MethodExists

  function EdgeOf(segment: Segment): Edge {
    match segment
    case Lit(text) => Static(text)
    case Dyn(_) => Dynamic
  }

  /** The node that a route passes at depth `k`. */
  function NodeOf(segments: seq<Segment>, k: nat): (path: Path)
    requires k <= |segments|
    ensures Depth(path) == k
  {
    if k == 0 then Root else Child(NodeOf(segments, k - 1), EdgeOf(segments[k - 1]))
  }

  /** The node that a route ends at. */
  function PathOf(segments: seq<Segment>): (path: Path)
    ensures Depth(path) == |segments|
  {
    NodeOf(segments, |segments|)
  }

  lemma {:induction false} NodeOfPrefix(a: seq<Segment>, b: seq<Segment>, k: nat)
    requires a <= b && k <= |a|
    ensures NodeOf(a, k) == NodeOf(b, k)
  {
    if k > 0 {
      NodeOfPrefix(a, b, k - 1);
    }
  }

  function NewEntry<H>(): Entry<H> {
    Entry("", map[])
  }

  function EmptyTable<H>(): Table<H> {
    map[Root := NewEntry()]
  }

  // ----- add_route -----

  /** One turn of the loop of add_route: the child for `segment`, created when it is missing. */
  function AddSegment<H>(table: Table<H>, path: Path, segment: Segment): (r: Result<Table<H>, RouteError>)
    requires path in table
    ensures r.Ok? ==> path in r.value
  {
    match segment
    case Dyn(name) =>
      var entry := table[path];
      if entry.dynamicId == "" then
        Ok(table[path := Entry(name, entry.functions)][Child(path, Dynamic) := NewEntry()])
      else if entry.dynamicId != name then Err(NameConflict(Depth(path)))
      else Ok(table)
    case Lit(text) =>
      if Child(path, Static(text)) in table then Ok(table)
      else Ok(table[Child(path, Static(text)) := NewEntry()])
  }

  /** The dynamic child of a node is there exactly when its identifier is non-empty. */
  ghost predicate DynamicIff<H>(table: Table<H>, p: Path)
    requires p in table
  {
    table[p].dynamicId != "" <==> Child(p, Dynamic) in table
  }

  ghost predicate HasParent(paths: set<Path>, p: Path) {
    p.Child? ==> p.parent in paths
  }

  /** So for every node; and every node but the root has its parent in the table. */
  ghost predicate Linked<H>(table: Table<H>) {
    && Root in table
    && (forall p {:trigger DynamicIff(table, p)} :: p in table ==> DynamicIff(table, p))
    && (forall p {:trigger HasParent(table.Keys, p)} :: p in table ==> HasParent(table.Keys, p))
  }

  lemma AddSegmentLinked<H>(table: Table<H>, path: Path, segment: Segment)
    requires Linked(table) && path in table && (segment.Dyn? ==> segment.name != "")
    ensures var r := AddSegment(table, path, segment);
            r.Ok? ==> Linked(r.value) && Child(path, EdgeOf(segment)) in r.value && table.Keys <= r.value.Keys
  {
    var r := AddSegment(table, path, segment);
    var child := Child(path, EdgeOf(segment));
    assert DynamicIff(table, path);
    if r.Ok? && r.value != table {
      assert child !in table;
      assert Child(child, Dynamic) in table ==> HasParent(table.Keys, Child(child, Dynamic));
      forall p {:trigger DynamicIff(r.value, p)} | p in r.value ensures DynamicIff(r.value, p) {
        if p != child && p != path {
          assert DynamicIff(table, p) && Child(p, Dynamic) != child;
        }
      }
      forall p {:trigger HasParent(r.value.Keys, p)} | p in r.value ensures HasParent(r.value.Keys, p) {
        assert p != child ==> HasParent(table.Keys, p);
      }
    }
  }

  predicate Named(segments: seq<Segment>) {
    forall k :: 0 <= k < |segments| && segments[k].Dyn? ==> segments[k].name != ""
  }

  /** The first `k` turns of the loop. */
  function AddWalk<H>(table: Table<H>, segments: seq<Segment>, k: nat): (r: Result<Table<H>, RouteError>)
    requires Linked(table) && Named(segments) && k <= |segments|
    ensures r.Ok? ==> Linked(r.value) && NodeOf(segments, k) in r.value && table.Keys <= r.value.Keys
  {
    if k == 0 then Ok(table)
    else
      match AddWalk(table, segments, k - 1)
      case Err(e) => Err(e)
      case Ok(table') =>
        AddSegmentLinked(table', NodeOf(segments, k - 1), segments[k - 1]);
        AddSegment(table', NodeOf(segments, k - 1), segments[k - 1])
  }

  /** Handlers are no part of the tree's shape. */
  lemma KeepsLinks<H>(table: Table<H>, path: Path, functions: map<Method, H>)
    requires Linked(table) && path in table
    ensures Linked(table[path := Entry(table[path].dynamicId, functions)])
  {
    var table' := table[path := Entry(table[path].dynamicId, functions)];
    forall p {:trigger DynamicIff(table', p)} | p in table' ensures DynamicIff(table', p) {
      assert DynamicIff(table, p);
    }
    assert table'.Keys == table.Keys;
  }

  /** add_route once the route string has been split and its segments recognised. */
  function AddSegments<H>(table: Table<H>, m: Method, segments: seq<Segment>, fn: H)
      : (r: Result<Table<H>, RouteError>)
    requires Linked(table) && Named(segments)
    ensures r.Ok? ==> Linked(r.value) && table.Keys <= r.value.Keys
  {
    match AddWalk(table, segments, |segments|)
    case Err(e) => Err(e)
    case Ok(table') =>
      var end := PathOf(segments);
      if m in table'[end].functions then Err(MethodExists)
      else
        KeepsLinks(table', end, table'[end].functions[m := fn]);
        Ok(table'[end := Entry(table'[end].dynamicId, table'[end].functions[m := fn])])
  }

  /** The leading slash is required; the rest is split at the slashes. */
  predicate GoodRoute(route: string) {
    route != "" && route[0] == '/'
  }

  function SegmentsOf(route: string): seq<Segment>
    requires GoodRoute(route)
  {
    ParseSegments(Split(route[1..]))
  }

  function AddRoute<H>(table: Table<H>, m: Method, route: string, fn: H): (r: Result<Table<H>, RouteError>)
    requires Linked(table)
  {
    if !GoodRoute(route) then Err(BadRoute) else AddSegments(table, m, SegmentsOf(route), fn)
  }

  // ----- get_dispatch -----

  type Params = map<string, string>

  /** The handler or nullptr, the parameters, and whether every assertion on the way held. */
  datatype Found<H> = Found(handler: Option<H>, params: Params, distinct: bool)

  function HandlerAt<H>(table: Table<H>, path: Path, m: Method): Option<H>
    requires path in table
  {
    if m in table[path].functions then Some(table[path].functions[m]) else None
  }

  function Captured(params: Params, id: string, value: string): Params {
    if id in params then params else params[id := value]
  }

  function Lookup<H>(table: Table<H>, path: Path, segments: seq<string>, m: Method, params: Params): Found<H>
    requires path in table
    decreases |segments|
  {
    if segments == [] || segments[0] == "" then Found(HandlerAt(table, path, m), params, true)
    else if Child(path, Static(segments[0])) in table then
      Lookup(table, Child(path, Static(segments[0])), segments[1..], m, params)
    else if Child(path, Dynamic) in table then
      var id := table[path].dynamicId;
      // emplace keeps a parameter that is there already; the source asserts that there is none
      var rest := Lookup(table, Child(path, Dynamic), segments[1..], m, Captured(params, id, segments[0]));
      Found(rest.handler, rest.params, rest.distinct && id !in params)
    else Found(None, params, true)
  }

  function Dispatch<H>(table: Table<H>, m: Method, route: string, params: Params): Result<Found<H>, RouteError>
    requires Root in table
  {
    if !GoodRoute(route) then Err(BadRoute) else Ok(Lookup(table, Root, Split(route[1..]), m, params))
  }
}
