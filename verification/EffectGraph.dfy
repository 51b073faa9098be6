/** Influence graphs: identities, validated construction, and the merge of two graphs. */
module EffectGraph {
  import opened Common

  const MAX_EFFECT_NODES := 4096
  const MAX_EFFECT_EDGES := 8192
  const MAX_CHANGE_ROOTS := 256
  const MAX_PROTECTED_RESOURCES := 128

  datatype EffectError =
    | InvalidGraph
    | InvalidSelection
    | LimitExceeded
    | MissingRoot
    | MissingProtectedResource
    | GlobalEffects
    | ProtectedImpact
    | IncompleteEffects

  datatype Kind =
    | PhysicalPort | NetworkDevice | Bridge | Vlan | Interface | Routing | Firewall | DhcpDns
    | Multicast | Service | Storage | Vpn | System | Packages | Firmware
  {
    /** Declaration order, which is the derived order of kinds. */
    function Rank(): nat {
      match this
      case PhysicalPort => 0 case NetworkDevice => 1 case Bridge => 2 case Vlan => 3
      case Interface => 4 case Routing => 5 case Firewall => 6 case DhcpDns => 7
      case Multicast => 8 case Service => 9 case Storage => 10 case Vpn => 11
      case System => 12 case Packages => 13 case Firmware => 14
    }
  }

  datatype ResourceId = ResourceId(kind: Kind, name: Bytes)

  datatype Knowledge = Complete | Unknown

  datatype Node = Node(resource: ResourceId, knowledge: Knowledge)

  /** A change to `from` can influence `to`. */
  datatype Influence = Influence(from: ResourceId, to: ResourceId)

  type Edge = (nat, nat)

  /** Kind first, then the label byte by byte. */
  const IdKey: ResourceId -> seq<int> := (id: ResourceId) => [id.kind.Rank() as int] + id.name
  const NodeKey: Node -> seq<int> := (n: Node) => IdKey(n.resource)
  const EdgeKey: Edge -> seq<int> := (e: Edge) => [e.0, e.1]

  lemma IdKeyInjective(a: ResourceId, b: ResourceId)
    requires IdKey(a) == IdKey(b)
    ensures a == b
  {
    assert IdKey(a)[0] == IdKey(b)[0] && IdKey(a)[1..] == IdKey(b)[1..];
    assert IdKey(a)[1..] == a.name && IdKey(b)[1..] == b.name;
  }

  datatype Graph = Graph(nodes: seq<Node>, edges: seq<Edge>)

  ghost predicate InRange(nodes: seq<Node>, edges: seq<Edge>) {
    forall e | e in edges :: e.0 < |nodes| && e.1 < |nodes|
  }

  ghost predicate ValidGraph(g: Graph) {
    && |g.nodes| <= MAX_EFFECT_NODES && |g.edges| <= MAX_EFFECT_EDGES
    && StrictlySortedBy(NodeKey, g.nodes)
    && StrictlySortedBy(EdgeKey, g.edges)
    && InRange(g.nodes, g.edges)
  }

  // ----- What a graph says, without positions -----

  ghost function Ids(nodes: seq<Node>): set<ResourceId> {
    set n | n in nodes :: n.resource
  }

  ghost function UnknownIds(nodes: seq<Node>): set<ResourceId> {
    set n | n in nodes && n.knowledge == Unknown :: n.resource
  }

  ghost function Named(nodes: seq<Node>, e: Edge): (ResourceId, ResourceId)
    requires e.0 < |nodes| && e.1 < |nodes|
  {
    (nodes[e.0].resource, nodes[e.1].resource)
  }

  ghost function Links(nodes: seq<Node>, edges: seq<Edge>): set<(ResourceId, ResourceId)>
    requires InRange(nodes, edges)
  {
    set e | e in edges :: Named(nodes, e)
  }

  lemma IdsAppend(nodes: seq<Node>, n: Node)
    ensures Ids(nodes + [n]) == Ids(nodes) + {n.resource}
    ensures UnknownIds(nodes + [n]) ==
            UnknownIds(nodes) + if n.knowledge == Unknown then {n.resource} else {}
  {
    var all := nodes + [n];
    assert forall m :: m in all <==> m in nodes || m == n;
  }

  lemma LastIsFresh(nodes: seq<Node>, last: Node)
    requires StrictlySortedBy(NodeKey, nodes + [last])
    ensures StrictlySortedBy(NodeKey, nodes) && last.resource !in Ids(nodes)
  {
    var all := nodes + [last];
    StrictlySortedDistinct(NodeKey, all);
    forall n | n in nodes
      ensures n.resource != last.resource
    {
      var i :| 0 <= i < |nodes| && nodes[i] == n;
      assert NodeKey(all[i]) != NodeKey(all[|nodes|]);
    }
    forall i, j | 0 <= i < j < |nodes|
      ensures LexBelow(NodeKey(nodes[i]), NodeKey(nodes[j]))
    {
      assert LexBelow(NodeKey(all[i]), NodeKey(all[j]));
    }
  }

  lemma {:induction false} IdsCount(nodes: seq<Node>)
    requires StrictlySortedBy(NodeKey, nodes)
    ensures |Ids(nodes)| == |nodes|
  {
    hide StrictlySortedBy;
    if nodes != [] {
      var init, last := nodes[..|nodes| - 1], nodes[|nodes| - 1];
      assert nodes == init + [last];
      LastIsFresh(init, last);
      IdsCount(init);
      IdsAppend(init, last);
    }
  }

  /** Two positions with the same identity are the same position. */
  lemma SamePosition(nodes: seq<Node>, i: nat, j: nat)
    requires StrictlySortedBy(NodeKey, nodes) && i < |nodes| && j < |nodes|
    requires nodes[i].resource == nodes[j].resource
    ensures i == j
  {
    StrictlySortedDistinct(NodeKey, nodes);
    assert NodeKey(nodes[i]) == NodeKey(nodes[j]);
  }

  /** Position of `id`, as the binary search over the sorted nodes finds it. */
  function IndexOf(nodes: seq<Node>, id: ResourceId): (r: Option<nat>)
    ensures r.Some? ==> r.value < |nodes| && nodes[r.value].resource == id
    ensures r.None? <==> id !in Ids(nodes)
  {
    if nodes == [] then None
    else
      assert nodes == [nodes[0]] + nodes[1..];
      if nodes[0].resource == id then
        assert nodes[0] in nodes;
        Some(0)
      else match IndexOf(nodes[1..], id)
        case None => None
        case Some(i) =>
          assert nodes[i + 1] in nodes;
          Some(i + 1)
  }

  lemma SetImageCount<A, B>(s: set<A>, f: A -> B, t: set<B>)
    requires forall a, b | a in s && b in s && f(a) == f(b) :: a == b
    requires t == set a | a in s :: f(a)
    ensures |t| == |s|
    decreases |s|
  {
    if s != {} {
      var a :| a in s;
      var u := set x | x in s - {a} :: f(x);
      SetImageCount(s - {a}, f, u);
      assert t == u + {f(a)};
    }
  }

  // ----- Selections and construction -----

  ghost predicate ValidSelection(ids: seq<ResourceId>, maximum: nat) {
    1 <= |ids| <= maximum && StrictlySortedBy(IdKey, ids)
  }

  /** Sorted distinct identities; empty, repeated and oversized lists are refused. */
  function Selection(ids: seq<ResourceId>, maximum: nat): Result<seq<ResourceId>, EffectError> {
    if |ids| > maximum then Err(LimitExceeded)
    else if ids == [] then Err(InvalidSelection)
    else
      var sorted := SortBy(IdKey, ids);
      if exists i | 0 <= i < |sorted| - 1 :: IdKey(sorted[i]) == IdKey(sorted[i + 1])
      then Err(InvalidSelection)
      else Ok(sorted)
  }

  lemma SelectionCorrect(ids: seq<ResourceId>, maximum: nat)
    ensures Selection(ids, maximum).Ok? <==> 1 <= |ids| <= maximum && DistinctKeys(IdKey, ids)
    ensures Selection(ids, maximum).Ok? ==>
              && ValidSelection(Selection(ids, maximum).value, maximum)
              && multiset(Selection(ids, maximum).value) == multiset(ids)
  {
    var sorted := SortBy(IdKey, ids);
    SortByStrict(IdKey, ids);
    SortByCorrect(IdKey, ids);
    DistinctNeighbours(IdKey, sorted);
  }

  /** The links that a list of influences declares. */
  ghost function Declared(influences: seq<Influence>): set<(ResourceId, ResourceId)> {
    set f | f in influences :: (f.from, f.to)
  }

  ghost predicate KnownEnds(nodes: seq<Node>, influences: seq<Influence>) {
    forall f | f in influences :: f.from in Ids(nodes) && f.to in Ids(nodes)
  }

  /** Each influence as a pair of positions. */
  ghost predicate Indexed(nodes: seq<Node>, influences: seq<Influence>, edges: seq<Edge>) {
    && |edges| == |influences|
    && InRange(nodes, edges)
    && forall i | 0 <= i < |edges| :: Named(nodes, edges[i]) == (influences[i].from, influences[i].to)
  }

  ghost predicate DistinctInfluences(influences: seq<Influence>) {
    forall i, j | 0 <= i < j < |influences| :: influences[i] != influences[j]
  }

  lemma NodesSorted(nodes: seq<Node>)
    ensures Ids(SortBy(NodeKey, nodes)) == Ids(nodes)
    ensures UnknownIds(SortBy(NodeKey, nodes)) == UnknownIds(nodes)
    ensures StrictlySortedBy(NodeKey, SortBy(NodeKey, nodes)) <==> DistinctKeys(NodeKey, nodes)
    ensures
      var sorted := SortBy(NodeKey, nodes);
      StrictlySortedBy(NodeKey, sorted) <==>
      forall i | 0 <= i < |sorted| - 1 :: NodeKey(sorted[i]) != NodeKey(sorted[i + 1])
  {
    var sorted := SortBy(NodeKey, nodes);
    SortByStrict(NodeKey, nodes);
    SortByCorrect(NodeKey, nodes);
    DistinctNeighbours(NodeKey, sorted);
    SameElements(sorted, nodes);
  }

  lemma EdgesSorted(nodes: seq<Node>, influences: seq<Influence>, edges: seq<Edge>)
    requires StrictlySortedBy(NodeKey, nodes) && Indexed(nodes, influences, edges)
    ensures
      var sorted := SortBy(EdgeKey, edges);
      && InRange(nodes, sorted)
      && Links(nodes, sorted) == Declared(influences)
      && (StrictlySortedBy(EdgeKey, sorted) <==> DistinctInfluences(influences))
      && (StrictlySortedBy(EdgeKey, sorted) <==>
          forall i | 0 <= i < |sorted| - 1 :: EdgeKey(sorted[i]) != EdgeKey(sorted[i + 1]))
  {
    var sorted := SortBy(EdgeKey, edges);
    SortByStrict(EdgeKey, edges);
    SortByCorrect(EdgeKey, edges);
    DistinctNeighbours(EdgeKey, sorted);
    SameElements(sorted, edges);
    LinksOfSame(nodes, sorted, edges);
    LinksDeclared(nodes, influences, edges);
    EdgesDistinct(nodes, influences, edges);
  }

  lemma LinksOfSame(nodes: seq<Node>, a: seq<Edge>, b: seq<Edge>)
    requires InRange(nodes, b) && forall e :: e in a <==> e in b
    ensures InRange(nodes, a) && Links(nodes, a) == Links(nodes, b)
  {
  }

  lemma LinksDeclared(nodes: seq<Node>, influences: seq<Influence>, edges: seq<Edge>)
    requires Indexed(nodes, influences, edges)
    ensures Links(nodes, edges) == Declared(influences)
  {
    forall l
      ensures l in Links(nodes, edges) <==> l in Declared(influences)
    {
      if l in Links(nodes, edges) {
        var e :| e in edges && Named(nodes, e) == l;
        var i :| 0 <= i < |edges| && edges[i] == e;
        assert influences[i] in influences;
      }
      if l in Declared(influences) {
        var f :| f in influences && (f.from, f.to) == l;
        var i :| 0 <= i < |influences| && influences[i] == f;
        assert edges[i] in edges;
      }
    }
  }

  lemma EdgesDistinct(nodes: seq<Node>, influences: seq<Influence>, edges: seq<Edge>)
    requires StrictlySortedBy(NodeKey, nodes) && Indexed(nodes, influences, edges)
    ensures DistinctKeys(EdgeKey, edges) <==> DistinctInfluences(influences)
  {
    forall i, j | 0 <= i < j < |edges|
      ensures EdgeKey(edges[i]) == EdgeKey(edges[j]) <==> influences[i] == influences[j]
    {
      assert edges[i] in edges && edges[j] in edges;
      assert Named(nodes, edges[i]) == (influences[i].from, influences[i].to);
      assert Named(nodes, edges[j]) == (influences[j].from, influences[j].to);
      if influences[i] == influences[j] {
        SamePosition(nodes, edges[i].0, edges[j].0);
        SamePosition(nodes, edges[i].1, edges[j].1);
      }
      if EdgeKey(edges[i]) == EdgeKey(edges[j]) {
        assert EdgeKey(edges[i])[0] == EdgeKey(edges[j])[0] && EdgeKey(edges[i])[1] == EdgeKey(edges[j])[1];
      }
    }
  }

  /** Validated construction. It fails exactly on an oversized input, a repeated
      identity, an unknown endpoint or a repeated influence. */
  method NewGraph(nodes: seq<Node>, influences: seq<Influence>) returns (r: Result<Graph, EffectError>)
    ensures r == Err(LimitExceeded) <==> |nodes| > MAX_EFFECT_NODES || |influences| > MAX_EFFECT_EDGES
    ensures r.Ok? <==>
              && |nodes| <= MAX_EFFECT_NODES && |influences| <= MAX_EFFECT_EDGES
              && DistinctKeys(NodeKey, nodes) && KnownEnds(nodes, influences) && DistinctInfluences(influences)
    ensures r.Ok? ==>
              && ValidGraph(r.value)
              && Ids(r.value.nodes) == Ids(nodes) && UnknownIds(r.value.nodes) == UnknownIds(nodes)
              && Links(r.value.nodes, r.value.edges) == Declared(influences)
    ensures r.Err? ==> r.error == LimitExceeded || r.error == InvalidGraph
  {
    if |nodes| > MAX_EFFECT_NODES || |influences| > MAX_EFFECT_EDGES {
      return Err(LimitExceeded);
    }
    var sorted := SortBy(NodeKey, nodes);
    NodesSorted(nodes);
    hide DistinctKeys, Ids, UnknownIds, LexBelow;
    if exists i | 0 <= i < |sorted| - 1 :: NodeKey(sorted[i]) == NodeKey(sorted[i + 1]) {
      return Err(InvalidGraph);
    }
    var indexed := IndexInfluences(sorted, influences);
    if indexed.None? {
      return Err(InvalidGraph);
    }
    var edges := SortBy(EdgeKey, indexed.value);
    EdgesSorted(sorted, influences, indexed.value);
    if exists i | 0 <= i < |edges| - 1 :: EdgeKey(edges[i]) == EdgeKey(edges[i + 1]) {
      return Err(InvalidGraph);
    }
    return Ok(Graph(sorted, edges));
  }

  method IndexInfluences(nodes: seq<Node>, influences: seq<Influence>) returns (r: Option<seq<Edge>>)
    ensures r.Some? <==> KnownEnds(nodes, influences)
    ensures r.Some? ==> Indexed(nodes, influences, r.value)
  {
    hide Ids;
    var indexed, k := [], 0;
    while k < |influences|
      invariant 0 <= k <= |influences|
      invariant Indexed(nodes, influences[..k], indexed)
      invariant KnownEnds(nodes, influences[..k])
    {
      var from, to := IndexOf(nodes, influences[k].from), IndexOf(nodes, influences[k].to);
      if from.None? || to.None? {
        assert influences[k] in influences;
        return None;
      }
      assert influences[..k + 1] == influences[..k] + [influences[k]];
      indexed := indexed + [(from.value, to.value)];
      k := k + 1;
    }
    assert influences[..k] == influences;
    return Some(indexed);
  }
}
