/** The merge of two validated graphs: two sorted streams at a time, with the positions
    of each side translated into positions of the union. */
module EffectMerge {
  import opened Common
  import opened EffectGraph

  datatype Order = Less | Equal | Greater

  /** The next element to take. An exhausted stream is not a smaller value. */
  function NextOrder(left: Option<seq<int>>, right: Option<seq<int>>): (r: Option<Order>)
    ensures r.None? <==> left.None? && right.None?
    ensures r == Some(Less) ==> left.Some? && (right.Some? ==> LexBelow(left.value, right.value))
    ensures r == Some(Greater) ==> right.Some? && (left.Some? ==> LexBelow(right.value, left.value))
    ensures r == Some(Equal) ==> left.Some? && right.Some? && left.value == right.value
  {
    match (left, right)
    case (Some(a), Some(b)) =>
      LexTotal(a, b);
      Some(if LexBelow(a, b) then Less else if a == b then Equal else Greater)
    case (Some(_), None) => Some(Less)
    case (None, Some(_)) => Some(Greater)
    case (None, None) => None
  }

  function Head<T>(key: T -> seq<int>, s: seq<T>, i: nat): (r: Option<seq<int>>)
    requires i <= |s|
    ensures r == if i < |s| then Some(key(s[i])) else None
  {
    if i < |s| then Some(key(s[i])) else None
  }

  /** Everything in `s` is below everything in `rest`. */
  predicate Ahead<T>(key: T -> seq<int>, s: seq<T>, rest: seq<T>) {
    forall i, j | 0 <= i < |s| && 0 <= j < |rest| :: LexBelow(key(s[i]), key(rest[j]))
  }

  /** Taking the smaller head keeps the output sorted and below both remainders. */
  lemma TakeHead<T>(key: T -> seq<int>, s: seq<T>, x: T, mine: seq<T>, other: seq<T>)
    requires StrictlySortedBy(key, s) && Ahead(key, s, [x] + mine) && Ahead(key, s, other)
    requires StrictlySortedBy(key, [x] + mine) && StrictlySortedBy(key, other)
    requires other != [] ==> LexBelow(key(x), key(other[0]))
    ensures StrictlySortedBy(key, s + [x])
    ensures Ahead(key, s + [x], mine) && Ahead(key, s + [x], other)
  {
    var all, xs := s + [x], [x] + mine;
    forall i, j | 0 <= i < j < |all|
      ensures LexBelow(key(all[i]), key(all[j]))
    {
      if j == |s| {
        assert LexBelow(key(s[i]), key(xs[0]));
      }
    }
    forall i, j | 0 <= i < |all| && 0 <= j < |mine|
      ensures LexBelow(key(all[i]), key(mine[j]))
    {
      assert mine[j] == xs[j + 1];
      assert LexBelow(key(xs[0]), key(xs[j + 1]));
    }
    forall i, j | 0 <= i < |all| && 0 <= j < |other|
      ensures LexBelow(key(all[i]), key(other[j]))
    {
      if i == |s| && j > 0 {
        LexTransitive(key(x), key(other[0]), key(other[j]));
      }
    }
  }

  lemma SuffixSorted<T>(key: T -> seq<int>, s: seq<T>, i: nat)
    requires StrictlySortedBy(key, s) && i <= |s|
    ensures StrictlySortedBy(key, s[i..])
    ensures i < |s| ==> s[i..] == [s[i]] + s[i + 1..]
  {
  }

  lemma ReplaceHead<T>(key: T -> seq<int>, s: seq<T>, x: T, y: T, mine: seq<T>)
    requires key(x) == key(y)
    requires StrictlySortedBy(key, [x] + mine) && Ahead(key, s, [x] + mine)
    ensures StrictlySortedBy(key, [y] + mine) && Ahead(key, s, [y] + mine)
  {
    var xs, ys := [x] + mine, [y] + mine;
    assert forall i | 0 <= i < |xs| :: key(xs[i]) == key(ys[i]);
  }

  /** Dropping the head of a stream keeps the rest above the output and above the head. */
  lemma DropHead<T>(key: T -> seq<int>, s: seq<T>, b: seq<T>, j: nat)
    requires StrictlySortedBy(key, b) && j < |b| && Ahead(key, s, b[j..])
    ensures StrictlySortedBy(key, b[j + 1..]) && Ahead(key, s, b[j + 1..])
    ensures b[j + 1..] != [] ==> LexBelow(key(b[j]), key(b[j + 1..][0]))
  {
    var rest := b[j + 1..];
    forall i, k | 0 <= i < |s| && 0 <= k < |rest|
      ensures LexBelow(key(s[i]), key(rest[k]))
    {
      assert rest[k] == b[j..][k + 1];
    }
  }

  // ----- Nodes -----

  /** `nodes` is the union of the first `i` nodes of one side and `j` of the other. */
  ghost predicate MergedNodes(a: seq<Node>, b: seq<Node>, i: nat, j: nat, nodes: seq<Node>) {
    && i <= |a| && j <= |b|
    && StrictlySortedBy(NodeKey, nodes)
    && Ids(nodes) == Ids(a[..i]) + Ids(b[..j])
    && UnknownIds(nodes) == UnknownIds(a[..i]) + UnknownIds(b[..j])
    && Ahead(NodeKey, nodes, a[i..]) && Ahead(NodeKey, nodes, b[j..])
  }

  lemma MergeNodesLess(a: seq<Node>, b: seq<Node>, i: nat, j: nat, nodes: seq<Node>)
    requires StrictlySortedBy(NodeKey, a) && StrictlySortedBy(NodeKey, b)
    requires MergedNodes(a, b, i, j, nodes)
    requires i < |a| && (j < |b| ==> LexBelow(NodeKey(a[i]), NodeKey(b[j])))
    ensures MergedNodes(a, b, i + 1, j, nodes + [a[i]])
  {
    SuffixSorted(NodeKey, a, i);
    SuffixSorted(NodeKey, b, j);
    TakeHead(NodeKey, nodes, a[i], a[i + 1..], b[j..]);
    assert a[..i + 1] == a[..i] + [a[i]];
    IdsAppend(nodes, a[i]);
    IdsAppend(a[..i], a[i]);
  }

  lemma MergeNodesEqual(a: seq<Node>, b: seq<Node>, i: nat, j: nat, nodes: seq<Node>, n: Node)
    requires StrictlySortedBy(NodeKey, a) && StrictlySortedBy(NodeKey, b)
    requires MergedNodes(a, b, i, j, nodes)
    requires i < |a| && j < |b| && a[i].resource == b[j].resource == n.resource
    requires n.knowledge == Unknown <==> a[i].knowledge == Unknown || b[j].knowledge == Unknown
    ensures MergedNodes(a, b, i + 1, j + 1, nodes + [n])
  {
    hide LexBelow, Ids, UnknownIds;
    assert NodeKey(a[i]) == NodeKey(b[j]) == NodeKey(n);
    SuffixSorted(NodeKey, a, i);
    ReplaceHead(NodeKey, nodes, a[i], n, a[i + 1..]);
    DropHead(NodeKey, nodes, b, j);
    assert StrictlySortedBy(NodeKey, nodes + [n])
           && Ahead(NodeKey, nodes + [n], a[i + 1..]) && Ahead(NodeKey, nodes + [n], b[j + 1..]) by {
      TakeHead(NodeKey, nodes, n, a[i + 1..], b[j + 1..]);
    }
    assert a[..i + 1] == a[..i] + [a[i]] && b[..j + 1] == b[..j] + [b[j]];
    IdsAppend(nodes, n);
    IdsAppend(a[..i], a[i]);
    IdsAppend(b[..j], b[j]);
  }

  lemma MergedNodesSwap(a: seq<Node>, b: seq<Node>, i: nat, j: nat, nodes: seq<Node>)
    requires MergedNodes(a, b, i, j, nodes)
    ensures MergedNodes(b, a, j, i, nodes)
  {
  }

  /** One more node would not fit, and the union has one more. */
  lemma NodesOverflow(a: seq<Node>, b: seq<Node>, i: nat, j: nat, nodes: seq<Node>)
    requires StrictlySortedBy(NodeKey, a) && MergedNodes(a, b, i, j, nodes) && i < |a|
    ensures |Ids(a) + Ids(b)| > |nodes|
  {
    var x := a[i];
    assert x in a && x == a[i..][0];
    forall n | n in nodes
      ensures n.resource != x.resource
    {
      var k :| 0 <= k < |nodes| && nodes[k] == n;
      assert LexBelow(NodeKey(nodes[k]), NodeKey(a[i..][0]));
      LexIrreflexive(NodeKey(x));
    }
    IdsCount(nodes);
    var part := Ids(nodes) + {x.resource};
    assert part <= Ids(a) + Ids(b);
    SubsetCount(part, Ids(a) + Ids(b));
  }

  lemma SubsetCount<T>(a: set<T>, b: set<T>)
    requires a <= b
    ensures |a| <= |b|
  {
    assert b == a + (b - a);
  }

  /** Each position of `from` is translated to the position of the same identity. */
  ghost predicate Translates(from: seq<Node>, nodes: seq<Node>, positions: seq<nat>) {
    && |positions| == |from|
    && forall k | 0 <= k < |from| ::
         positions[k] < |nodes| && nodes[positions[k]].resource == from[k].resource
  }

  method MergeNodes(before: seq<Node>, after: seq<Node>)
    returns (ok: bool, nodes: seq<Node>, beforeMap: seq<nat>, afterMap: seq<nat>)
    requires StrictlySortedBy(NodeKey, before) && StrictlySortedBy(NodeKey, after)
    ensures ok <==> |Ids(before) + Ids(after)| <= MAX_EFFECT_NODES
    ensures ok ==> MergedNodes(before, after, |before|, |after|, nodes)
    ensures ok ==> |nodes| <= MAX_EFFECT_NODES
    ensures ok ==> Translates(before, nodes, beforeMap) && Translates(after, nodes, afterMap)
  {
    hide StrictlySortedBy, MergedNodes, LexBelow, Ids;
    nodes, beforeMap, afterMap := [], [], [];
    var i, j := 0, 0;
    assert MergedNodes(before, after, 0, 0, []) by {
      MergedNodesStart(before, after);
    }
    var order := NextOrder(Head(NodeKey, before, 0), Head(NodeKey, after, 0));
    while order.Some?
      invariant i <= |before| && j <= |after| && |nodes| <= MAX_EFFECT_NODES
      invariant order == NextOrder(Head(NodeKey, before, i), Head(NodeKey, after, j))
      invariant MergedNodes(before, after, i, j, nodes)
      invariant Translates(before[..i], nodes, beforeMap) && Translates(after[..j], nodes, afterMap)
      decreases |before| - i + |after| - j
    {
      if |nodes| == MAX_EFFECT_NODES {
        if i < |before| {
          NodesOverflow(before, after, i, j, nodes);
        } else {
          MergedNodesSwap(before, after, i, j, nodes);
          NodesOverflow(after, before, j, i, nodes);
          assert Ids(before) + Ids(after) == Ids(after) + Ids(before);
        }
        ok := false;
        return;
      }
      match order.value {
      case Less =>
        MergeNodesLess(before, after, i, j, nodes);
        beforeMap := beforeMap + [|nodes|];
        nodes := nodes + [before[i]];
        i := i + 1;
      case Greater =>
        MergedNodesSwap(before, after, i, j, nodes);
        MergeNodesLess(after, before, j, i, nodes);
        MergedNodesSwap(after, before, j + 1, i, nodes + [after[j]]);
        afterMap := afterMap + [|nodes|];
        nodes := nodes + [after[j]];
        j := j + 1;
      case Equal =>
        IdKeyInjective(before[i].resource, after[j].resource);
        var unknown := before[i].knowledge == Unknown || after[j].knowledge == Unknown;
        var node := Node(before[i].resource, if unknown then Unknown else Complete);
        MergeNodesEqual(before, after, i, j, nodes, node);
        beforeMap := beforeMap + [|nodes|];
        afterMap := afterMap + [|nodes|];
        nodes := nodes + [node];
        i, j := i + 1, j + 1;
      }
      order := NextOrder(Head(NodeKey, before, i), Head(NodeKey, after, j));
    }
    assert before[..i] == before && after[..j] == after;
    MergedNodesEnd(before, after, nodes);
    ok := true;
  }

  lemma MergedNodesStart(a: seq<Node>, b: seq<Node>)
    ensures MergedNodes(a, b, 0, 0, [])
  {
  }

  lemma MergedNodesEnd(a: seq<Node>, b: seq<Node>, nodes: seq<Node>)
    requires MergedNodes(a, b, |a|, |b|, nodes)
    ensures StrictlySortedBy(NodeKey, nodes)
    ensures Ids(nodes) == Ids(a) + Ids(b) && UnknownIds(nodes) == UnknownIds(a) + UnknownIds(b)
    ensures |Ids(a) + Ids(b)| == |nodes|
  {
    assert a[..|a|] == a && b[..|b|] == b;
    IdsCount(nodes);
  }

  // ----- Edges -----

  /** The translation keeps lexicographic order, since each map is strictly increasing. */
  lemma TranslationIncreases(from: seq<Node>, nodes: seq<Node>, positions: seq<nat>, x: nat, y: nat)
    requires StrictlySortedBy(NodeKey, from) && StrictlySortedBy(NodeKey, nodes)
    requires Translates(from, nodes, positions) && x < y < |from|
    ensures positions[x] < positions[y]
  {
    assert LexBelow(NodeKey(nodes[positions[x]]), NodeKey(nodes[positions[y]]));
    if positions[y] < positions[x] {
      LexAsymmetric(NodeKey(nodes[positions[y]]), NodeKey(nodes[positions[x]]));
    } else if positions[x] == positions[y] {
      LexIrreflexive(NodeKey(nodes[positions[x]]));
    }
  }

  function Translate(edges: seq<Edge>, positions: seq<nat>): (r: seq<Edge>)
    requires forall e | e in edges :: e.0 < |positions| && e.1 < |positions|
    ensures |r| == |edges|
  {
    seq(|edges|, i requires 0 <= i < |edges| =>
      assert edges[i] in edges;
      (positions[edges[i].0], positions[edges[i].1]))
  }

  lemma EdgeOrder(a: Edge, b: Edge)
    ensures LexBelow(EdgeKey(a), EdgeKey(b)) <==> a.0 < b.0 || (a.0 == b.0 && a.1 < b.1)
  {
    var x, y := [a.1 as int], [b.1 as int];
    assert EdgeKey(a)[1..] == x && EdgeKey(b)[1..] == y;
    assert x[1..] == [] && y[1..] == [];
    assert LexBelow(x, y) <==> a.1 < b.1;
  }

  lemma TranslateSorted(from: seq<Node>, nodes: seq<Node>, positions: seq<nat>, edges: seq<Edge>)
    requires StrictlySortedBy(NodeKey, from) && StrictlySortedBy(NodeKey, nodes)
    requires Translates(from, nodes, positions) && InRange(from, edges)
    requires StrictlySortedBy(EdgeKey, edges)
    ensures StrictlySortedBy(EdgeKey, Translate(edges, positions))
  {
    var moved := Translate(edges, positions);
    forall i, j | 0 <= i < j < |edges|
      ensures LexBelow(EdgeKey(moved[i]), EdgeKey(moved[j]))
    {
      assert edges[i] in edges && edges[j] in edges;
      EdgeOrder(edges[i], edges[j]);
      EdgeOrder(moved[i], moved[j]);
      if edges[i].0 < edges[j].0 {
        TranslationIncreases(from, nodes, positions, edges[i].0, edges[j].0);
      } else {
        TranslationIncreases(from, nodes, positions, edges[i].1, edges[j].1);
      }
    }
  }

  lemma TranslateLinks(from: seq<Node>, nodes: seq<Node>, positions: seq<nat>, edges: seq<Edge>)
    requires Translates(from, nodes, positions) && InRange(from, edges)
    ensures InRange(nodes, Translate(edges, positions))
    ensures Links(nodes, Translate(edges, positions)) == Links(from, edges)
  {
    var moved := Translate(edges, positions);
    forall i | 0 <= i < |edges|
      ensures moved[i].0 < |nodes| && moved[i].1 < |nodes|
      ensures Named(nodes, moved[i]) == Named(from, edges[i])
    {
      assert edges[i] in edges;
    }
    assert InRange(nodes, moved);
    forall l
      ensures l in Links(nodes, moved) <==> l in Links(from, edges)
    {
      if l in Links(nodes, moved) {
        var e :| e in moved && Named(nodes, e) == l;
        var i :| 0 <= i < |moved| && moved[i] == e;
        assert edges[i] in edges;
      }
      if l in Links(from, edges) {
        var e :| e in edges && Named(from, e) == l;
        var i :| 0 <= i < |edges| && edges[i] == e;
        assert moved[i] in moved;
      }
    }
  }

  ghost function Members<T>(s: seq<T>): set<T> {
    set x | x in s
  }

  lemma MembersAppend<T>(s: seq<T>, x: T)
    ensures Members(s + [x]) == Members(s) + {x}
  {
  }

  ghost predicate MergedEdges(a: seq<Edge>, b: seq<Edge>, i: nat, j: nat, edges: seq<Edge>) {
    && i <= |a| && j <= |b|
    && StrictlySortedBy(EdgeKey, edges)
    && Members(edges) == Members(a[..i]) + Members(b[..j])
    && Ahead(EdgeKey, edges, a[i..]) && Ahead(EdgeKey, edges, b[j..])
  }

  lemma MergeEdgesLess(a: seq<Edge>, b: seq<Edge>, i: nat, j: nat, edges: seq<Edge>)
    requires StrictlySortedBy(EdgeKey, a) && StrictlySortedBy(EdgeKey, b)
    requires MergedEdges(a, b, i, j, edges)
    requires i < |a| && (j < |b| ==> LexBelow(EdgeKey(a[i]), EdgeKey(b[j])))
    ensures MergedEdges(a, b, i + 1, j, edges + [a[i]])
  {
    SuffixSorted(EdgeKey, a, i);
    SuffixSorted(EdgeKey, b, j);
    TakeHead(EdgeKey, edges, a[i], a[i + 1..], b[j..]);
    assert a[..i + 1] == a[..i] + [a[i]];
    MembersAppend(edges, a[i]);
    MembersAppend(a[..i], a[i]);
  }

  lemma MergeEdgesEqual(a: seq<Edge>, b: seq<Edge>, i: nat, j: nat, edges: seq<Edge>)
    requires StrictlySortedBy(EdgeKey, a) && StrictlySortedBy(EdgeKey, b)
    requires MergedEdges(a, b, i, j, edges)
    requires i < |a| && j < |b| && a[i] == b[j]
    ensures MergedEdges(a, b, i + 1, j + 1, edges + [a[i]])
  {
    SuffixSorted(EdgeKey, a, i);
    SuffixSorted(EdgeKey, b, j);
    DropHead(EdgeKey, edges, b, j);
    hide LexBelow, StrictlySortedBy, Ahead;
    TakeHead(EdgeKey, edges, a[i], a[i + 1..], b[j + 1..]);
    assert a[..i + 1] == a[..i] + [a[i]] && b[..j + 1] == b[..j] + [b[j]];
    MembersAppend(edges, a[i]);
    MembersAppend(a[..i], a[i]);
    MembersAppend(b[..j], b[j]);
  }

  lemma MergedEdgesSwap(a: seq<Edge>, b: seq<Edge>, i: nat, j: nat, edges: seq<Edge>)
    requires MergedEdges(a, b, i, j, edges)
    ensures MergedEdges(b, a, j, i, edges)
  {
  }

  lemma {:induction false} MembersCount(edges: seq<Edge>)
    requires StrictlySortedBy(EdgeKey, edges)
    ensures |Members(edges)| == |edges|
  {
    if edges != [] {
      var init, last := edges[..|edges| - 1], edges[|edges| - 1];
      StrictlySortedDistinct(EdgeKey, edges);
      assert forall i | 0 <= i < |init| :: EdgeKey(edges[i]) != EdgeKey(edges[|edges| - 1]);
      assert last !in init;
      MembersCount(init);
      assert edges == init + [last];
      MembersAppend(init, last);
    }
  }

  lemma EdgesOverflow(a: seq<Edge>, b: seq<Edge>, i: nat, j: nat, edges: seq<Edge>)
    requires StrictlySortedBy(EdgeKey, a) && MergedEdges(a, b, i, j, edges) && i < |a|
    ensures |Members(a) + Members(b)| > |edges|
  {
    var x := a[i];
    assert x in a && x == a[i..][0];
    if x in edges {
      var k :| 0 <= k < |edges| && edges[k] == x;
      assert LexBelow(EdgeKey(edges[k]), EdgeKey(a[i..][0]));
      LexIrreflexive(EdgeKey(x));
    }
    MembersCount(edges);
    assert Members(edges) + {x} <= Members(a) + Members(b);
    SubsetCount(Members(edges) + {x}, Members(a) + Members(b));
  }

  lemma MergedEdgesStart(a: seq<Edge>, b: seq<Edge>)
    ensures MergedEdges(a, b, 0, 0, [])
  {
  }

  lemma MergedEdgesEnd(a: seq<Edge>, b: seq<Edge>, edges: seq<Edge>)
    requires MergedEdges(a, b, |a|, |b|, edges)
    ensures StrictlySortedBy(EdgeKey, edges)
    ensures Members(edges) == Members(a) + Members(b)
    ensures |Members(a) + Members(b)| == |edges|
  {
    assert a[..|a|] == a && b[..|b|] == b;
    MembersCount(edges);
  }

  method MergeEdges(left: seq<Edge>, right: seq<Edge>) returns (ok: bool, edges: seq<Edge>)
    requires StrictlySortedBy(EdgeKey, left) && StrictlySortedBy(EdgeKey, right)
    ensures ok <==> |Members(left) + Members(right)| <= MAX_EFFECT_EDGES
    ensures ok ==> StrictlySortedBy(EdgeKey, edges) && |edges| <= MAX_EFFECT_EDGES
    ensures ok ==> Members(edges) == Members(left) + Members(right)
  {
    hide StrictlySortedBy, MergedEdges, LexBelow, Members;
    edges := [];
    var i, j := 0, 0;
    MergedEdgesStart(left, right);
    var order := NextOrder(Head(EdgeKey, left, 0), Head(EdgeKey, right, 0));
    while order.Some?
      invariant i <= |left| && j <= |right| && |edges| <= MAX_EFFECT_EDGES
      invariant order == NextOrder(Head(EdgeKey, left, i), Head(EdgeKey, right, j))
      invariant MergedEdges(left, right, i, j, edges)
      decreases |left| - i + |right| - j
    {
      if |edges| == MAX_EFFECT_EDGES {
        if i < |left| {
          EdgesOverflow(left, right, i, j, edges);
        } else {
          MergedEdgesSwap(left, right, i, j, edges);
          EdgesOverflow(right, left, j, i, edges);
          assert Members(left) + Members(right) == Members(right) + Members(left);
        }
        ok := false;
        return;
      }
      match order.value {
      case Less =>
        MergeEdgesLess(left, right, i, j, edges);
        edges := edges + [left[i]];
        i := i + 1;
      case Greater =>
        MergedEdgesSwap(left, right, i, j, edges);
        MergeEdgesLess(right, left, j, i, edges);
        MergedEdgesSwap(right, left, j + 1, i, edges + [right[j]]);
        edges := edges + [right[j]];
        j := j + 1;
      case Equal =>
        assert EdgeKey(left[i])[0] == EdgeKey(right[j])[0] && EdgeKey(left[i])[1] == EdgeKey(right[j])[1];
        MergeEdgesEqual(left, right, i, j, edges);
        edges := edges + [left[i]];
        i, j := i + 1, j + 1;
      }
      order := NextOrder(Head(EdgeKey, left, i), Head(EdgeKey, right, j));
    }
    MergedEdgesEnd(left, right, edges);
    ok := true;
  }

  // ----- The combined graph -----

  ghost function AllIds(before: Graph, after: Graph): set<ResourceId> {
    Ids(before.nodes) + Ids(after.nodes)
  }

  ghost function AllLinks(before: Graph, after: Graph): set<(ResourceId, ResourceId)>
    requires ValidGraph(before) && ValidGraph(after)
  {
    Links(before.nodes, before.edges) + Links(after.nodes, after.edges)
  }

  ghost function AllUnknown(before: Graph, after: Graph): set<ResourceId> {
    UnknownIds(before.nodes) + UnknownIds(after.nodes)
  }

  lemma LinksCount(nodes: seq<Node>, edges: seq<Edge>, s: set<Edge>)
    requires StrictlySortedBy(NodeKey, nodes) && InRange(nodes, edges) && s == Members(edges)
    ensures |Links(nodes, edges)| == |s|
  {
    forall a, b | a in s && b in s && Named(nodes, a) == Named(nodes, b)
      ensures a == b
    {
      SamePosition(nodes, a.0, b.0);
      SamePosition(nodes, a.1, b.1);
    }
    if edges == [] {
      assert Links(nodes, edges) == {} && s == {};
    } else {
      assert edges[0] in edges;
      LinksCountWith(nodes, edges, s);
    }
  }

  lemma LinksCountWith(nodes: seq<Node>, edges: seq<Edge>, s: set<Edge>)
    requires nodes != [] && InRange(nodes, edges) && s == Members(edges)
    requires forall a, b | a in s && b in s && Named(nodes, a) == Named(nodes, b) :: a == b
    ensures |Links(nodes, edges)| == |s|
  {
    var d := nodes[0].resource;
    var name := (e: Edge) => if e.0 < |nodes| && e.1 < |nodes| then Named(nodes, e) else (d, d);
    assert Links(nodes, edges) == set e | e in s :: name(e);
    SetImageCount(s, name, Links(nodes, edges));
  }

  /** The union of two validated graphs. It is again strictly sorted, says exactly what
      the two say together, and is refused exactly when a union exceeds its limit. */
  method CombinedGraph(before: Graph, after: Graph) returns (r: Result<Graph, EffectError>)
    requires ValidGraph(before) && ValidGraph(after)
    ensures r.Err? ==> r.error == LimitExceeded
    ensures r.Ok? <==> |AllIds(before, after)| <= MAX_EFFECT_NODES && |AllLinks(before, after)| <= MAX_EFFECT_EDGES
    ensures r.Ok? ==>
              && ValidGraph(r.value)
              && Ids(r.value.nodes) == AllIds(before, after)
              && UnknownIds(r.value.nodes) == AllUnknown(before, after)
              && Links(r.value.nodes, r.value.edges) == AllLinks(before, after)
  {
    var ok, nodes, beforeMap, afterMap := MergeNodes(before.nodes, after.nodes);
    if !ok {
      return Err(LimitExceeded);
    }
    MergedNodesEnd(before.nodes, after.nodes, nodes);
    hide StrictlySortedBy;
    var left, right := Translate(before.edges, beforeMap), Translate(after.edges, afterMap);
    TranslateSorted(before.nodes, nodes, beforeMap, before.edges);
    TranslateSorted(after.nodes, nodes, afterMap, after.edges);
    TranslateLinks(before.nodes, nodes, beforeMap, before.edges);
    TranslateLinks(after.nodes, nodes, afterMap, after.edges);
    assert InRange(nodes, left + right) && Links(nodes, left + right) == AllLinks(before, after);
    assert Members(left + right) == Members(left) + Members(right);
    LinksCount(nodes, left + right, Members(left) + Members(right));
    var fits, edges := MergeEdges(left, right);
    if !fits {
      return Err(LimitExceeded);
    }
    forall e
      ensures e in edges <==> e in left + right
    {
      assert e in edges <==> e in Members(edges);
      assert e in left + right <==> e in Members(left + right);
    }
    LinksOfSame(nodes, edges, left + right);
    return Ok(Graph(nodes, edges));
  }
}
