/** Reachability over the union of two influence graphs, computed by an explicit-stack
    search over a compact adjacency, and what its verdict means. */
module EffectAnalysis {
  import opened Common
  import opened EffectGraph
  import opened EffectMerge

  type LinkSet = set<(ResourceId, ResourceId)>

  // ----- Meaning of the verdict -----

  /** `path` starts at a root, follows links, and ends at `x`. */
  ghost predicate IsPath(links: LinkSet, roots: set<ResourceId>, path: seq<ResourceId>, x: ResourceId) {
    && path != [] && path[0] in roots && path[|path| - 1] == x
    && forall i | 0 <= i < |path| - 1 :: (path[i], path[i + 1]) in links
  }

  ghost predicate Reaches(links: LinkSet, roots: set<ResourceId>, x: ResourceId) {
    exists path :: IsPath(links, roots, path, x)
  }

  ghost function ReachSet(ids: set<ResourceId>, links: LinkSet, roots: set<ResourceId>): set<ResourceId> {
    set x | x in ids && Reaches(links, roots, x)
  }

  ghost predicate HitsAny(ids: seq<ResourceId>, links: LinkSet, roots: set<ResourceId>) {
    exists p | p in ids :: Reaches(links, roots, p)
  }

  /** What is decided about a combined graph once all names are known. */
  ghost function Verdict(ids: set<ResourceId>, links: LinkSet, unknown: set<ResourceId>,
                         protected: seq<ResourceId>, roots: set<ResourceId>): Result<nat, EffectError>
  {
    if HitsAny(protected, links, roots) then Err(ProtectedImpact)
    else if exists x | x in unknown :: Reaches(links, roots, x) then Err(IncompleteEffects)
    else Ok(|ReachSet(ids, links, roots)|)
  }

  /** The whole analysis as a function of what the two graphs say. */
  ghost function Assessment(before: Graph, after: Graph, protected: seq<ResourceId>,
                            scope: Option<seq<ResourceId>>): Result<nat, EffectError>
    requires ValidGraph(before) && ValidGraph(after)
  {
    if |AllIds(before, after)| > MAX_EFFECT_NODES || |AllLinks(before, after)| > MAX_EFFECT_EDGES
    then Err(LimitExceeded)
    else if exists p | p in protected :: p !in Ids(before.nodes) || p !in Ids(after.nodes)
    then Err(MissingProtectedResource)
    else if scope.None? then Err(GlobalEffects)
    else if exists r | r in scope.value :: r !in AllIds(before, after) then Err(MissingRoot)
    else Verdict(AllIds(before, after), AllLinks(before, after), AllUnknown(before, after),
                 protected, Members(scope.value))
  }

  /** Swapping the two graphs changes nothing. */
  lemma SwapInvariant(before: Graph, after: Graph, protected: seq<ResourceId>, scope: Option<seq<ResourceId>>)
    requires ValidGraph(before) && ValidGraph(after)
    ensures Assessment(before, after, protected, scope) == Assessment(after, before, protected, scope)
  {
    hide Verdict, StrictlySortedBy, Ids, Links, UnknownIds;
    assert AllIds(before, after) == AllIds(after, before);
    assert AllLinks(before, after) == AllLinks(after, before);
    assert AllUnknown(before, after) == AllUnknown(after, before);
  }

  lemma ReachesMonotone(small: LinkSet, large: LinkSet, roots: set<ResourceId>, x: ResourceId)
    requires small <= large && Reaches(small, roots, x)
    ensures Reaches(large, roots, x)
  {
    var path :| IsPath(small, roots, path, x);
    assert IsPath(large, roots, path, x);
  }

  /** Adding links to a graph never turns a protected impact into anything else, except
      a refusal because the union became too large. */
  lemma MoreLinksKeepImpact(before: Graph, after: Graph, more: Graph,
                            protected: seq<ResourceId>, scope: Option<seq<ResourceId>>)
    requires ValidGraph(before) && ValidGraph(after) && ValidGraph(more)
    requires more.nodes == after.nodes
    requires Links(after.nodes, after.edges) <= Links(more.nodes, more.edges)
    requires Assessment(before, after, protected, scope) == Err(ProtectedImpact)
    ensures Assessment(before, more, protected, scope) in {Err(ProtectedImpact), Err(LimitExceeded)}
  {
    hide StrictlySortedBy, Ids, UnknownIds, ReachSet;
    var roots := Members(scope.value);
    var p :| p in protected && Reaches(AllLinks(before, after), roots, p);
    ReachesMonotone(AllLinks(before, after), AllLinks(before, more), roots, p);
  }

  /** More generally, more links and more doubt only move the verdict towards refusal:
      an Ok answer on the larger input is an Ok answer, no larger, on the smaller one. */
  lemma OkIsAntitone(ids: set<ResourceId>, small: LinkSet, large: LinkSet, unknown: set<ResourceId>,
                     doubted: set<ResourceId>, protected: seq<ResourceId>, roots: set<ResourceId>)
    requires small <= large && unknown <= doubted
    requires Verdict(ids, large, doubted, protected, roots).Ok?
    ensures Verdict(ids, small, unknown, protected, roots).Ok?
    ensures Verdict(ids, small, unknown, protected, roots).value
            <= Verdict(ids, large, doubted, protected, roots).value
  {
    forall x | Reaches(small, roots, x)
      ensures Reaches(large, roots, x)
    {
      ReachesMonotone(small, large, roots, x);
    }
    SubsetCount(ReachSet(ids, small, roots), ReachSet(ids, large, roots));
  }

  lemma RootReaches(links: LinkSet, roots: set<ResourceId>, x: ResourceId)
    requires x in roots
    ensures Reaches(links, roots, x)
  {
    assert IsPath(links, roots, [x], x);
  }

  lemma StepReaches(links: LinkSet, roots: set<ResourceId>, x: ResourceId, y: ResourceId)
    requires Reaches(links, roots, x) && (x, y) in links
    ensures Reaches(links, roots, y)
  {
    var path :| IsPath(links, roots, path, x);
    assert IsPath(links, roots, path + [y], y);
  }

  /** A set with all roots that is closed under the links contains everything reachable. */
  lemma {:induction false} ClosedContains(links: LinkSet, roots: set<ResourceId>, closed: set<ResourceId>,
                                          path: seq<ResourceId>, x: ResourceId)
    requires roots <= closed && forall a, b | (a, b) in links && a in closed :: b in closed
    requires IsPath(links, roots, path, x)
    ensures x in closed
    decreases |path|
  {
    if |path| > 1 {
      var init := path[..|path| - 1];
      ClosedContains(links, roots, closed, init, init[|init| - 1]);
      assert (path[|path| - 2], path[|path| - 1]) in links;
    }
  }

  // ----- Compact adjacency -----

  /** How many edges leave a node below `n`. */
  function CountBelow(edges: seq<Edge>, n: nat): (c: nat)
    ensures c <= |edges|
  {
    if edges == [] then 0
    else CountBelow(edges[..|edges| - 1], n) + if edges[|edges| - 1].0 < n then 1 else 0
  }

  function CountFrom(edges: seq<Edge>, n: nat): nat {
    if edges == [] then 0
    else CountFrom(edges[..|edges| - 1], n) + if edges[|edges| - 1].0 == n then 1 else 0
  }

  lemma {:induction false} CountStep(edges: seq<Edge>, n: nat)
    ensures CountBelow(edges, n + 1) == CountBelow(edges, n) + CountFrom(edges, n)
    ensures CountBelow(edges, 0) == 0
  {
    if edges != [] {
      CountStep(edges[..|edges| - 1], n);
    }
  }

  /** In a sorted edge list, the edges leaving nodes below `n` are a prefix. */
  lemma {:induction false} CountSplits(edges: seq<Edge>, n: nat)
    requires forall i, j | 0 <= i < j < |edges| :: edges[i].0 <= edges[j].0
    ensures forall k | 0 <= k < |edges| :: edges[k].0 < n <==> k < CountBelow(edges, n)
  {
    if edges != [] {
      var init := edges[..|edges| - 1];
      CountSplits(init, n);
      if edges[|edges| - 1].0 < n && |init| > 0 {
        assert init[|init| - 1].0 < n;
      }
    }
  }

  lemma EdgesAscend(edges: seq<Edge>)
    requires StrictlySortedBy(EdgeKey, edges)
    ensures forall i, j | 0 <= i < j < |edges| :: edges[i].0 <= edges[j].0
  {
    forall i, j | 0 <= i < j < |edges|
      ensures edges[i].0 <= edges[j].0
    {
      EdgeOrder(edges[i], edges[j]);
    }
  }

  /** `offsets` slices the targets: the successors of `n` are exactly one slice. */
  ghost predicate Adjacency(nodeCount: nat, edges: seq<Edge>, offsets: seq<nat>) {
    && |offsets| == nodeCount + 1
    && (forall m, n | 0 <= m <= n <= nodeCount :: offsets[m] <= offsets[n] <= |edges|)
    && forall n, k | 0 <= n < nodeCount && 0 <= k < |edges| ::
         edges[k].0 == n <==> offsets[n] <= k < offsets[n + 1]
  }

  lemma OffsetsSlice(nodeCount: nat, edges: seq<Edge>, offsets: seq<nat>)
    requires StrictlySortedBy(EdgeKey, edges)
    requires |offsets| == nodeCount + 1 && forall n | 0 <= n <= nodeCount :: offsets[n] == CountBelow(edges, n)
    ensures Adjacency(nodeCount, edges, offsets)
  {
    EdgesAscend(edges);
    forall m, n | 0 <= m <= n <= nodeCount
      ensures offsets[m] <= offsets[n] <= |edges|
    {
      CountMonotone(edges, m, n);
    }
    forall n, k | 0 <= n < nodeCount && 0 <= k < |edges|
      ensures edges[k].0 == n <==> offsets[n] <= k < offsets[n + 1]
    {
      CountSplits(edges, n);
      CountSplits(edges, n + 1);
    }
  }

  lemma {:induction false} CountMonotone(edges: seq<Edge>, m: nat, n: nat)
    requires m <= n
    ensures CountBelow(edges, m) <= CountBelow(edges, n)
  {
    if edges != [] {
      CountMonotone(edges[..|edges| - 1], m, n);
    }
  }

  /** N+1 offsets and E targets: count per source, then running sums. */
  method BuildAdjacency(nodeCount: nat, edges: seq<Edge>) returns (offsets: array<nat>, targets: seq<nat>)
    requires StrictlySortedBy(EdgeKey, edges)
    requires forall e | e in edges :: e.0 < nodeCount && e.1 < nodeCount
    ensures fresh(offsets) && Adjacency(nodeCount, edges, offsets[..])
    ensures |targets| == |edges| && forall k | 0 <= k < |edges| :: targets[k] == edges[k].1
  {
    hide StrictlySortedBy;
    offsets := new nat[nodeCount + 1](_ => 0);
    targets := [];
    var k := 0;
    while k < |edges|
      invariant 0 <= k <= |edges|
      invariant |targets| == k && forall i | 0 <= i < k :: targets[i] == edges[i].1
      invariant offsets[0] == 0
      invariant forall n | 0 <= n < nodeCount :: offsets[n + 1] == CountFrom(edges[..k], n)
    {
      assert edges[k] in edges;
      assert edges[..k + 1][..k] == edges[..k];
      offsets[edges[k].0 + 1] := offsets[edges[k].0 + 1] + 1;
      targets := targets + [edges[k].1];
      k := k + 1;
    }
    assert edges[..k] == edges;
    CountStep(edges, 0);
    var i := 1;
    while i < offsets.Length
      invariant 1 <= i <= offsets.Length
      invariant forall n | 0 <= n < i :: offsets[n] == CountBelow(edges, n)
      invariant forall n | i <= n + 1 <= nodeCount :: offsets[n + 1] == CountFrom(edges, n)
    {
      CountStep(edges, i - 1);
      offsets[i] := offsets[i] + offsets[i - 1];
      i := i + 1;
    }
    OffsetsSlice(nodeCount, edges, offsets[..]);
  }

  // ----- The search -----

  /** Identities of a set of positions. */
  ghost function NamesOf(nodes: seq<Node>, positions: set<nat>): set<ResourceId>
    requires forall n | n in positions :: n < |nodes|
  {
    set n | n in positions :: nodes[n].resource
  }

  ghost predicate Distinct(s: seq<nat>) {
    forall i, j | 0 <= i < j < |s| :: s[i] != s[j]
  }

  /** The state of the search: `done` was popped, `stack` waits, both were marked. */
  ghost predicate Searching(g: Graph, roots: set<ResourceId>, visited: seq<bool>,
                            stack: seq<nat>, done: set<nat>)
  {
    && ValidGraph(g)
    && |visited| == |g.nodes|
    && Distinct(stack)
    && (forall n | n in stack :: n < |g.nodes| && n !in done)
    && (forall n | n in done :: n < |g.nodes|)
    && (forall n | 0 <= n < |g.nodes| :: visited[n] <==> n in stack || n in done)
    && (forall n | 0 <= n < |g.nodes| && visited[n] ::
          Reaches(Links(g.nodes, g.edges), roots, g.nodes[n].resource))
    && (forall r | r in roots :: exists n | 0 <= n < |g.nodes| :: visited[n] && g.nodes[n].resource == r)
  }

  /** Every link leaving a popped position leads to a marked one. */
  ghost predicate Expanded(g: Graph, visited: seq<bool>, done: set<nat>)
    requires |visited| == |g.nodes| && InRange(g.nodes, g.edges)
  {
    forall e | e in g.edges && e.0 in done :: visited[e.1]
  }

  /** With an empty stack, the popped identities are closed under the links. */
  lemma DoneIsClosed(g: Graph, visited: seq<bool>, done: set<nat>)
    requires ValidGraph(g) && |visited| == |g.nodes| && Expanded(g, visited, done)
    requires forall n | n in done :: n < |g.nodes|
    requires forall n | 0 <= n < |g.nodes| && visited[n] :: n in done
    ensures
      var names := NamesOf(g.nodes, done);
      forall a, b | (a, b) in Links(g.nodes, g.edges) && a in names :: b in names
  {
    hide StrictlySortedBy;
    var names := NamesOf(g.nodes, done);
    forall a, b | (a, b) in Links(g.nodes, g.edges) && a in names
      ensures b in names
    {
      var e :| e in g.edges && Named(g.nodes, e) == (a, b);
      var n :| n in done && g.nodes[n].resource == a;
      SamePosition(g.nodes, n, e.0);
      assert visited[e.1] && e.1 in done;
    }
  }

  /** When the stack is empty, the popped positions are exactly the reachable ones. */
  lemma SearchFinds(g: Graph, roots: set<ResourceId>, visited: seq<bool>, done: set<nat>)
    requires Searching(g, roots, visited, [], done) && Expanded(g, visited, done)
    ensures NamesOf(g.nodes, done) == ReachSet(Ids(g.nodes), Links(g.nodes, g.edges), roots)
    ensures |done| == |NamesOf(g.nodes, done)|
  {
    hide StrictlySortedBy, IsPath, Links;
    var links, names := Links(g.nodes, g.edges), NamesOf(g.nodes, done);
    DoneIsClosed(g, visited, done);
    hide Expanded;
    assert roots <= names by {
      forall r | r in roots
        ensures r in names
      {
        var n :| 0 <= n < |g.nodes| && visited[n] && g.nodes[n].resource == r;
        assert n in done;
      }
    }
    forall x
      ensures x in names <==> x in ReachSet(Ids(g.nodes), links, roots)
    {
      if x in names {
        var n :| n in done && g.nodes[n].resource == x;
        assert visited[n] && g.nodes[n] in g.nodes;
      }
      if Reaches(links, roots, x) {
        var path :| IsPath(links, roots, path, x);
        ClosedContains(links, roots, names, path, x);
      }
    }
    NamesCount(g, done);
  }

  lemma NamesCount(g: Graph, done: set<nat>)
    requires ValidGraph(g) && forall n | n in done :: n < |g.nodes|
    ensures |NamesOf(g.nodes, done)| == |done|
  {
    if done == {} {
      assert NamesOf(g.nodes, done) == {};
    } else {
      var some :| some in done;
      var name := (n: nat) => if n < |g.nodes| then g.nodes[n].resource else g.nodes[some].resource;
      forall a, b | a in done && b in done && name(a) == name(b)
        ensures a == b
      {
        SamePosition(g.nodes, a, b);
      }
      assert NamesOf(g.nodes, done) == set n | n in done :: name(n);
      SetImageCount(done, name, NamesOf(g.nodes, done));
    }
  }
}
