/** The analysis itself: marking roots, the explicit-stack search, and the proof that its
    answer is `EffectAnalysis.Assessment`. */
module EffectSearch {
  import opened Common
  import opened EffectGraph
  import opened EffectMerge
  import opened EffectAnalysis

  lemma StartSearching(g: Graph, visited: seq<bool>)
    requires ValidGraph(g) && |visited| == |g.nodes| && forall n | 0 <= n < |visited| :: !visited[n]
    ensures Searching(g, {}, visited, [], {})
  {
  }

  /** A new root that is not on the stack yet can be marked and pushed. */
  lemma PushRoot(g: Graph, roots: set<ResourceId>, visited: seq<bool>, stack: seq<nat>, r: ResourceId, n: nat)
    requires Searching(g, roots, visited, stack, {})
    requires n < |g.nodes| && g.nodes[n].resource == r && n !in stack
    ensures Searching(g, roots + {r}, visited[n := true], stack + [n], {})
  {
    hide StrictlySortedBy, LexBelow, Links, IsPath;
    var links, more, marks := Links(g.nodes, g.edges), roots + {r}, visited[n := true];
    forall m | 0 <= m < |g.nodes| && marks[m]
      ensures Reaches(links, more, g.nodes[m].resource)
    {
      if m == n {
        RootReaches(links, more, r);
      } else {
        MoreRoots(links, roots, more, g.nodes[m].resource);
      }
    }
    forall x | x in more
      ensures exists m | 0 <= m < |g.nodes| :: marks[m] && g.nodes[m].resource == x
    {
      if x == r {
        assert marks[n];
      } else {
        var m :| 0 <= m < |g.nodes| && visited[m] && g.nodes[m].resource == x;
        assert marks[m];
      }
    }
  }

  lemma MoreRoots(links: LinkSet, roots: set<ResourceId>, more: set<ResourceId>, x: ResourceId)
    requires roots <= more && Reaches(links, roots, x)
    ensures Reaches(links, more, x)
  {
    var path :| IsPath(links, roots, path, x);
    assert IsPath(links, more, path, x);
  }

  lemma PopStack(g: Graph, roots: set<ResourceId>, visited: seq<bool>, stack: seq<nat>, done: set<nat>)
    requires Searching(g, roots, visited, stack, done) && stack != []
    ensures
      var top := stack[|stack| - 1];
      Searching(g, roots, visited, stack[..|stack| - 1], done + {top}) && top < |g.nodes| && top !in done
  {
    hide StrictlySortedBy, LexBelow, Links, Reaches;
    var top, rest := stack[|stack| - 1], stack[..|stack| - 1];
    assert stack == rest + [top];
    assert top in stack && top !in rest;
    assert forall n :: n in stack <==> n in rest || n == top;
  }

  lemma PushLink(g: Graph, roots: set<ResourceId>, visited: seq<bool>, stack: seq<nat>, done: set<nat>, e: Edge)
    requires Searching(g, roots, visited, stack, done)
    requires e in g.edges && e.0 in done && !visited[e.1]
    ensures Searching(g, roots, visited[e.1 := true], stack + [e.1], done)
  {
    hide StrictlySortedBy, LexBelow, Reaches;
    var links, marks := Links(g.nodes, g.edges), visited[e.1 := true];
    assert Named(g.nodes, e) in links;
    assert visited[e.0];
    StepReaches(links, roots, g.nodes[e.0].resource, g.nodes[e.1].resource);
    forall x | x in roots
      ensures exists m | 0 <= m < |g.nodes| :: marks[m] && g.nodes[m].resource == x
    {
      var m :| 0 <= m < |g.nodes| && visited[m] && g.nodes[m].resource == x;
      assert marks[m];
    }
  }

  lemma NotInPrefix(ids: seq<ResourceId>, k: nat)
    requires StrictlySortedBy(IdKey, ids) && k < |ids|
    ensures ids[k] !in ids[..k]
  {
    StrictlySortedDistinct(IdKey, ids);
    forall i | 0 <= i < k
      ensures ids[i] != ids[k]
    {
      assert IdKey(ids[i]) != IdKey(ids[k]);
    }
  }

  method MarkRoots(g: Graph, roots: seq<ResourceId>, visited: array<bool>) returns (found: bool, stack: seq<nat>)
    requires ValidGraph(g) && StrictlySortedBy(IdKey, roots)
    requires visited.Length == |g.nodes| && forall n | 0 <= n < visited.Length :: !visited[n]
    modifies visited
    ensures found <==> forall r | r in roots :: r in Ids(g.nodes)
    ensures found ==> Searching(g, Members(roots), visited[..], stack, {})
  {
    hide StrictlySortedBy, LexBelow, Searching, Ids;
    stack := [];
    var k := 0;
    StartSearching(g, visited[..]);
    assert Members(roots[..0]) == {};
    while k < |roots|
      invariant 0 <= k <= |roots|
      invariant forall r | r in roots[..k] :: r in Ids(g.nodes)
      invariant Searching(g, Members(roots[..k]), visited[..], stack, {})
      invariant forall n | n in stack :: n < |g.nodes| && g.nodes[n].resource in roots[..k]
    {
      var node := IndexOf(g.nodes, roots[k]);
      if node.None? {
        assert roots[k] in roots;
        return false, [];
      }
      NotInPrefix(roots, k);
      assert node.value !in stack;
      PushRoot(g, Members(roots[..k]), visited[..], stack, roots[k], node.value);
      assert roots[..k + 1] == roots[..k] + [roots[k]];
      MembersAppend(roots[..k], roots[k]);
      ghost var before := visited[..];
      visited[node.value] := true;
      assert visited[..] == before[node.value := true];
      stack := stack + [node.value];
      k := k + 1;
    }
    assert roots[..k] == roots;
    found := true;
  }

  /** Every link leaving a popped position other than `node`, and every one of the first
      `k` links that leaves `node`, leads to a marked position. */
  ghost predicate Expanding(g: Graph, visited: seq<bool>, done: set<nat>, node: nat, k: nat)
    requires |visited| == |g.nodes| && InRange(g.nodes, g.edges)
  {
    forall i | 0 <= i < |g.edges| && g.edges[i].0 in done && (g.edges[i].0 != node || i < k) ::
      g.edges[i] in g.edges && visited[g.edges[i].1]
  }

  /** Marks and pushes the unmarked successors of the position just popped. */
  method PushSuccessors(g: Graph, offsets: array<nat>, targets: seq<nat>, node: nat, visited: array<bool>,
                        stack: seq<nat>, ghost roots: set<ResourceId>, ghost done: set<nat>)
    returns (r: seq<nat>)
    requires visited.Length == |g.nodes|
    requires Searching(g, roots, visited[..], stack, done) && node in done
    requires Expanded(g, visited[..], done - {node})
    requires Adjacency(|g.nodes|, g.edges, offsets[..])
    requires |targets| == |g.edges| && forall k | 0 <= k < |g.edges| :: targets[k] == g.edges[k].1
    modifies visited
    ensures Searching(g, roots, visited[..], r, done) && Expanded(g, visited[..], done)
  {
    hide StrictlySortedBy, LexBelow, Links, Reaches;
    r := stack;
    var k := offsets[node];
    assert offsets[..][node] == offsets[node] && offsets[..][node + 1] == offsets[node + 1];
    assert Expanding(g, visited[..], done, node, k);
    hide Searching;
    while k < offsets[node + 1]
      invariant offsets[node] <= k <= offsets[node + 1] <= |g.edges|
      invariant Searching(g, roots, visited[..], r, done)
      invariant Expanding(g, visited[..], done, node, k)
    {
      var dependent := targets[k];
      assert g.edges[k].0 == node && g.edges[k] in g.edges;
      if !visited[dependent] {
        PushLink(g, roots, visited[..], r, done, g.edges[k]);
        ghost var before := visited[..];
        visited[dependent] := true;
        assert visited[..] == before[dependent := true];
        r := r + [dependent];
      }
      k := k + 1;
    }
  }

  /** What the search reports about the positions it popped. */
  ghost predicate Reported(g: Graph, protected: seq<ResourceId>, done: set<nat>,
                           affected: nat, hit: bool, incomplete: bool)
    requires forall n | n in done :: n < |g.nodes|
  {
    && affected == |done|
    && (hit <==> exists n | n in done :: g.nodes[n].resource in protected)
    && (incomplete <==> exists n | n in done :: g.nodes[n].knowledge == Unknown)
  }

  lemma ReportStep(g: Graph, protected: seq<ResourceId>, done: set<nat>, node: nat,
                   affected: nat, hit: bool, incomplete: bool)
    requires InNodes(g, done) && node < |g.nodes| && node !in done
    requires Reported(g, protected, done, affected, hit, incomplete)
    ensures Reported(g, protected, done + {node}, affected + 1, hit || g.nodes[node].resource in protected,
                     incomplete || g.nodes[node].knowledge == Unknown)
  {
    var popped := done + {node};
    assert node in popped && forall n | n in done :: n in popped;
  }

  /** The search loop: pop, count, test the flags, push the unmarked successors. */
  method Search(g: Graph, offsets: array<nat>, targets: seq<nat>, flags: array<bool>, visited: array<bool>,
                start: seq<nat>, protected: seq<ResourceId>, ghost roots: set<ResourceId>)
    returns (affected: nat, hit: bool, incomplete: bool, ghost done: set<nat>)
    requires visited.Length == flags.Length == |g.nodes| && visited != flags
    requires Searching(g, roots, visited[..], start, {})
    requires Adjacency(|g.nodes|, g.edges, offsets[..])
    requires |targets| == |g.edges| && forall k | 0 <= k < |g.edges| :: targets[k] == g.edges[k].1
    requires forall n | 0 <= n < |g.nodes| :: flags[n] <==> g.nodes[n].resource in protected
    modifies visited
    ensures Searching(g, roots, visited[..], [], done) && Expanded(g, visited[..], done)
    ensures Reported(g, protected, done, affected, hit, incomplete)
  {
    var stack := start;
    affected, hit, incomplete, done := 0, false, false, {};
    assert InRange(g.nodes, g.edges);
    assert Expanded(g, visited[..], done) && Reported(g, protected, done, affected, hit, incomplete);
    hide StrictlySortedBy, LexBelow, Links, Reaches, Adjacency, Searching, Expanded, InRange, Reported;
    while stack != []
      invariant Searching(g, roots, visited[..], stack, done) && InNodes(g, done)
      invariant InRange(g.nodes, g.edges) && Expanded(g, visited[..], done)
      invariant Reported(g, protected, done, affected, hit, incomplete)
      decreases |g.nodes| - |done|
    {
      var node := stack[|stack| - 1];
      PopStack(g, roots, visited[..], stack, done);
      ghost var popped := done + {node};
      PositionsFit(|g.nodes|, popped);
      assert popped - {node} == done;
      ReportStep(g, protected, done, node, affected, hit, incomplete);
      affected := affected + 1;
      hit := hit || flags[node];
      incomplete := incomplete || g.nodes[node].knowledge == Unknown;
      stack := PushSuccessors(g, offsets, targets, node, visited, stack[..|stack| - 1], roots, popped);
      done := popped;
    }
  }

  ghost predicate InNodes(g: Graph, done: set<nat>) {
    forall n | n in done :: n < |g.nodes|
  }

  lemma {:induction false} PositionsFit(n: nat, s: set<nat>)
    requires forall x | x in s :: x < n
    ensures |s| <= n
  {
    if n == 0 {
      assert s == {};
    } else {
      PositionsFit(n - 1, s - {n - 1});
      assert s <= (s - {n - 1}) + {n - 1};
      SubsetCount(s, (s - {n - 1}) + {n - 1});
    }
  }

  method ProtectedFlags(g: Graph, protected: seq<ResourceId>) returns (flags: array<bool>)
    requires StrictlySortedBy(NodeKey, g.nodes)
    requires forall p | p in protected :: p in Ids(g.nodes)
    ensures fresh(flags) && flags.Length == |g.nodes|
    ensures forall n | 0 <= n < |g.nodes| :: flags[n] <==> g.nodes[n].resource in protected
  {
    hide StrictlySortedBy, Ids;
    flags := new bool[|g.nodes|](_ => false);
    var k := 0;
    while k < |protected|
      invariant 0 <= k <= |protected|
      invariant forall n | 0 <= n < |g.nodes| :: flags[n] <==> g.nodes[n].resource in protected[..k]
    {
      assert protected[k] in protected;
      var at := IndexOf(g.nodes, protected[k]);
      forall n | 0 <= n < |g.nodes| && g.nodes[n].resource == protected[k]
        ensures n == at.value
      {
        SamePosition(g.nodes, n, at.value);
      }
      assert protected[..k + 1] == protected[..k] + [protected[k]];
      flags[at.value] := true;
      k := k + 1;
    }
    assert protected[..k] == protected;
  }

  /** The report over the popped positions is the verdict over names. */
  lemma ReportIsVerdict(g: Graph, roots: set<ResourceId>, visited: seq<bool>, done: set<nat>,
                        protected: seq<ResourceId>, affected: nat, hit: bool, incomplete: bool)
    requires Searching(g, roots, visited, [], done) && Expanded(g, visited, done)
    requires Reported(g, protected, done, affected, hit, incomplete)
    requires forall p | p in protected :: p in Ids(g.nodes)
    ensures Verdict(Ids(g.nodes), Links(g.nodes, g.edges), UnknownIds(g.nodes), protected, roots) ==
            if hit then Err(ProtectedImpact) else if incomplete then Err(IncompleteEffects) else Ok(affected)
  {
    SearchFinds(g, roots, visited, done);
    var links, names := Links(g.nodes, g.edges), NamesOf(g.nodes, done);
    hide StrictlySortedBy, Reaches, Links, Expanded;
    assert hit <==> HitsAny(protected, links, roots) by {
      if hit {
        var n :| n in done && g.nodes[n].resource in protected;
        assert g.nodes[n].resource in names;
      }
      if HitsAny(protected, links, roots) {
        var p :| p in protected && Reaches(links, roots, p);
        assert p in names;
      }
    }
    assert incomplete <==> exists x | x in UnknownIds(g.nodes) :: Reaches(links, roots, x) by {
      UnknownPopped(g, roots, done, names);
    }
  }

  lemma UnknownPopped(g: Graph, roots: set<ResourceId>, done: set<nat>, names: set<ResourceId>)
    requires ValidGraph(g) && InNodes(g, done) && names == NamesOf(g.nodes, done)
    requires names == ReachSet(Ids(g.nodes), Links(g.nodes, g.edges), roots)
    ensures (exists n | n in done :: g.nodes[n].knowledge == Unknown) <==>
            exists x | x in UnknownIds(g.nodes) :: Reaches(Links(g.nodes, g.edges), roots, x)
  {
    hide StrictlySortedBy, Reaches, Links;
    var links := Links(g.nodes, g.edges);
    if exists n | n in done :: g.nodes[n].knowledge == Unknown {
      var n :| n in done && g.nodes[n].knowledge == Unknown;
      assert g.nodes[n] in g.nodes && g.nodes[n].resource in names;
      assert g.nodes[n].resource in UnknownIds(g.nodes);
    }
    if exists x | x in UnknownIds(g.nodes) :: Reaches(links, roots, x) {
      var x :| x in UnknownIds(g.nodes) && Reaches(links, roots, x);
      var m :| m in g.nodes && m.knowledge == Unknown && m.resource == x;
      var i :| 0 <= i < |g.nodes| && g.nodes[i] == m;
      assert x in Ids(g.nodes) && x in names;
      var n :| n in done && g.nodes[n].resource == x;
      SamePosition(g.nodes, n, i);
    }
  }

  /** The analysis computes exactly the assessment. */
  method AnalyzeEffects(before: Graph, after: Graph, protected: seq<ResourceId>, scope: Option<seq<ResourceId>>)
    returns (r: Result<nat, EffectError>)
    requires ValidGraph(before) && ValidGraph(after)
    requires ValidSelection(protected, MAX_PROTECTED_RESOURCES)
    requires scope.Some? ==> ValidSelection(scope.value, MAX_CHANGE_ROOTS)
    ensures r == Assessment(before, after, protected, scope)
  {
    hide Verdict, Links, UnknownIds, Ids, LexBelow;
    var combined := CombinedGraph(before, after);
    if combined.Err? {
      return Err(combined.error);
    }
    var g := combined.value;
    var i := 0;
    while i < |protected|
      invariant 0 <= i <= |protected|
      invariant forall p | p in protected[..i] :: p in Ids(before.nodes) && p in Ids(after.nodes)
    {
      if IndexOf(before.nodes, protected[i]).None? || IndexOf(after.nodes, protected[i]).None? {
        assert protected[i] in protected;
        return Err(MissingProtectedResource);
      }
      assert protected[..i + 1] == protected[..i] + [protected[i]];
      i := i + 1;
    }
    assert protected[..i] == protected;
    if scope.None? {
      return Err(GlobalEffects);
    }
    var visited := new bool[|g.nodes|](_ => false);
    var found, stack := MarkRoots(g, scope.value, visited);
    if !found {
      return Err(MissingRoot);
    }
    r := SearchVerdict(g, visited, stack, protected, Members(scope.value));
  }

  method SearchVerdict(g: Graph, visited: array<bool>, stack: seq<nat>, protected: seq<ResourceId>,
                       ghost roots: set<ResourceId>) returns (r: Result<nat, EffectError>)
    requires visited.Length == |g.nodes| && Searching(g, roots, visited[..], stack, {})
    requires forall p | p in protected :: p in Ids(g.nodes)
    modifies visited
    ensures r == Verdict(Ids(g.nodes), Links(g.nodes, g.edges), UnknownIds(g.nodes), protected, roots)
  {
    hide Verdict, Links, UnknownIds, Ids, LexBelow, StrictlySortedBy, Expanded, Adjacency, Reaches;
    var flags := ProtectedFlags(g, protected);
    var offsets, targets := BuildAdjacency(|g.nodes|, g.edges);
    var affected, hit, incomplete, done :=
      Search(g, offsets, targets, flags, visited, stack, protected, roots);
    ReportIsVerdict(g, roots, visited[..], done, protected, affected, hit, incomplete);
    if hit {
      return Err(ProtectedImpact);
    } else if incomplete {
      return Err(IncompleteEffects);
    }
    return Ok(affected);
  }
}
