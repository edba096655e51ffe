/** The plan builder: hooks become nodes of an index graph with one edge from each
    dependency to its dependent, a topological sort rejects cycles, and every node
    is placed in level `depth - 1`, where `depth` is one more than the largest depth
    of its prerequisites. */
module Dag {
  import opened Seqs
  import opened Core

  /** An edge (source, target) between node indices: the source must run before the target. */
  type Edge = (nat, nat)

  /** The dependency graph: node `v` holds `nodes[v]`; edges are kept in insertion order. */
  datatype Graph = Graph(nodes: seq<Hook>, edges: seq<Edge>)

  /** Every edge joins two existing nodes. */
  predicate WellFormed(g: Graph)
  {
    forall k :: 0 <= k < |g.edges| ==> g.edges[k].0 < |g.nodes| && g.edges[k].1 < |g.nodes|
  }

  // ---------------------------------------------------------------------------
  // Graph construction
  // ---------------------------------------------------------------------------

  /** The id-to-node map: each id goes to the LAST hook that carries it, since a later
      insert into the map overwrites an earlier one. */
  function IdIndex(hooks: seq<Hook>): (ix: map<string, nat>)
    ensures forall i :: 0 <= i < |hooks| ==> hooks[i].id in ix && i <= ix[hooks[i].id]
  {
    if hooks == [] then map[]
    else
      var n := |hooks| - 1;
      var init := hooks[..n];
      assert forall i :: 0 <= i < n ==> init[i] == hooks[i];
      IdIndex(init)[hooks[n].id := n]
  }

  /** Every id in the map goes to a hook carrying that id; together with the postcondition of
      `IdIndex`, each id goes to its last hook. */
  lemma {:induction false} IdIndexSound(hooks: seq<Hook>)
    ensures forall id :: id in IdIndex(hooks) ==> IdIndex(hooks)[id] < |hooks| && hooks[IdIndex(hooks)[id]].id == id
  {
    if hooks != [] {
      var n := |hooks| - 1;
      IdIndexSound(hooks[..n]);
    }
  }

  /** The map has exactly the hook ids as keys. */
  lemma IdIndexKeys(hooks: seq<Hook>)
    ensures forall id :: id in IdIndex(hooks) <==> id in Ids(hooks)
  {
    IdIndexSound(hooks);
  }

  /** With unique ids every hook is its own id's node. */
  lemma UniqueIdIndex(hooks: seq<Hook>, v: nat)
    requires UniqueIds(hooks) && v < |hooks|
    ensures hooks[v].id in IdIndex(hooks) && IdIndex(hooks)[hooks[v].id] == v
  {
    IdIndexSound(hooks);
  }

  /** The edges one hook contributes, in dependency order: from each dependency's node to `target`.
      A dependency that names no hook contributes nothing (the builder stops before that happens). */
  function HookEdges(deps: seq<string>, ix: map<string, nat>, target: nat): (r: seq<Edge>)
    ensures |r| <= |deps|
    ensures forall k :: 0 <= k < |r| ==> r[k].0 in ix.Values && r[k].1 == target
  {
    if deps == [] then []
    else
      HookEdges(deps[..|deps| - 1], ix, target)
      + (if deps[|deps| - 1] in ix then [(ix[deps[|deps| - 1]], target)] else [])
  }

  lemma HookEdgesSnoc(deps: seq<string>, ix: map<string, nat>, t: nat, j: nat)
    requires j < |deps| && deps[j] in ix
    ensures HookEdges(deps[..j + 1], ix, t) == HookEdges(deps[..j], ix, t) + [(ix[deps[j]], t)]
  {
    assert deps[..j + 1][..j] == deps[..j];
  }

  /** The edges contributed by the first `n` hooks, in the order the builder inserts them. */
  function EdgesUpTo(hooks: seq<Hook>, n: nat): (r: seq<Edge>)
    requires n <= |hooks|
    ensures forall k :: 0 <= k < |r| ==> r[k].0 < |hooks| && r[k].1 < |hooks|
  {
    if n == 0 then []
    else
      var ix := IdIndex(hooks);
      IdIndexBelow(hooks);
      assert ix[hooks[n - 1].id] in ix.Values;
      EdgesUpTo(hooks, n - 1) + HookEdges(hooks[n - 1].dependsOn, ix, ix[hooks[n - 1].id])
  }

  /** Every node the id map names is a node of the graph. */
  lemma IdIndexBelow(hooks: seq<Hook>)
    ensures forall v :: v in IdIndex(hooks).Values ==> v < |hooks|
  {
    IdIndexSound(hooks);
    forall v | v in IdIndex(hooks).Values
      ensures v < |hooks|
    {
      var id :| id in IdIndex(hooks) && IdIndex(hooks)[id] == v;
    }
  }

  /** The graph `build_graph` returns on success: one node per hook, in order, and every edge
      joins two of them. */
  function DependencyGraph(hooks: seq<Hook>): (g: Graph)
    ensures g.nodes == hooks && WellFormed(g)
  {
    Graph(hooks, EdgesUpTo(hooks, |hooks|))
  }

  /** The `j`-th dependency of hook `i` yields edge `e`: from that dependency's node to hook `i`'s node. */
  ghost predicate Declares(hooks: seq<Hook>, i: nat, j: nat, e: Edge)
    requires i < |hooks| && j < |hooks[i].dependsOn|
  {
    var ix := IdIndex(hooks);
    hooks[i].dependsOn[j] in ix && e == (ix[hooks[i].dependsOn[j]], ix[hooks[i].id])
  }

  lemma {:induction false} HookEdgesSound(deps: seq<string>, ix: map<string, nat>, t: nat, k: nat) returns (j: nat)
    requires k < |HookEdges(deps, ix, t)|
    ensures j < |deps| && deps[j] in ix && HookEdges(deps, ix, t)[k] == (ix[deps[j]], t)
  {
    var init := deps[..|deps| - 1];
    if k < |HookEdges(init, ix, t)| {
      j := HookEdgesSound(init, ix, t, k);
    } else {
      j := |deps| - 1;
    }
  }

  lemma {:induction false} HookEdgesComplete(deps: seq<string>, ix: map<string, nat>, t: nat, j: nat)
    requires j < |deps| && deps[j] in ix
    ensures (ix[deps[j]], t) in HookEdges(deps, ix, t)
  {
    var init := deps[..|deps| - 1];
    if j < |init| {
      assert init[j] == deps[j];
      HookEdgesComplete(init, ix, t, j);
    }
  }

  lemma {:induction false} EdgesUpToSound(hooks: seq<Hook>, n: nat, k: nat) returns (i: nat, j: nat)
    requires n <= |hooks| && k < |EdgesUpTo(hooks, n)|
    ensures i < n && j < |hooks[i].dependsOn| && Declares(hooks, i, j, EdgesUpTo(hooks, n)[k])
  {
    var ix := IdIndex(hooks);
    IdIndexSound(hooks);
    var prev := EdgesUpTo(hooks, n - 1);
    if k < |prev| {
      i, j := EdgesUpToSound(hooks, n - 1, k);
    } else {
      i := n - 1;
      j := HookEdgesSound(hooks[n - 1].dependsOn, ix, ix[hooks[n - 1].id], k - |prev|);
    }
  }

  lemma {:induction false} EdgesUpToComplete(hooks: seq<Hook>, n: nat, i: nat, j: nat, e: Edge)
    requires n <= |hooks| && i < n && j < |hooks[i].dependsOn| && Declares(hooks, i, j, e)
    ensures e in EdgesUpTo(hooks, n)
  {
    var ix := IdIndex(hooks);
    if i < n - 1 {
      EdgesUpToComplete(hooks, n - 1, i, j, e);
    } else {
      HookEdgesComplete(hooks[i].dependsOn, ix, ix[hooks[i].id], j);
    }
  }

  /** The graph has exactly the declared edges, and every edge joins two nodes. */
  lemma DependencyGraphMeaning(hooks: seq<Hook>)
    ensures WellFormed(DependencyGraph(hooks))
    ensures forall e :: e in DependencyGraph(hooks).edges <==>
      exists i: nat, j: nat :: i < |hooks| && j < |hooks[i].dependsOn| && Declares(hooks, i, j, e)
  {
    var edges := DependencyGraph(hooks).edges;
    IdIndexSound(hooks);
    forall k | 0 <= k < |edges|
      ensures edges[k].0 < |hooks| && edges[k].1 < |hooks|
      ensures exists i: nat, j: nat :: i < |hooks| && j < |hooks[i].dependsOn| && Declares(hooks, i, j, edges[k])
    {
      var i, j := EdgesUpToSound(hooks, |hooks|, k);
    }
    forall e, i: nat, j: nat | i < |hooks| && j < |hooks[i].dependsOn| && Declares(hooks, i, j, e)
      ensures e in edges
    {
      EdgesUpToComplete(hooks, |hooks|, i, j, e);
    }
  }

  /** With unique ids, an edge u -> v exists exactly when hook `v` lists hook `u`'s id. */
  lemma UniqueIdEdges(hooks: seq<Hook>, u: nat, v: nat)
    requires UniqueIds(hooks)
    ensures (u, v) in DependencyGraph(hooks).edges
      <==> u < |hooks| && v < |hooks| && hooks[u].id in hooks[v].dependsOn
  {
    DependencyGraphMeaning(hooks);
    if u < |hooks| && v < |hooks| && hooks[u].id in hooks[v].dependsOn {
      var j :| 0 <= j < |hooks[v].dependsOn| && hooks[v].dependsOn[j] == hooks[u].id;
      UniqueIdIndex(hooks, u);
      UniqueIdIndex(hooks, v);
      assert Declares(hooks, v, j, (u, v));
    }
    if (u, v) in DependencyGraph(hooks).edges {
      var i: nat, j: nat :| i < |hooks| && j < |hooks[i].dependsOn| && Declares(hooks, i, j, (u, v));
      IdIndexSound(hooks);
      UniqueIdIndex(hooks, i);
      assert hooks[u].id == hooks[i].dependsOn[j];
    }
  }

  /** The first loop of `build_graph`: one node per hook, recording each id's node. */
  method IndexHooks(hooks: seq<Hook>) returns (indices: map<string, nat>)
    ensures indices == IdIndex(hooks)
  {
    indices := map[];
    for i := 0 to |hooks|
      invariant indices == IdIndex(hooks[..i])
    {
      assert hooks[..i + 1][..i] == hooks[..i];
      indices := indices[hooks[i].id := i];
    }
    assert hooks[..|hooks|] == hooks;
  }

  /** The scan that stops at the first unknown dependency of hook `i` stops the whole build there. */
  lemma UnknownFound(hooks: seq<Hook>, i: nat, b: nat)
    requires i < |hooks|
    requires forall a :: 0 <= a < i ==> FirstUnknownIn(hooks[a].dependsOn, IdIndex(hooks).Keys).None?
    requires FirstUnknownIn(hooks[i].dependsOn, IdIndex(hooks).Keys) == Some(b)
    ensures FirstUnknownDep(hooks, Ids(hooks)) == Some((i, b))
  {
    IdIndexKeys(hooks);
    assert KnownBefore(hooks, Ids(hooks), i, b);
    FirstUnknownDepIsFirst(hooks, Ids(hooks), i, b);
  }

  /** A scan that finds no unknown dependency in any hook means all dependencies are known. */
  lemma NoneUnknown(hooks: seq<Hook>)
    requires forall a :: 0 <= a < |hooks| ==> FirstUnknownIn(hooks[a].dependsOn, IdIndex(hooks).Keys).None?
    ensures AllKnown(hooks, Ids(hooks))
  {
    IdIndexKeys(hooks);
  }

  /** The inner loop of `build_graph` for one hook: add an edge from each dependency's node to
      `hookIdx`, stopping at the first dependency that names no node. */
  method AddHookEdges(edges: seq<Edge>, deps: seq<string>, indices: map<string, nat>, hookIdx: nat)
    returns (r: Result<seq<Edge>, nat>)
    ensures r.Ok? <==> FirstUnknownIn(deps, indices.Keys).None?
    ensures r.Ok? ==> r.value == edges + HookEdges(deps, indices, hookIdx)
    ensures r.Err? ==> FirstUnknownIn(deps, indices.Keys) == Some(r.error)
  {
    var acc := edges;
    for j := 0 to |deps|
      invariant acc == edges + HookEdges(deps[..j], indices, hookIdx)
      invariant forall b :: 0 <= b < j ==> deps[b] in indices
    {
      if deps[j] !in indices {
        return Err(j);
      }
      HookEdgesSnoc(deps, indices, hookIdx, j);
      acc := acc + [(indices[deps[j]], hookIdx)];
    }
    assert deps[..|deps|] == deps;
    return Ok(acc);
  }

  /** One more hook adds its own edges, into its own node. */
  lemma EdgesUpToSnoc(hooks: seq<Hook>, i: nat)
    requires i < |hooks|
    ensures hooks[i].id in IdIndex(hooks)
    ensures EdgesUpTo(hooks, i + 1)
      == EdgesUpTo(hooks, i) + HookEdges(hooks[i].dependsOn, IdIndex(hooks), IdIndex(hooks)[hooks[i].id])
  {
  }

  /** `build_graph`: one node per hook, then one edge per dependency, failing on the first
      dependency (in hook order, then dependency order) that names no hook. */
  method BuildGraph(hooks: seq<Hook>) returns (r: Result<Graph, PreCommitError>)
    ensures r.Ok? <==> AllKnown(hooks, Ids(hooks))
    ensures r.Ok? ==> r.value == DependencyGraph(hooks)
    ensures r.Err? ==> FirstUnknownDep(hooks, Ids(hooks)).Some?
    ensures r.Err? ==>
      var (i, j) := FirstUnknownDep(hooks, Ids(hooks)).value;
      r.error == HookNotFound(hooks[i].dependsOn[j])
  {
    var indices := IndexHooks(hooks);
    var edges := ConnectHooks(hooks, indices);
    if edges.Err? {
      var (i, j) := edges.error;
      UnknownFound(hooks, i, j);
      return Err(HookNotFound(hooks[i].dependsOn[j]));
    }
    NoneUnknown(hooks);
    return Ok(Graph(hooks, edges.value));
  }

  /** The second loop of `build_graph`: the edges of each hook in turn, stopping at the first
      unknown dependency, whose position it reports. */
  method ConnectHooks(hooks: seq<Hook>, indices: map<string, nat>) returns (r: Result<seq<Edge>, (nat, nat)>)
    requires indices == IdIndex(hooks)
    ensures r.Ok? ==> r.value == EdgesUpTo(hooks, |hooks|)
    ensures r.Ok? ==> forall a :: 0 <= a < |hooks| ==> FirstUnknownIn(hooks[a].dependsOn, indices.Keys).None?
    ensures r.Err? ==> r.error.0 < |hooks|
    ensures r.Err? ==> forall a :: 0 <= a < r.error.0 ==> FirstUnknownIn(hooks[a].dependsOn, indices.Keys).None?
    ensures r.Err? ==> FirstUnknownIn(hooks[r.error.0].dependsOn, indices.Keys) == Some(r.error.1)
  {
    var edges: seq<Edge> := [];
    for i := 0 to |hooks|
      invariant edges == EdgesUpTo(hooks, i)
      invariant forall a :: 0 <= a < i ==> FirstUnknownIn(hooks[a].dependsOn, indices.Keys).None?
    {
      var added := ConnectHook(hooks, indices, i, edges);
      if added.Err? {
        return Err((i, added.error));
      }
      edges := added.value;
    }
    return Ok(edges);
  }

  /** One pass of the second loop of `build_graph`: hook `i` appends its edges, or reports the
      position of its first unknown dependency. */
  method ConnectHook(hooks: seq<Hook>, indices: map<string, nat>, i: nat, edges: seq<Edge>)
    returns (r: Result<seq<Edge>, nat>)
    requires indices == IdIndex(hooks) && i < |hooks| && edges == EdgesUpTo(hooks, i)
    ensures r.Ok? <==> FirstUnknownIn(hooks[i].dependsOn, indices.Keys).None?
    ensures r.Ok? ==> r.value == EdgesUpTo(hooks, i + 1)
    ensures r.Err? ==> FirstUnknownIn(hooks[i].dependsOn, indices.Keys) == Some(r.error)
  {
    EdgesUpToSnoc(hooks, i);
    r := AddHookEdges(edges, hooks[i].dependsOn, indices, indices[hooks[i].id]);
  }

  // ---------------------------------------------------------------------------
  // Topological order and cycles
  // ---------------------------------------------------------------------------

  /** Every edge into `v` starts at a node in `done`. */
  predicate Ready(g: Graph, done: set<nat>, v: nat)
  {
    forall k :: 0 <= k < |g.edges| && g.edges[k].1 == v ==> g.edges[k].0 in done
  }

  /** Each listed node has the sources of all its incoming edges listed before it. */
  ghost predicate PrefixClosed(g: Graph, order: seq<nat>)
  {
    forall m, k :: 0 <= m < |order| && 0 <= k < |g.edges| && g.edges[k].1 == order[m] ==> g.edges[k].0 in order[..m]
  }

  /** `order` lists every node exactly once, each after all of its prerequisites. */
  ghost predicate IsTopoOrder(g: Graph, order: seq<nat>)
  {
    && |order| == |g.nodes|
    && Distinct(order)
    && (forall m :: 0 <= m < |order| ==> order[m] < |g.nodes|)
    && PrefixClosed(g, order)
  }

  /** `c` is a closed walk: every node of `c` is a prerequisite of the next, the last one of the first. */
  ghost predicate IsCycle(g: Graph, c: seq<nat>)
  {
    && |c| > 0
    && (forall k :: 0 <= k < |c| - 1 ==> (c[k], c[k + 1]) in g.edges)
    && (c[|c| - 1], c[0]) in g.edges
  }

  ghost predicate HasCycle(g: Graph)
  {
    exists c :: IsCycle(g, c)
  }

  /** The position of `x` in `s`. */
  ghost function IndexOf(s: seq<nat>, x: nat): (p: nat)
    requires x in s
    ensures p < |s| && s[p] == x && x !in s[..p]
  {
    if s[0] == x then 0 else 1 + IndexOf(s[1..], x)
  }

  /** In a topological order the source of an edge comes strictly before its target. */
  lemma EdgeOrdered(g: Graph, order: seq<nat>, u: nat, v: nat)
    requires IsTopoOrder(g, order) && (u, v) in g.edges && v in order
    ensures u in order && IndexOf(order, u) < IndexOf(order, v)
  {
    var m := IndexOf(order, v);
    var k :| 0 <= k < |g.edges| && g.edges[k] == (u, v);
    assert u in order[..m];
    var q :| 0 <= q < m && order[q] == u;
    assert IndexOf(order, u) == q;
  }

  /** Every node on a cycle is a node of the graph. */
  lemma CycleInGraph(g: Graph, c: seq<nat>)
    requires WellFormed(g) && IsCycle(g, c)
    ensures forall k :: 0 <= k < |c| ==> c[k] < |g.nodes|
  {
    forall k | 0 <= k < |c|
      ensures c[k] < |g.nodes|
    {
      var e :| 0 <= e < |g.edges| && g.edges[e] == (c[k], if k < |c| - 1 then c[k + 1] else c[0]);
    }
  }

  /** No numbering of the nodes grows strictly all the way around a cycle: some edge of the
      cycle does not go up. */
  lemma CycleCannotAscend(g: Graph, c: seq<nat>, rank: seq<int>) returns (u: nat, v: nat)
    requires IsCycle(g, c) && forall k :: 0 <= k < |c| ==> c[k] < |rank|
    ensures (u, v) in g.edges && u < |rank| && v < |rank| && rank[u] >= rank[v]
  {
    var n := |c|;
    var k := 0;
    while k < n - 1
      invariant k < n
      invariant rank[c[0]] + k <= rank[c[k]]
    {
      if rank[c[k]] >= rank[c[k + 1]] {
        return c[k], c[k + 1];
      }
      k := k + 1;
    }
    u, v := c[n - 1], c[0];
  }

  /** A graph with a cycle has no topological order. */
  lemma CycleForbidsOrder(g: Graph, c: seq<nat>, order: seq<nat>)
    requires WellFormed(g) && IsCycle(g, c)
    ensures !IsTopoOrder(g, order)
  {
    if IsTopoOrder(g, order) {
      CycleInGraph(g, c);
      DistinctBelowCovers(order, |g.nodes|);
      var rank := seq(|g.nodes|, v requires 0 <= v < |g.nodes| => IndexOf(order, v));
      var u, v := CycleCannotAscend(g, c, rank);
      EdgeOrdered(g, order, u, v);
    }
  }

  /** A node that is not ready has a prerequisite outside `done`. */
  lemma WaitsOn(g: Graph, done: set<nat>, w: nat) returns (u: nat)
    requires WellFormed(g) && !Ready(g, done, w)
    ensures (u, w) in g.edges && u < |g.nodes| && u !in done
  {
    var k :| 0 <= k < |g.edges| && g.edges[k].1 == w && g.edges[k].0 !in done;
    u := g.edges[k].0;
  }

  /** Walking backwards from a node outside `done`, where every such node waits on another node
      outside `done`, gives a walk one longer than the number of nodes. */
  lemma BackwardWalk(g: Graph, done: set<nat>, v0: nat) returns (walk: seq<nat>)
    requires WellFormed(g) && v0 < |g.nodes| && v0 !in done
    requires forall w :: 0 <= w < |g.nodes| ==> w in done || !Ready(g, done, w)
    ensures |walk| == |g.nodes| + 1
    ensures forall i :: 0 <= i < |walk| ==> walk[i] < |g.nodes|
    ensures forall i :: 0 <= i < |walk| - 1 ==> (walk[i + 1], walk[i]) in g.edges
  {
    var n := |g.nodes|;
    walk := [v0];
    while |walk| <= n
      invariant 1 <= |walk| <= n + 1
      invariant forall i :: 0 <= i < |walk| ==> walk[i] < n && walk[i] !in done
      invariant forall i :: 0 <= i < |walk| - 1 ==> (walk[i + 1], walk[i]) in g.edges
      decreases n + 1 - |walk|
    {
      var u := WaitsOn(g, done, walk[|walk| - 1]);
      walk := walk + [u];
    }
  }

  /** A backward walk that revisits a node contains a cycle, read off in reverse. */
  lemma WalkCycle(g: Graph, walk: seq<nat>, a: nat, b: nat) returns (c: seq<nat>)
    requires a < b < |walk| && walk[a] == walk[b]
    requires forall i :: 0 <= i < |walk| - 1 ==> (walk[i + 1], walk[i]) in g.edges
    ensures IsCycle(g, c)
  {
    var len := b - a;
    c := seq(len, i requires 0 <= i < len => walk[b - i]);
    forall k | 0 <= k < len - 1
      ensures (c[k], c[k + 1]) in g.edges
    {
      assert (walk[b - k - 1 + 1], walk[b - k - 1]) in g.edges;
    }
    assert (walk[a + 1], walk[a]) in g.edges;
  }

  /** When every unplaced node waits on another unplaced node, the graph has a cycle. */
  lemma StuckHasCycle(g: Graph, order: seq<nat>, done: set<nat>) returns (c: seq<nat>)
    requires WellFormed(g) && |order| < |g.nodes| && Distinct(order)
    requires forall x :: x in done <==> x in order
    requires forall w :: 0 <= w < |g.nodes| ==> w in done || !Ready(g, done, w)
    ensures IsCycle(g, c)
  {
    var v0 := DistinctBelowMisses(order, |g.nodes|);
    var walk := BackwardWalk(g, done, v0);
    var a, b := Pigeonhole(walk, |g.nodes|);
    c := WalkCycle(g, walk, a, b);
  }

  /** A topological sort: repeatedly pick the lowest-numbered node whose prerequisites are all
      placed. It gives up exactly when the graph has a cycle. */
  method TopoSort(g: Graph) returns (r: Option<seq<nat>>)
    requires WellFormed(g)
    ensures r.Some? ==> IsTopoOrder(g, r.value)
    ensures r.None? <==> HasCycle(g)
  {
    var n := |g.nodes|;
    var order: seq<nat> := [];
    var done: set<nat> := {};
    while |order| < n
      invariant |order| <= n && Distinct(order)
      invariant forall m :: 0 <= m < |order| ==> order[m] < n
      invariant forall x :: x in done <==> x in order
      invariant PrefixClosed(g, order)
      decreases n - |order|
    {
      var v := 0;
      while v < n && (v in done || !Ready(g, done, v))
        invariant v <= n
        invariant forall w :: 0 <= w < v ==> w in done || !Ready(g, done, w)
      {
        v := v + 1;
      }
      if v == n {
        ghost var c := StuckHasCycle(g, order, done);
        return None;
      }
      forall m, k | 0 <= m < |order| + 1 && 0 <= k < |g.edges| && g.edges[k].1 == (order + [v])[m]
        ensures g.edges[k].0 in (order + [v])[..m]
      {
        if m < |order| {
          assert (order + [v])[..m] == order[..m];
        } else {
          assert (order + [v])[..m] == order;
        }
      }
      order := order + [v];
      done := done + {v};
    }
    if HasCycle(g) {
      var c :| IsCycle(g, c);
      CycleForbidsOrder(g, c, order);
    }
    return Some(order);
  }

  // ---------------------------------------------------------------------------
  // Depths
  // ---------------------------------------------------------------------------

  /** The largest depth among the sources of the edges into `v`, or 0 when there are none
      (`max_parent_depth`; a source without a depth counts as 0). */
  function MaxParentDepth(edges: seq<Edge>, v: nat, d: seq<nat>): (m: nat)
    ensures forall k :: 0 <= k < |edges| && edges[k].1 == v && edges[k].0 < |d| ==> d[edges[k].0] <= m
    ensures m == 0 || exists k :: 0 <= k < |edges| && edges[k].1 == v && edges[k].0 < |d| && d[edges[k].0] == m
  {
    if edges == [] then 0
    else
      var m := MaxParentDepth(edges[..|edges| - 1], v, d);
      var e := edges[|edges| - 1];
      assert forall k :: 0 <= k < |edges| - 1 ==> edges[..|edges| - 1][k] == edges[k];
      if e.1 == v && e.0 < |d| && d[e.0] > m then d[e.0] else m
  }

  /** `MaxParentDepth` only looks at the depths of the sources of edges into `v`. */
  lemma {:induction false} MaxParentCongruent(edges: seq<Edge>, v: nat, d1: seq<nat>, d2: seq<nat>)
    requires |d1| == |d2|
    requires forall k :: 0 <= k < |edges| && edges[k].1 == v && edges[k].0 < |d1| ==> d1[edges[k].0] == d2[edges[k].0]
    ensures MaxParentDepth(edges, v, d1) == MaxParentDepth(edges, v, d2)
  {
    if edges != [] {
      MaxParentCongruent(edges[..|edges| - 1], v, d1, d2);
    }
  }

  /** Node `v` has one more than the largest depth of its prerequisites (1 without any). */
  ghost predicate DepthAt(g: Graph, d: seq<nat>, v: nat)
    requires v < |d|
  {
    d[v] == 1 + MaxParentDepth(g.edges, v, d)
  }

  /** `d` gives every node its depth. */
  ghost predicate IsDepth(g: Graph, d: seq<nat>)
  {
    && |d| == |g.nodes|
    && (forall v :: 0 <= v < |d| ==> d[v] >= 1)
    && (forall v :: 0 <= v < |d| ==> DepthAt(g, d, v))
  }

  /** The depth loop: visit the nodes in topological order and give each `1 + max_parent_depth`. */
  method ComputeDepths(g: Graph, order: seq<nat>) returns (depth: seq<nat>)
    requires WellFormed(g) && IsTopoOrder(g, order)
    ensures IsDepth(g, depth)
  {
    var n := |g.nodes|;
    depth := seq(n, _ => 0);
    for i := 0 to |order|
      invariant |depth| == n
      invariant forall m :: 0 <= m < i ==> depth[order[m]] == 1 + MaxParentDepth(g.edges, order[m], depth)
    {
      var v := order[i];
      var d := 1 + MaxParentDepth(g.edges, v, depth);
      SettledStay(g, order, depth, i, d);
      depth := depth[v := d];
    }
    DepthsComplete(g, order, depth);
  }

  /** Setting the depth of `order[i]` leaves the parent depths of `order[..i + 1]` unchanged: none
      of them has `order[i]` as a prerequisite. */
  lemma SettledStay(g: Graph, order: seq<nat>, depth: seq<nat>, i: nat, x: nat)
    requires WellFormed(g) && IsTopoOrder(g, order) && |depth| == |g.nodes| && i < |order|
    ensures forall m :: 0 <= m <= i ==>
      MaxParentDepth(g.edges, order[m], depth[order[i] := x]) == MaxParentDepth(g.edges, order[m], depth)
  {
    var v := order[i];
    forall m | 0 <= m <= i
      ensures MaxParentDepth(g.edges, order[m], depth[v := x]) == MaxParentDepth(g.edges, order[m], depth)
    {
      forall k | 0 <= k < |g.edges| && g.edges[k].1 == order[m]
        ensures g.edges[k].0 != v
      {
        assert g.edges[k].0 in order[..m];
        assert v !in order[..m];
      }
      MaxParentCongruent(g.edges, order[m], depth[v := x], depth);
    }
  }

  /** Once every node of a topological order is settled, `depth` is the depth assignment. */
  lemma DepthsComplete(g: Graph, order: seq<nat>, depth: seq<nat>)
    requires WellFormed(g) && IsTopoOrder(g, order) && |depth| == |g.nodes|
    requires forall m :: 0 <= m < |order| ==> depth[order[m]] == 1 + MaxParentDepth(g.edges, order[m], depth)
    ensures IsDepth(g, depth)
  {
    DistinctBelowCovers(order, |g.nodes|);
    forall v | 0 <= v < |g.nodes|
      ensures depth[v] >= 1 && DepthAt(g, depth, v)
    {
      var m := IndexOf(order, v);
    }
  }

  /** Depth strictly grows along every edge. */
  lemma EdgeDeepens(g: Graph, d: seq<nat>, k: nat)
    requires WellFormed(g) && IsDepth(g, d) && k < |g.edges|
    ensures d[g.edges[k].0] < d[g.edges[k].1]
  {
    assert DepthAt(g, d, g.edges[k].1);
  }

  /** A graph that has depths has no cycle. */
  lemma DepthForbidsCycle(g: Graph, d: seq<nat>)
    requires WellFormed(g) && IsDepth(g, d)
    ensures !HasCycle(g)
  {
    if HasCycle(g) {
      var c :| IsCycle(g, c);
      CycleInGraph(g, c);
      var u, v := CycleCannotAscend(g, c, d);
      var k :| 0 <= k < |g.edges| && g.edges[k] == (u, v);
      EdgeDeepens(g, d, k);
    }
  }

  /** Depths are unique: two depth assignments of one graph agree at every node. */
  lemma {:induction false} DepthAgreesAt(g: Graph, d1: seq<nat>, d2: seq<nat>, v: nat)
    requires WellFormed(g) && IsDepth(g, d1) && IsDepth(g, d2) && v < |g.nodes|
    ensures d1[v] == d2[v]
    decreases d1[v]
  {
    forall k | 0 <= k < |g.edges| && g.edges[k].1 == v
      ensures d1[g.edges[k].0] == d2[g.edges[k].0]
    {
      EdgeDeepens(g, d1, k);
      DepthAgreesAt(g, d1, d2, g.edges[k].0);
    }
    MaxParentCongruent(g.edges, v, d1, d2);
    assert DepthAt(g, d1, v) && DepthAt(g, d2, v);
  }

  /** The depths do not depend on which topological order computed them. */
  lemma DepthUnique(g: Graph, d1: seq<nat>, d2: seq<nat>)
    requires WellFormed(g) && IsDepth(g, d1) && IsDepth(g, d2)
    ensures d1 == d2
  {
    forall v | 0 <= v < |g.nodes|
      ensures d1[v] == d2[v]
    {
      DepthAgreesAt(g, d1, d2, v);
    }
  }

  /** Depth is as small as possible: any numbering from 1 that grows strictly along every edge is
      at least the depth at every node, so each hook runs as early as its prerequisites allow. */
  lemma {:induction false} DepthMinimal(g: Graph, d: seq<nat>, layer: seq<nat>, v: nat)
    requires WellFormed(g) && IsDepth(g, d) && v < |g.nodes|
    requires |layer| == |g.nodes| && forall w :: 0 <= w < |layer| ==> layer[w] >= 1
    requires forall k :: 0 <= k < |g.edges| ==> layer[g.edges[k].0] < layer[g.edges[k].1]
    ensures d[v] <= layer[v]
    decreases d[v]
  {
    var m := MaxParentDepth(g.edges, v, d);
    assert DepthAt(g, d, v);
    if m > 0 {
      var k :| 0 <= k < |g.edges| && g.edges[k].1 == v && g.edges[k].0 < |d| && d[g.edges[k].0] == m;
      DepthMinimal(g, d, layer, g.edges[k].0);
    }
  }

  /** Depths leave no gap: below any node's depth every smaller positive depth is taken by some node. */
  lemma {:induction false} DepthGapless(g: Graph, d: seq<nat>, v: nat, t: nat)
    requires WellFormed(g) && IsDepth(g, d) && v < |g.nodes| && 1 <= t <= d[v]
    ensures exists w :: 0 <= w < |g.nodes| && d[w] == t
    decreases d[v]
  {
    if t < d[v] {
      var m := MaxParentDepth(g.edges, v, d);
      assert DepthAt(g, d, v);
      var k :| 0 <= k < |g.edges| && g.edges[k].1 == v && g.edges[k].0 < |d| && d[g.edges[k].0] == m;
      DepthGapless(g, d, g.edges[k].0, t);
    }
  }

  // ---------------------------------------------------------------------------
  // Levels
  // ---------------------------------------------------------------------------

  /** The largest depth, 0 when there is no node (`depths.values().max().unwrap_or(0)`). */
  function MaxDepth(d: seq<nat>): (m: nat)
    ensures forall v :: 0 <= v < |d| ==> d[v] <= m
    ensures |d| > 0 ==> exists v :: 0 <= v < |d| && d[v] == m
    ensures |d| == 0 ==> m == 0
  {
    if d == [] then 0
    else
      var m := MaxDepth(d[..|d| - 1]);
      assert forall v :: 0 <= v < |d| - 1 ==> d[..|d| - 1][v] == d[v];
      if d[|d| - 1] > m then d[|d| - 1] else m
  }

  /** The nodes below `upto` whose depth is `k + 1`, in increasing order. */
  function Members(d: seq<nat>, k: nat, upto: nat): (r: seq<nat>)
    requires upto <= |d|
    ensures forall x :: x in r <==> 0 <= x < upto && d[x] == k + 1
    ensures forall i :: 0 <= i < |r| ==> r[i] < upto
    ensures forall i, j :: 0 <= i < j < |r| ==> r[i] < r[j]
  {
    if upto == 0 then []
    else Members(d, k, upto - 1) + (if d[upto - 1] == k + 1 then [upto - 1] else [])
  }

  /** The hooks at the given node indices. */
  function Pick(nodes: seq<Hook>, idx: seq<nat>): (r: seq<Hook>)
    requires forall i :: 0 <= i < |idx| ==> idx[i] < |nodes|
    ensures |r| == |idx|
  {
    seq(|idx|, i requires 0 <= i < |idx| => nodes[idx[i]])
  }

  /** Level `k` holds the hooks of depth `k + 1`, in node order; there are `MaxDepth(d)` levels. */
  function LevelsOf(nodes: seq<Hook>, d: seq<nat>): (levels: seq<seq<Hook>>)
    requires |d| == |nodes|
    ensures |levels| == MaxDepth(d)
  {
    seq(MaxDepth(d), k requires 0 <= k < MaxDepth(d) => Pick(nodes, Members(d, k, |d|)))
  }

  lemma PlaceMultiset(levels: seq<seq<Hook>>, k: nat, nodes: seq<Hook>, v: nat)
    requires k < |levels| && v < |nodes|
    requires multiset(Flatten(levels)) == multiset(nodes[..v])
    ensures multiset(Flatten(levels[k := levels[k] + [nodes[v]]])) == multiset(nodes[..v + 1])
  {
    FlattenAppendAt(levels, k, nodes[v]);
    assert nodes[..v + 1] == nodes[..v] + [nodes[v]];
  }

  lemma PickSnoc(nodes: seq<Hook>, idx: seq<nat>, x: nat)
    requires forall i :: 0 <= i < |idx| ==> idx[i] < |nodes|
    requires x < |nodes|
    ensures Pick(nodes, idx + [x]) == Pick(nodes, idx) + [nodes[x]]
  {
  }

  /** Levels holding exactly the hooks of the nodes below `v`, by depth. */
  ghost predicate PlacedUpTo(nodes: seq<Hook>, d: seq<nat>, levels: seq<seq<Hook>>, v: nat)
    requires |d| == |nodes| && v <= |d|
  {
    |levels| == MaxDepth(d) && forall k :: 0 <= k < |levels| ==> levels[k] == Pick(nodes, Members(d, k, v))
  }

  lemma PlaceStart(nodes: seq<Hook>, d: seq<nat>)
    requires |d| == |nodes|
    ensures PlacedUpTo(nodes, d, seq(MaxDepth(d), _ => []), 0)
    ensures multiset(Flatten(seq(MaxDepth(d), _ => []))) == multiset(nodes[..0])
  {
    var empty: seq<seq<Hook>> := seq(MaxDepth(d), _ => []);
    FlattenOfEmpties(empty);
  }

  lemma PlaceDone(nodes: seq<Hook>, d: seq<nat>, levels: seq<seq<Hook>>)
    requires |d| == |nodes| && PlacedUpTo(nodes, d, levels, |d|)
    ensures levels == LevelsOf(nodes, d)
  {
  }

  lemma PlaceStep(nodes: seq<Hook>, d: seq<nat>, levels: seq<seq<Hook>>, v: nat)
    requires |d| == |nodes| && v < |d| && 1 <= d[v]
    requires PlacedUpTo(nodes, d, levels, v)
    ensures PlacedUpTo(nodes, d, levels[d[v] - 1 := levels[d[v] - 1] + [nodes[v]]], v + 1)
  {
    PickSnoc(nodes, Members(d, d[v] - 1, v), v);
  }

  /** The level loop of `compute_levels`: for each node, append its hook to level `depth - 1`. The
      source visits the nodes in hash-map order; here they are visited in node order. */
  method PlaceByDepth(nodes: seq<Hook>, d: seq<nat>) returns (levels: seq<seq<Hook>>)
    requires |d| == |nodes| && forall v :: 0 <= v < |d| ==> d[v] >= 1
    ensures levels == LevelsOf(nodes, d)
    ensures multiset(Flatten(levels)) == multiset(nodes)
  {
    var maxDepth := MaxDepth(d);
    levels := seq(maxDepth, _ => []);
    PlaceStart(nodes, d);
    for v := 0 to |nodes|
      invariant PlacedUpTo(nodes, d, levels, v)
      invariant multiset(Flatten(levels)) == multiset(nodes[..v])
    {
      var k := d[v] - 1;
      PlaceMultiset(levels, k, nodes, v);
      PlaceStep(nodes, d, levels, v);
      levels := levels[k := levels[k] + [nodes[v]]];
    }
    PlaceDone(nodes, d, levels);
    assert nodes[..|nodes|] == nodes;
  }

  /** `compute_levels`: topologically sort (a cycle is reported), compute the depths, then
      place each hook in level `depth - 1`. */
  method ComputeLevels(g: Graph) returns (r: Result<seq<seq<Hook>>, PreCommitError>, ghost depth: seq<nat>)
    requires WellFormed(g)
    ensures r.Err? <==> HasCycle(g)
    ensures r.Err? ==> r.error == CycleDetected
    ensures r.Ok? ==> IsDepth(g, depth) && r.value == LevelsOf(g.nodes, depth)
    ensures r.Ok? ==> multiset(Flatten(r.value)) == multiset(g.nodes)
  {
    var sorted := TopoSort(g);
    if sorted.None? {
      return Err(CycleDetected), [];
    }
    var d := ComputeDepths(g, sorted.value);
    var levels := PlaceByDepth(g.nodes, d);
    DepthForbidsCycle(g, d);
    return Ok(levels), d;
  }

  /** Every hook sits in the level of its depth. */
  lemma NodePlaced(nodes: seq<Hook>, d: seq<nat>, v: nat)
    requires |d| == |nodes| && v < |d| && d[v] >= 1
    ensures d[v] - 1 < |LevelsOf(nodes, d)| && nodes[v] in LevelsOf(nodes, d)[d[v] - 1]
  {
    var idx := Members(d, d[v] - 1, |d|);
    assert v in idx;
    var p :| 0 <= p < |idx| && idx[p] == v;
    assert LevelsOf(nodes, d)[d[v] - 1][p] == nodes[v];
  }

  /** Every hook of level `k` is the hook of a node of depth `k + 1`. */
  lemma LevelMember(nodes: seq<Hook>, d: seq<nat>, k: nat, p: nat) returns (v: nat)
    requires |d| == |nodes| && k < |LevelsOf(nodes, d)| && p < |LevelsOf(nodes, d)[k]|
    ensures v < |nodes| && d[v] == k + 1 && LevelsOf(nodes, d)[k][p] == nodes[v]
  {
    var idx := Members(d, k, |d|);
    assert idx[p] in idx;
    v := idx[p];
  }

  /** No level is empty: the depths leave no gap below the largest one. */
  lemma NoEmptyLevel(g: Graph, d: seq<nat>, k: nat)
    requires WellFormed(g) && IsDepth(g, d) && k < |LevelsOf(g.nodes, d)|
    ensures LevelsOf(g.nodes, d)[k] != []
  {
    var v :| 0 <= v < |d| && d[v] == MaxDepth(d);
    DepthGapless(g, d, v, k + 1);
    var w :| 0 <= w < |g.nodes| && d[w] == k + 1;
    NodePlaced(g.nodes, d, w);
  }

  /** With unique ids, a hook is deeper than each of its dependencies. */
  lemma DependencyDeeper(hooks: seq<Hook>, d: seq<nat>, u: nat, v: nat)
    requires UniqueIds(hooks) && IsDepth(DependencyGraph(hooks), d)
    requires u < |hooks| && v < |hooks| && hooks[u].id in hooks[v].dependsOn
    ensures d[u] < d[v]
  {
    var g := DependencyGraph(hooks);
    UniqueIdEdges(hooks, u, v);
    DependencyGraphMeaning(hooks);
    var e :| 0 <= e < |g.edges| && g.edges[e] == (u, v);
    EdgeDeepens(g, d, e);
  }

  /** With unique ids, a hook's dependency runs in a strictly earlier level. */
  lemma DependenciesRunEarlier(hooks: seq<Hook>, d: seq<nat>, i: nat, p: nat, x: string)
    requires UniqueIds(hooks) && AllKnown(hooks, Ids(hooks)) && IsDepth(DependencyGraph(hooks), d)
    requires i < |LevelsOf(hooks, d)| && p < |LevelsOf(hooks, d)[i]|
    requires x in LevelsOf(hooks, d)[i][p].dependsOn
    ensures exists i', p' :: 0 <= i' < i && 0 <= p' < |LevelsOf(hooks, d)[i']| && LevelsOf(hooks, d)[i'][p'].id == x
  {
    var levels := LevelsOf(hooks, d);
    var v := LevelMember(hooks, d, i, p);
    var u :| 0 <= u < |hooks| && hooks[u].id == x;
    DependencyDeeper(hooks, d, u, v);
    NodePlaced(hooks, d, u);
    var p' :| 0 <= p' < |levels[d[u] - 1]| && levels[d[u] - 1][p'] == hooks[u];
  }

  /** With unique ids, each hook runs as early as its dependencies allow: in the first level when
      it has none, and otherwise right after the latest of them. */
  lemma LevelIsEarliest(hooks: seq<Hook>, d: seq<nat>, v: nat)
    requires UniqueIds(hooks) && AllKnown(hooks, Ids(hooks)) && IsDepth(DependencyGraph(hooks), d)
    requires v < |hooks|
    ensures hooks[v].dependsOn == [] ==> d[v] == 1
    ensures hooks[v].dependsOn != [] ==>
      exists u :: 0 <= u < |hooks| && hooks[u].id in hooks[v].dependsOn && d[u] == d[v] - 1
  {
    var g := DependencyGraph(hooks);
    var m := MaxParentDepth(g.edges, v, d);
    assert DepthAt(g, d, v);
    DependencyGraphMeaning(hooks);
    if hooks[v].dependsOn == [] {
      if m != 0 {
        var k :| 0 <= k < |g.edges| && g.edges[k].1 == v && g.edges[k].0 < |d| && d[g.edges[k].0] == m;
        UniqueIdEdges(hooks, g.edges[k].0, v);
      }
    } else {
      var x := hooks[v].dependsOn[0];
      var u :| 0 <= u < |hooks| && hooks[u].id == x;
      UniqueIdEdges(hooks, u, v);
      var e :| 0 <= e < |g.edges| && g.edges[e] == (u, v);
      var k :| 0 <= k < |g.edges| && g.edges[k].1 == v && g.edges[k].0 < |d| && d[g.edges[k].0] == m;
      UniqueIdEdges(hooks, g.edges[k].0, v);
    }
  }

  lemma {:induction false} MembersAll(d: seq<nat>, upto: nat)
    requires upto <= |d| && forall v :: 0 <= v < |d| ==> d[v] == 1
    ensures Members(d, 0, upto) == seq(upto, i => i)
  {
    if upto > 0 {
      MembersAll(d, upto - 1);
    }
  }

  lemma {:induction false} NoDependenciesNoEdges(hooks: seq<Hook>, n: nat)
    requires n <= |hooks| && forall i :: 0 <= i < |hooks| ==> hooks[i].dependsOn == []
    ensures EdgesUpTo(hooks, n) == []
  {
    if n > 0 {
      NoDependenciesNoEdges(hooks, n - 1);
    }
  }

  /** Hooks without dependencies all run in one single level, in configuration order. */
  lemma NoDependenciesOneLevel(hooks: seq<Hook>, d: seq<nat>)
    requires hooks != [] && forall i :: 0 <= i < |hooks| ==> hooks[i].dependsOn == []
    requires IsDepth(DependencyGraph(hooks), d)
    ensures LevelsOf(hooks, d) == [hooks]
  {
    NoDependenciesNoEdges(hooks, |hooks|);
    forall v | 0 <= v < |d|
      ensures d[v] == 1
    {
      assert DepthAt(DependencyGraph(hooks), d, v);
    }
    assert MaxDepth(d) == 1;
    MembersAll(d, |d|);
    assert LevelsOf(hooks, d)[0] == hooks;
  }

  // ---------------------------------------------------------------------------
  // The plan
  // ---------------------------------------------------------------------------

  /** `build_plan`: no hooks give no levels; otherwise build the graph (an unknown dependency
      fails first, even when there is also a cycle), then compute the levels (a cycle fails). */
  method BuildPlan(hooks: seq<Hook>) returns (r: Result<ExecutionPlan, PreCommitError>, ghost depth: seq<nat>)
    ensures hooks == [] ==> r == Ok(ExecutionPlan([]))
    ensures !AllKnown(hooks, Ids(hooks)) ==> FirstUnknownDep(hooks, Ids(hooks)).Some?
    ensures !AllKnown(hooks, Ids(hooks)) ==>
      var (i, j) := FirstUnknownDep(hooks, Ids(hooks)).value;
      r == Err(HookNotFound(hooks[i].dependsOn[j]))
    ensures AllKnown(hooks, Ids(hooks)) ==> (r == Err(CycleDetected) <==> HasCycle(DependencyGraph(hooks)))
    ensures AllKnown(hooks, Ids(hooks)) ==> (r.Ok? <==> !HasCycle(DependencyGraph(hooks)))
    ensures r.Ok? ==> IsDepth(DependencyGraph(hooks), depth) && r.value.levels == LevelsOf(hooks, depth)
    ensures r.Ok? ==> multiset(r.value.Sequential()) == multiset(hooks)
  {
    if |hooks| == 0 {
      assert IsDepth(DependencyGraph(hooks), []);
      DependencyGraphMeaning(hooks);
      DepthForbidsCycle(DependencyGraph(hooks), []);
      return Ok(ExecutionPlan([])), [];
    }
    var graph := BuildGraph(hooks);
    if graph.Err? {
      return Err(graph.error), [];
    }
    DependencyGraphMeaning(hooks);
    var levels;
    levels, depth := ComputeLevels(graph.value);
    if levels.Err? {
      return Err(levels.error), [];
    }
    return Ok(ExecutionPlan(levels.value)), depth;
  }
}
