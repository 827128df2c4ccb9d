/** The road graph: an adjacency map from node id to its list of outgoing edges, with the
    edits and the traversals that run over it. */
module RoadNetworks {
  import opened Types

  type Adjacency = map<int, seq<Edge>>

  /** The out-list of `u`, read as `adj[u]` does: an absent node has an empty list. */
  function Out(adj: Adjacency, u: int): seq<Edge>
  {
    if u in adj then adj[u] else []
  }

  /** The position of the first edge to `to`, or `|es|` when there is none. */
  function FirstTo(es: seq<Edge>, to: int): (r: nat)
    ensures r <= |es|
    ensures forall i :: 0 <= i < r ==> es[i].to != to
    ensures r < |es| ==> es[r].to == to
  {
    if es == [] then 0
    else if es[0].to == to then 0
    else 1 + FirstTo(es[1..], to)
  }

  /** The list after update_edge_weight: the first edge to `to` carries weight `w`. */
  function Reweighted(es: seq<Edge>, to: int, w: int): seq<Edge>
  {
    var i := FirstTo(es, to);
    if i < |es| then es[i := es[i].(weight := w)] else es
  }

  /** The list after remove_edge: the first edge to `to` is gone. */
  function WithoutFirst(es: seq<Edge>, to: int): seq<Edge>
  {
    var i := FirstTo(es, to);
    if i < |es| then es[..i] + es[i + 1..] else es
  }

  /** Reweighting changes only the weight of the first matching edge: every edge keeps its
      target and base weight, and every other edge is unchanged. */
  lemma ReweightedChangesOneWeight(es: seq<Edge>, to: int, w: int)
    ensures var r := Reweighted(es, to, w);
            && |r| == |es|
            && (forall i :: 0 <= i < |es| ==> r[i].to == es[i].to && r[i].baseWeight == es[i].baseWeight)
            && (forall i :: 0 <= i < |es| && i != FirstTo(es, to) ==> r[i] == es[i])
            && (FirstTo(es, to) < |es| ==> r[FirstTo(es, to)].weight == w)
            && ((forall i :: 0 <= i < |es| ==> es[i].to != to) ==> r == es)
  {
  }

  /** Removing takes out exactly one edge when some edge goes to `to`, none otherwise. */
  lemma WithoutFirstRemovesOne(es: seq<Edge>, to: int)
    ensures var r := WithoutFirst(es, to);
            && (FirstTo(es, to) < |es| ==> |r| == |es| - 1 && multiset(r) + multiset{es[FirstTo(es, to)]} == multiset(es))
            && (FirstTo(es, to) == |es| ==> r == es)
  {
    var i := FirstTo(es, to);
    if i < |es| {
      RemoveAt(es, i);
    }
  }

  /** Cutting out the element at `i` takes exactly that element away. */
  lemma RemoveAt<T>(s: seq<T>, i: nat)
    requires i < |s|
    ensures |s[..i] + s[i + 1..]| == |s| - 1
    ensures multiset(s[..i] + s[i + 1..]) + multiset{s[i]} == multiset(s)
  {
    assert s == s[..i] + [s[i]] + s[i + 1..];
  }

  /** Adding an edge to a node that had none to `to` and removing it again restores the list. */
  lemma {:induction false} RemoveUndoesAdd(es: seq<Edge>, to: int, w: int)
    requires forall i :: 0 <= i < |es| ==> es[i].to != to
    ensures WithoutFirst(es + [Edge(to, w, w)], to) == es
  {
    var s := es + [Edge(to, w, w)];
    FirstToAppend(es, to, w);
    assert s[..|es|] == es;
  }

  lemma {:induction false} FirstToAppend(es: seq<Edge>, to: int, w: int)
    requires forall i :: 0 <= i < |es| ==> es[i].to != to
    ensures FirstTo(es + [Edge(to, w, w)], to) == |es|
  {
    if es != [] {
      assert (es + [Edge(to, w, w)])[1..] == es[1..] + [Edge(to, w, w)];
      FirstToAppend(es[1..], to, w);
    }
  }

  /** Every edge weight is non-negative. */
  ghost predicate NonNegative(adj: Adjacency)
  {
    forall u, e :: u in adj && e in adj[u] ==> e.weight >= 0
  }

  /** There is an edge from `a` to `b`. */
  ghost predicate HasEdge(adj: Adjacency, a: int, b: int)
  {
    a in adj && exists e :: e in adj[a] && e.to == b
  }

  /** `p` is a non-empty node sequence along edges. */
  ghost predicate IsPath(adj: Adjacency, p: seq<int>)
  {
    |p| > 0 && forall k :: 0 <= k < |p| - 1 ==> HasEdge(adj, p[k], p[k + 1])
  }

  /** Lexicographic order on (cost, node) pairs, the order of `greater<pair<double,int>>`. */
  predicate PairLe(a: (int, int), b: (int, int))
  {
    a.0 < b.0 || (a.0 == b.0 && a.1 <= b.1)
  }

  /** The queue of Dijkstra's search: pops the least (cost, node) pair. */
  method PopMin(pq: seq<(int, int)>) returns (p: (int, int), rest: seq<(int, int)>)
    requires pq != []
    ensures p in pq && multiset(rest) + multiset{p} == multiset(pq) && |rest| == |pq| - 1
    ensures forall q :: q in pq ==> PairLe(p, q)
  {
    var best := 0;
    var i := 1;
    while i < |pq|
      invariant 0 <= best < |pq| && 1 <= i <= |pq|
      invariant forall j :: 0 <= j < i ==> PairLe(pq[best], pq[j])
    {
      if !PairLe(pq[best], pq[i]) {
        best := i;
      }
      i := i + 1;
    }
    p := pq[best];
    rest := pq[..best] + pq[best + 1..];
    assert pq == pq[..best] + [pq[best]] + pq[best + 1..];
  }

  /** The nodes the edges of `es` lead to. */
  function Targets(es: seq<Edge>): (r: set<int>)
    ensures forall e :: e in es ==> e.to in r
    ensures forall v :: v in r ==> exists e :: e in es && e.to == v
  {
    set e | e in es :: e.to
  }

  /** Taking one more edge adds its target. */
  lemma TargetsStep(es: seq<Edge>, i: nat)
    requires i < |es|
    ensures Targets(es[..i + 1]) == Targets(es[..i]) + {es[i].to}
  {
    assert es[..i + 1] == es[..i] + [es[i]];
  }

  /** The distance map as `dist[v]` reads it: a missing entry counts as 0. */
  function DistOf(dist: map<int, int>, v: int): int
  {
    if v in dist then dist[v] else 0
  }

  /** What dijkstra returns: `Some(path)`, or `None` when `adj.at` throws. With a missing
      distance read as 0 and non-negative weights no edge is ever relaxed, so the only path
      found is the trivial one. */
  function DijkstraResult(adj: Adjacency, start: int, goal: int): Option<seq<int>>
  {
    if start == goal then Some([start])
    else if start in adj then Some([])
    else None
  }

  /** The path recovered from `prev` by walking back from `goal`: predecessors recorded
      along edges give a path along edges. */
  ghost predicate EndsChain(prev: map<int, int>, start: int, at: int, fuel: nat)
    decreases fuel
  {
    at == start || at !in prev || (fuel > 0 && EndsChain(prev, start, prev[at], fuel - 1))
  }

  function Reverse(s: seq<int>): (r: seq<int>)
    ensures |r| == |s| && forall i :: 0 <= i < |s| ==> r[i] == s[|s| - 1 - i]
  {
    if s == [] then [] else Reverse(s[1..]) + [s[0]]
  }


  /** `p` starts at `s` and ends at `v`. */
  ghost predicate Reach(adj: Adjacency, s: int, v: int)
  {
    exists p {:trigger IsPath(adj, p)} :: IsPath(adj, p) && p[0] == s && p[|p| - 1] == v
  }

  lemma ReachSelf(adj: Adjacency, s: int)
    ensures Reach(adj, s, s)
  {
    assert IsPath(adj, [s]);
  }

  lemma ReachStep(adj: Adjacency, s: int, u: int, v: int)
    requires Reach(adj, s, u) && HasEdge(adj, u, v)
    ensures Reach(adj, s, v)
  {
    var p :| IsPath(adj, p) && p[0] == s && p[|p| - 1] == u;
    assert IsPath(adj, p + [v]);
  }

  lemma ReachPrepend(adj: Adjacency, s: int, t: int, v: int)
    requires HasEdge(adj, s, t) && Reach(adj, t, v)
    ensures Reach(adj, s, v)
  {
    var p :| IsPath(adj, p) && p[0] == t && p[|p| - 1] == v;
    assert IsPath(adj, [s] + p);
  }

  /** `b` keeps every mark of `a`. */
  ghost predicate Grown(a: seq<bool>, b: seq<bool>)
  {
    |a| == |b| && forall v :: 0 <= v < |a| && a[v] ==> b[v]
  }

  /** Every edge out of `u` leads to a marked node. */
  ghost predicate Expanded(adj: Adjacency, vis: seq<bool>, u: int)
  {
    forall e :: u in adj && e in adj[u] ==> 0 <= e.to < |vis| && vis[e.to]
  }

  /** Every node marked in `b` and not in `a` is reachable from `s`. */
  ghost predicate NewReachable(adj: Adjacency, s: int, a: seq<bool>, b: seq<bool>)
  {
    forall v :: 0 <= v < |a| && v < |b| && b[v] && !a[v] ==> Reach(adj, s, v)
  }

  /** Every node marked in `b` and not in `a`, other than `except`, is expanded in `b`. */
  ghost predicate NewExpanded(adj: Adjacency, a: seq<bool>, b: seq<bool>, except: int)
  {
    forall v :: 0 <= v < |a| && v < |b| && b[v] && !a[v] && v != except ==> Expanded(adj, b, v)
  }

  /** Every marked node is expanded: the marks are closed under the edges. */
  ghost predicate Closed(adj: Adjacency, vis: seq<bool>)
  {
    forall u :: 0 <= u < |vis| && vis[u] ==> Expanded(adj, vis, u)
  }

  lemma ExpandedGrows(adj: Adjacency, a: seq<bool>, b: seq<bool>, u: int)
    requires Expanded(adj, a, u) && Grown(a, b)
    ensures Expanded(adj, b, u)
  {
  }

  /** `v` is reachable from some node of `roots`. */
  ghost predicate ReachedFrom(adj: Adjacency, roots: seq<int>, v: int)
  {
    exists k :: 0 <= k < |roots| && Reach(adj, roots[k], v)
  }

  lemma ReachedFromMore(adj: Adjacency, roots: seq<int>, node: int, v: int)
    requires ReachedFrom(adj, roots, v)
    ensures ReachedFrom(adj, roots + [node], v)
  {
    var k :| 0 <= k < |roots| && Reach(adj, roots[k], v);
    assert (roots + [node])[k] == roots[k];
  }

  /** The state of topological_sort: every root is a marked node with a list, every mark
      is reached from a root, and no root reaches a later one (so no root repeats). */
  ghost predicate Rooted(adj: Adjacency, roots: seq<int>, vis: seq<bool>)
  {
    && (forall k :: 0 <= k < |roots| ==> roots[k] in adj && 0 <= roots[k] < |vis| && vis[roots[k]])
    && (forall v {:trigger ReachedFrom(adj, roots, v)} :: 0 <= v < |vis| && vis[v] ==> ReachedFrom(adj, roots, v))
    && (forall k, l :: 0 <= k < l < |roots| ==> roots[k] != roots[l] && !Reach(adj, roots[k], roots[l]))
  }

  /** A search from an unmarked `node` over closed marks makes `node` the next root. */
  lemma NewRoot(adj: Adjacency, roots: seq<int>, node: int, before: seq<bool>, after: seq<bool>)
    requires Rooted(adj, roots, before) && Closed(adj, before)
    requires Grown(before, after) && NewReachable(adj, node, before, after)
    requires node in adj && 0 <= node < |before| && !before[node] && after[node]
    ensures Rooted(adj, roots + [node], after)
  {
    var r := roots + [node];
    forall k | 0 <= k < |roots| ensures roots[k] != node && !Reach(adj, roots[k], node) {
      if Reach(adj, roots[k], node) {
        ClosedMarksContainReach(adj, before, roots[k], node);
      }
    }
    forall k | 0 <= k < |r| ensures r[k] in adj && 0 <= r[k] < |after| && after[r[k]] {
      if k < |roots| {
        assert r[k] == roots[k];
      }
    }
    forall v | 0 <= v < |after| && after[v] ensures ReachedFrom(adj, r, v) {
      if before[v] {
        ReachedFromMore(adj, roots, node, v);
      } else {
        assert r[|r| - 1] == node;
      }
    }
    forall k, l | 0 <= k < l < |r| ensures r[k] != r[l] && !Reach(adj, r[k], r[l]) {
      assert r[k] == roots[k];
      if l < |roots| {
        assert r[l] == roots[l];
      }
    }
  }

  /** The roots reversed: what topological_sort returns once every node with a list is marked. */
  lemma RootsReversed(adj: Adjacency, roots: seq<int>, vis: seq<bool>)
    requires Rooted(adj, roots, vis) && forall u :: u in adj ==> 0 <= u < |vis| && vis[u]
    ensures var order := Reverse(roots);
            && (forall i, j :: 0 <= i < j < |order| ==> order[i] != order[j])
            && (forall i :: 0 <= i < |order| ==> order[i] in adj)
            && (forall u :: u in adj ==> ReachedFrom(adj, order, u))
            && (forall i, j :: 0 <= i < j < |order| ==> !Reach(adj, order[j], order[i]))
  {
    ReversedApart(adj, roots);
    ReversedCovers(adj, roots, vis);
  }

  /** Reversing the roots turns "no earlier root reaches a later one" into "no later root
      reaches an earlier one". */
  lemma ReversedApart(adj: Adjacency, roots: seq<int>)
    requires forall k, l :: 0 <= k < l < |roots| ==> roots[k] != roots[l] && !Reach(adj, roots[k], roots[l])
    ensures var order := Reverse(roots);
            forall i, j :: 0 <= i < j < |order| ==> order[i] != order[j] && !Reach(adj, order[j], order[i])
  {
    var order := Reverse(roots);
    var m := |roots|;
    forall i, j | 0 <= i < j < m ensures order[i] != order[j] && !Reach(adj, order[j], order[i]) {
      assert order[i] == roots[m - 1 - i] && order[j] == roots[m - 1 - j];
    }
  }

  /** Every node that some root reaches is reached from some root of the reversed list. */
  lemma ReversedCovers(adj: Adjacency, roots: seq<int>, vis: seq<bool>)
    requires Rooted(adj, roots, vis) && forall u :: u in adj ==> 0 <= u < |vis| && vis[u]
    ensures var order := Reverse(roots);
            && (forall i :: 0 <= i < |order| ==> order[i] in adj)
            && (forall u :: u in adj ==> ReachedFrom(adj, order, u))
  {
    var order := Reverse(roots);
    var m := |roots|;
    forall u | u in adj ensures ReachedFrom(adj, order, u) {
      assert vis[u] && ReachedFrom(adj, roots, u);
      var k :| 0 <= k < m && Reach(adj, roots[k], u);
      assert order[m - 1 - k] == roots[k];
    }
  }


  /** What bfs and dfs leave behind when the marks they start from are closed: exactly the
      old marks and every node reachable from the start. */
  lemma SearchMarksReach(adj: Adjacency, s: int, before: seq<bool>, after: seq<bool>)
    requires Closed(adj, before) && Grown(before, after)
    requires 0 <= s < |after| && after[s] && Expanded(adj, after, s)
    requires NewExpanded(adj, before, after, s) && NewReachable(adj, s, before, after)
    ensures forall v :: Reach(adj, s, v) ==> 0 <= v < |after| && after[v]
    ensures forall v :: 0 <= v < |after| ==> (after[v] <==> before[v] || Reach(adj, s, v))
  {
    SearchKeepsClosed(adj, s, before, after);
    forall v | Reach(adj, s, v) ensures 0 <= v < |after| && after[v] {
      ClosedMarksContainReach(adj, after, s, v);
    }
  }

  /** A union-find forest over `parent`: every entry's parent is an entry, and a parent
      other than the entry itself has a larger rank. The ghost ranks, at most `bound`,
      only bound the depth of the trees. */
  ghost predicate Forest(parent: map<int, int>, rank: map<int, int>, bound: int)
  {
    parent.Keys == rank.Keys &&
    forall z {:trigger parent[z]} :: z in parent ==> parent[z] in parent && rank[z] <= bound && (parent[z] != z ==> rank[z] < rank[parent[z]])
  }

  /** The root of `x`'s tree: the entry reached by following parents until one is its own. */
  ghost function Root(parent: map<int, int>, rank: map<int, int>, bound: int, x: int): (r: int)
    requires Forest(parent, rank, bound) && x in parent
    ensures r in parent && parent[r] == r && rank[r] >= rank[x]
    decreases bound - rank[x]
  {
    if parent[x] == x then x else Root(parent, rank, bound, parent[x])
  }

  /** What `find` returns for `x`: the root of `x`'s tree. A missing `x` is inserted under
      0, so it gets 0's root, and 0 is inserted as its own root when it is missing too. */
  ghost function FoundRoot(parent: map<int, int>, rank: map<int, int>, bound: int, x: int): int
    requires Forest(parent, rank, bound)
  {
    if x in parent then Root(parent, rank, bound, x)
    else if 0 in parent then Root(parent, rank, bound, 0)
    else 0
  }

  /** The entries that are not roots. */
  ghost function NonRoots(parent: map<int, int>): set<int>
  {
    set z | z in parent && parent[z] != z
  }

  /** A forest with a non-root entry also has a root, so fewer non-roots than entries. */
  lemma FewerNonRoots(parent: map<int, int>, rank: map<int, int>, bound: int)
    requires Forest(parent, rank, bound)
    ensures NonRoots(parent) != {} ==> |NonRoots(parent)| < |parent.Keys|
  {
    if NonRoots(parent) != {} {
      var z :| z in NonRoots(parent);
      var r := Root(parent, rank, bound, z);
      assert NonRoots(parent) <= parent.Keys - {r};
      SubsetSize(NonRoots(parent), parent.Keys - {r});
    }
  }

  lemma SubsetSize(a: set<int>, b: set<int>)
    requires a <= b
    ensures |a| <= |b|
  {
    var d := b - a;
    assert a + d == b;
    assert a * d == {};
  }

  /** One `find` changes no answer a later `find` gives: what it leaves behind, for every
      `z`, is what it found before. */
  lemma FindKeepsFound(parent: map<int, int>, rank: map<int, int>, bound: int,
                       parent': map<int, int>, rank': map<int, int>, x: int, z: int)
    requires Forest(parent, rank, bound) && Forest(parent', rank', bound)
    requires forall y :: y in parent' <==> y in parent || y == x || (x !in parent && y == 0)
    requires forall y {:trigger Root(parent', rank', bound, y)} :: y in parent ==> Root(parent', rank', bound, y) == Root(parent, rank, bound, y)
    requires Root(parent', rank', bound, x) == FoundRoot(parent, rank, bound, x)
    requires x !in parent && 0 !in parent ==> Root(parent', rank', bound, 0) == 0
    ensures FoundRoot(parent', rank', bound, z) == FoundRoot(parent, rank, bound, z)
  {
    if z !in parent && z in parent' && z != x {
      assert z == 0;
    }
  }

  /** Pointing `x` straight at its root keeps the forest and every entry's root. */
  lemma {:induction false} CompressKeepsRoot(parent: map<int, int>, rank: map<int, int>, bound: int, x: int, z: int)
    requires Forest(parent, rank, bound) && x in parent && z in parent
    requires Forest(parent[x := Root(parent, rank, bound, x)], rank, bound)
    ensures Root(parent[x := Root(parent, rank, bound, x)], rank, bound, z) == Root(parent, rank, bound, z)
    decreases bound - rank[z]
  {
    var p' := parent[x := Root(parent, rank, bound, x)];
    if z != x && parent[z] != z {
      CompressKeepsRoot(parent, rank, bound, x, parent[z]);
    }
  }

  /** Adding a new entry `n` under `p` (or as its own root) keeps every old entry's root. */
  lemma {:induction false} AddEntryKeepsRoot(parent: map<int, int>, rank: map<int, int>, bound: int, n: int, p: int, k: int, z: int)
    requires Forest(parent, rank, bound) && n !in parent && z in parent
    requires Forest(parent[n := p], rank[n := k], bound)
    ensures Root(parent[n := p], rank[n := k], bound, z) == Root(parent, rank, bound, z)
    decreases bound - rank[z]
  {
    if parent[z] != z {
      AddEntryKeepsRoot(parent, rank, bound, n, p, k, parent[z]);
    }
  }

  /** A new entry `n` under `p`, or as its own root, keeps the forest and every old root. */
  lemma AddEntry(parent: map<int, int>, rank: map<int, int>, bound: int, n: int, p: int, k: int)
    requires Forest(parent, rank, bound) && n !in parent && k <= bound
    requires p == n || (p in parent && k < rank[p])
    ensures Forest(parent[n := p], rank[n := k], bound)
    ensures forall z {:trigger Root(parent[n := p], rank[n := k], bound, z)} :: z in parent ==> Root(parent[n := p], rank[n := k], bound, z) == Root(parent, rank, bound, z)
  {
    forall z {:trigger Root(parent[n := p], rank[n := k], bound, z)} | z in parent ensures Root(parent[n := p], rank[n := k], bound, z) == Root(parent, rank, bound, z) {
      AddEntryKeepsRoot(parent, rank, bound, n, p, k, z);
    }
  }

  /** Path compression at `x` keeps the forest and every root. */
  lemma Compress(parent: map<int, int>, rank: map<int, int>, bound: int, x: int)
    requires Forest(parent, rank, bound) && x in parent
    ensures Forest(parent[x := Root(parent, rank, bound, x)], rank, bound)
    ensures forall z {:trigger Root(parent[x := Root(parent, rank, bound, x)], rank, bound, z)} :: z in parent ==>
              Root(parent[x := Root(parent, rank, bound, x)], rank, bound, z) == Root(parent, rank, bound, z)
  {
    forall z {:trigger Root(parent[x := Root(parent, rank, bound, x)], rank, bound, z)} | z in parent
      ensures Root(parent[x := Root(parent, rank, bound, x)], rank, bound, z) == Root(parent, rank, bound, z)
    {
      CompressKeepsRoot(parent, rank, bound, x, z);
    }
  }

  /** Linking root `pu` under root `pv` sends every entry of `pu`'s tree to `pv`. */
  lemma {:induction false} LinkRoots(parent: map<int, int>, rank: map<int, int>, bound: int, pu: int, pv: int, rank': map<int, int>, bound': int, z: int)
    requires Forest(parent, rank, bound) && z in parent
    requires pu in parent && parent[pu] == pu && pv in parent && parent[pv] == pv && pu != pv
    requires Forest(parent[pu := pv], rank', bound')
    ensures Root(parent[pu := pv], rank', bound', z) ==
            (if Root(parent, rank, bound, z) == pu then pv else Root(parent, rank, bound, z))
    decreases bound - rank[z]
  {
    if parent[z] != z {
      LinkRoots(parent, rank, bound, pu, pv, rank', bound', parent[z]);
    }
  }

  /** Nodes `a` and `b` are the two ends of one of the pairs. */
  ghost predicate Joined(pairs: seq<(int, int)>, a: int, b: int)
  {
    exists m :: 0 <= m < |pairs| && (pairs[m] == (a, b) || pairs[m] == (b, a))
  }

  /** `p` is a chain of nodes, each joined to the next by one of the pairs. */
  ghost predicate Chain(pairs: seq<(int, int)>, p: seq<int>)
  {
    |p| > 0 && forall k :: 0 <= k < |p| - 1 ==> Joined(pairs, p[k], p[k + 1])
  }

  /** `x` and `y` are connected through the pairs, taken in either direction. */
  ghost predicate Linked(pairs: seq<(int, int)>, x: int, y: int)
  {
    exists p {:trigger Chain(pairs, p)} :: Chain(pairs, p) && p[0] == x && p[|p| - 1] == y
  }

  /** When both ends of every pair share a root, linked nodes share a root. */
  lemma {:induction false} LinkedShareRoot(parent: map<int, int>, rank: map<int, int>, bound: int, pairs: seq<(int, int)>, x: int, y: int)
    requires Forest(parent, rank, bound) && x in parent
    requires forall m :: 0 <= m < |pairs| ==>
               (pairs[m].0 in parent && pairs[m].1 in parent &&
                Root(parent, rank, bound, pairs[m].0) == Root(parent, rank, bound, pairs[m].1))
    requires Linked(pairs, x, y)
    ensures y in parent && Root(parent, rank, bound, y) == Root(parent, rank, bound, x)
  {
    var p: seq<int> :| Chain(pairs, p) && p[0] == x && p[|p| - 1] == y;
    var k := 0;
    while k < |p| - 1
      invariant 0 <= k <= |p| - 1 && p[k] in parent && Root(parent, rank, bound, p[k]) == Root(parent, rank, bound, x)
    {
      assert Joined(pairs, p[k], p[k + 1]);
      k := k + 1;
    }
  }

  /** Lexicographic order on (weight, from, to) triples, the order `sort` gives a tuple. */
  predicate TripleLe(a: (int, int, int), b: (int, int, int))
  {
    a.0 < b.0 || (a.0 == b.0 && (a.1 < b.1 || (a.1 == b.1 && a.2 <= b.2)))
  }

  lemma TripleLeTransitive(a: (int, int, int), b: (int, int, int), c: (int, int, int))
    requires TripleLe(a, b) && TripleLe(b, c)
    ensures TripleLe(a, c)
  {
  }

  /** `x` inserted into sorted `s` before the first element it does not follow. */
  function InsertTriple(s: seq<(int, int, int)>, x: (int, int, int)): (r: seq<(int, int, int)>)
    requires forall i, j :: 0 <= i < j < |s| ==> TripleLe(s[i], s[j])
    ensures multiset(r) == multiset(s) + multiset{x} && |r| == |s| + 1
    ensures forall i, j :: 0 <= i < j < |r| ==> TripleLe(r[i], r[j])
  {
    if s == [] then [x]
    else if TripleLe(x, s[0]) then
      FirstBelowAll(s, x);
      [x] + s
    else
      SortedTriplesTail(s);
      var t := InsertTriple(s[1..], x);
      HeadBelowInsertion(s, x, t);
      ConsTriples(s, x, t);
      [s[0]] + t
  }

  /** An element no later than the head of a sorted sequence is no later than any element. */
  lemma FirstBelowAll(s: seq<(int, int, int)>, x: (int, int, int))
    requires forall i, j :: 0 <= i < j < |s| ==> TripleLe(s[i], s[j])
    requires |s| > 0 && TripleLe(x, s[0])
    ensures forall j :: 0 <= j < |s| ==> TripleLe(x, s[j])
  {
    forall j | 0 <= j < |s| ensures TripleLe(x, s[j]) {
      if j > 0 {
        TripleLeTransitive(x, s[0], s[j]);
      }
    }
  }

  lemma SortedTriplesTail(s: seq<(int, int, int)>)
    requires forall i, j :: 0 <= i < j < |s| ==> TripleLe(s[i], s[j])
    requires |s| > 0
    ensures forall i, j :: 0 <= i < j < |s[1..]| ==> TripleLe(s[1..][i], s[1..][j])
  {
    forall i, j | 0 <= i < j < |s[1..]| ensures TripleLe(s[1..][i], s[1..][j]) {
      assert s[1..][i] == s[i + 1] && s[1..][j] == s[j + 1];
    }
  }

  /** The head of `s` put in front of `t` (its tail with `x` inserted) keeps the order and
      the multiset. */
  lemma ConsTriples(s: seq<(int, int, int)>, x: (int, int, int), t: seq<(int, int, int)>)
    requires |s| > 0 && multiset(t) == multiset(s[1..]) + multiset{x}
    requires forall i, j :: 0 <= i < j < |t| ==> TripleLe(t[i], t[j])
    requires forall j :: 0 <= j < |t| ==> TripleLe(s[0], t[j])
    ensures multiset([s[0]] + t) == multiset(s) + multiset{x}
    ensures forall i, j :: 0 <= i < j < |[s[0]] + t| ==> TripleLe(([s[0]] + t)[i], ([s[0]] + t)[j])
  {
    assert s == [s[0]] + s[1..];
    var r := [s[0]] + t;
    forall i, j | 0 <= i < j < |r| ensures TripleLe(r[i], r[j]) {
      if i == 0 {
        assert r[j] == t[j - 1];
      } else {
        assert r[i] == t[i - 1] && r[j] == t[j - 1];
      }
    }
  }

  /** The head of a sorted sequence is no later than anything in its tail with a later `x` inserted. */
  lemma HeadBelowInsertion(s: seq<(int, int, int)>, x: (int, int, int), t: seq<(int, int, int)>)
    requires forall i, j :: 0 <= i < j < |s| ==> TripleLe(s[i], s[j])
    requires |s| > 0 && !TripleLe(x, s[0]) && multiset(t) == multiset(s[1..]) + multiset{x}
    ensures forall j :: 0 <= j < |t| ==> TripleLe(s[0], t[j])
  {
    forall j | 0 <= j < |t| ensures TripleLe(s[0], t[j]) {
      assert t[j] in multiset(s[1..]) + multiset{x} by {
        assert t[j] in multiset(t);
      }
      if t[j] != x {
        var i :| 0 <= i < |s[1..]| && s[1..][i] == t[j];
        assert s[i + 1] == t[j];
      }
    }
  }

  /** Closed marks contain everything reachable from a mark. */
  lemma {:induction false} ClosedMarksContainReach(adj: Adjacency, vis: seq<bool>, s: int, v: int)
    requires 0 <= s < |vis| && vis[s] && Closed(adj, vis) && Reach(adj, s, v)
    ensures 0 <= v < |vis| && vis[v]
  {
    var p :| IsPath(adj, p) && p[0] == s && p[|p| - 1] == v;
    var k := 0;
    while k < |p| - 1
      invariant 0 <= k <= |p| - 1 && 0 <= p[k] < |vis| && vis[p[k]]
    {
      assert HasEdge(adj, p[k], p[k + 1]);
      assert Expanded(adj, vis, p[k]);
      k := k + 1;
    }
  }

  /** A search from `node` stays within reach of `node` and expands what it marks, after a
      nested search from its successor `t` that did the same from `t`. */
  lemma AfterChildSearch(adj: Adjacency, node: int, t: int, entry: seq<bool>, before: seq<bool>, after: seq<bool>)
    requires HasEdge(adj, node, t) && 0 <= node < |before| && before[node] && 0 <= t < |before| && !before[t]
    requires Grown(entry, before) && NewReachable(adj, node, entry, before) && NewExpanded(adj, entry, before, node)
    requires Grown(before, after) && NewReachable(adj, t, before, after) && NewExpanded(adj, before, after, t)
    requires Expanded(adj, after, t)
    ensures Grown(entry, after) && NewReachable(adj, node, entry, after) && NewExpanded(adj, entry, after, node)
  {
    forall v | 0 <= v < |entry| && v < |after| && after[v] && !entry[v] ensures Reach(adj, node, v) {
      if !before[v] {
        ReachPrepend(adj, node, t, v);
      }
    }
    forall v | 0 <= v < |entry| && v < |after| && after[v] && !entry[v] && v != node ensures Expanded(adj, after, v) {
      if before[v] {
        ExpandedGrows(adj, before, after, v);
      }
    }
  }

  /** A search from `node` that expands everything it marks keeps closed marks closed. */
  lemma SearchKeepsClosed(adj: Adjacency, node: int, before: seq<bool>, after: seq<bool>)
    requires Closed(adj, before) && Grown(before, after)
    requires NewExpanded(adj, before, after, node) && Expanded(adj, after, node)
    ensures Closed(adj, after)
  {
    forall u | 0 <= u < |after| && after[u] ensures Expanded(adj, after, u) {
      if before[u] {
        ExpandedGrows(adj, before, after, u);
      }
    }
  }

  /** The number of unmarked entries. */
  function CountFalse(s: seq<bool>): nat
  {
    if s == [] then 0 else (if s[0] then 0 else 1) + CountFalse(s[1..])
  }

  /** Marking more entries never adds unmarked ones, and marking a new one removes one. */
  lemma {:induction false} FewerUnmarked(s: seq<bool>, t: seq<bool>)
    requires |s| == |t| && forall i :: 0 <= i < |s| && s[i] ==> t[i]
    ensures CountFalse(t) <= CountFalse(s)
    ensures (exists i :: 0 <= i < |s| && !s[i] && t[i]) ==> CountFalse(t) < CountFalse(s)
  {
    if s != [] {
      FewerUnmarked(s[1..], t[1..]);
      if exists i :: 0 <= i < |s| && !s[i] && t[i] {
        var i :| 0 <= i < |s| && !s[i] && t[i];
        if i > 0 {
          assert !s[1..][i - 1] && t[1..][i - 1];
        }
      }
    }
  }

  /** Every node with a list is a valid index of a table of `n` entries. */
  ghost predicate KeysBelow(adj: Adjacency, n: int)
  {
    forall u :: u in adj ==> 0 <= u < n
  }

  /** Every edge leads to a valid index of a table of `n` entries. */
  ghost predicate TargetsBelow(adj: Adjacency, n: int)
  {
    forall u, e :: u in adj && e in adj[u] ==> 0 <= e.to < n
  }

  /** Every edge leads to a node with a list. */
  ghost predicate TargetsAreKeys(adj: Adjacency)
  {
    forall u, j :: u in adj && 0 <= j < |adj[u]| ==> adj[u][j].to in adj
  }

  /** From a node with a list, every reachable node has one too. */
  lemma {:induction false} ReachStaysInKeys(adj: Adjacency, s: int, v: int)
    requires TargetsAreKeys(adj) && s in adj && Reach(adj, s, v)
    ensures v in adj
  {
    var p :| IsPath(adj, p) && p[0] == s && p[|p| - 1] == v;
    var k := 0;
    while k < |p| - 1
      invariant 0 <= k <= |p| - 1 && p[k] in adj
    {
      assert HasEdge(adj, p[k], p[k + 1]);
      var e :| e in adj[p[k]] && e.to == p[k + 1];
      var j :| 0 <= j < |adj[p[k]]| && adj[p[k]][j] == e;
      k := k + 1;
    }
  }

  /** A distance of bellman_ford: a finite sum, or infinity. */
  datatype Dist = Inf | Fin(d: int)

  /** `a + w`, infinity absorbing. */
  function Plus(a: Dist, w: int): Dist
  {
    if a.Inf? then Inf else Fin(a.d + w)
  }

  /** `a < b` on distances. */
  predicate Less(a: Dist, b: Dist)
  {
    a.Fin? && (b.Inf? || a.d < b.d)
  }

  /** One step of a walk: the node left and the edge taken. */
  datatype Step = Step(from: int, edge: Edge)

  /** The node a walk from `start` ends at. */
  function WalkEnd(start: int, w: seq<Step>): int
  {
    if w == [] then start else w[|w| - 1].edge.to
  }

  /** `w` is a walk from `start` along edges of `adj` (edges may repeat). */
  ghost predicate IsWalk(adj: Adjacency, start: int, w: seq<Step>)
  {
    && (w != [] ==> w[0].from == start)
    && (forall k :: 0 <= k < |w| ==> w[k].from in adj && w[k].edge in adj[w[k].from])
    && (forall k :: 0 < k < |w| ==> w[k].from == w[k - 1].edge.to)
  }

  /** The sum of the weights along a walk. */
  function Cost(w: seq<Step>): int
  {
    if w == [] then 0 else Cost(w[..|w| - 1]) + w[|w| - 1].edge.weight
  }

  lemma WalkExtend(adj: Adjacency, start: int, w: seq<Step>, u: int, e: Edge)
    requires IsWalk(adj, start, w) && WalkEnd(start, w) == u && u in adj && e in adj[u]
    ensures IsWalk(adj, start, w + [Step(u, e)]) && WalkEnd(start, w + [Step(u, e)]) == e.to
    ensures Cost(w + [Step(u, e)]) == Cost(w) + e.weight
  {
    assert (w + [Step(u, e)])[..|w|] == w;
  }

  lemma WalkPrefix(adj: Adjacency, start: int, w: seq<Step>)
    requires IsWalk(adj, start, w) && w != []
    ensures IsWalk(adj, start, w[..|w| - 1]) && WalkEnd(start, w[..|w| - 1]) == w[|w| - 1].from
    ensures Cost(w) == Cost(w[..|w| - 1]) + w[|w| - 1].edge.weight
  {
  }

  /** `dist[v]` is finite and no more than the cost of `w`, for the end `v` of `w`. */
  ghost predicate Bounded(dist: seq<Dist>, start: int, w: seq<Step>)
  {
    var v := WalkEnd(start, w);
    0 <= v < |dist| && dist[v].Fin? && dist[v].d <= Cost(w)
  }

  /** The walks a round of relaxation has bounded so far: those of at most `i` edges, and
      those of `i + 1` edges whose last edge leaves a node of `done` or is one of the first
      `j` edges of `u`. */
  ghost predicate Bounds(adj: Adjacency, start: int, dist: seq<Dist>, i: nat, done: set<int>, u: int, j: nat)
  {
    forall w: seq<Step> :: IsWalk(adj, start, w) && (|w| <= i || (|w| == i + 1 && (w[i].from in done || (w[i].from == u && u in adj && j <= |adj[u]| && w[i].edge in adj[u][..j])))) ==>
      Bounded(dist, start, w)
  }

  /** `dist` after relaxing edge `e` out of `u`. */
  function Relaxed(dist: seq<Dist>, u: int, e: Edge): (r: seq<Dist>)
    requires 0 <= u < |dist| && 0 <= e.to < |dist|
    ensures |r| == |dist|
  {
    var cand := Plus(dist[u], e.weight);
    if Less(cand, dist[e.to]) then dist[e.to := cand] else dist
  }

  /** Relaxing the `j`-th edge of `u` keeps every bound and bounds the walks of `i + 1`
      edges that end with it. */
  lemma RelaxBounds(adj: Adjacency, start: int, dist: seq<Dist>, i: nat, done: set<int>, u: int, j: nat)
    requires u in adj && j < |adj[u]| && 0 <= u < |dist| && 0 <= adj[u][j].to < |dist|
    requires Bounds(adj, start, dist, i, done, u, j)
    ensures Bounds(adj, start, Relaxed(dist, u, adj[u][j]), i, done, u, j + 1)
  {
    var e := adj[u][j];
    var after := Relaxed(dist, u, e);
    assert adj[u][..j + 1] == adj[u][..j] + [e];
    forall w: seq<Step> | IsWalk(adj, start, w) && (|w| <= i || (|w| == i + 1 && (w[i].from in done || (w[i].from == u && w[i].edge in adj[u][..j + 1]))))
      ensures Bounded(after, start, w)
    {
      if |w| <= i || w[i].from in done || w[i].edge in adj[u][..j] {
        assert Bounded(dist, start, w);
      } else {
        WalkPrefix(adj, start, w);
        assert Bounded(dist, start, w[..i]);
      }
    }
  }

  /** Once all edges of `u` are relaxed, `u` counts as done. */
  lemma NodeRelaxed(adj: Adjacency, start: int, dist: seq<Dist>, i: nat, done: set<int>, u: int)
    requires u in adj && Bounds(adj, start, dist, i, done, u, |adj[u]|)
    ensures Bounds(adj, start, dist, i, done + {u}, start, 0)
  {
    assert adj[u][..|adj[u]|] == adj[u];
  }

  /** Relaxing edge `e` of `u` keeps every finite distance witnessed by a walk. */
  lemma RelaxWitnessed(adj: Adjacency, start: int, dist: seq<Dist>, wit: seq<seq<Step>>, u: int, e: Edge)
    requires u in adj && e in adj[u] && 0 <= u < |dist| && 0 <= e.to < |dist|
    requires Witnessed(adj, start, dist, wit) && Less(Plus(dist[u], e.weight), dist[e.to])
    ensures Witnessed(adj, start, dist[e.to := Plus(dist[u], e.weight)], wit[e.to := wit[u] + [Step(u, e)]])
  {
    WalkExtend(adj, start, wit[u], u, e);
  }

  /** Every finite distance is the cost of the walk recorded for it. */
  ghost predicate Witnessed(adj: Adjacency, start: int, dist: seq<Dist>, wit: seq<seq<Step>>)
  {
    |wit| == |dist| &&
    forall v :: 0 <= v < |dist| && dist[v].Fin? ==>
      IsWalk(adj, start, wit[v]) && WalkEnd(start, wit[v]) == v && Cost(wit[v]) == dist[v].d
  }

  class RoadNetwork {
    var adj: Adjacency

    constructor ()
      ensures adj == map[]
    {
      adj := map[];
    }

    /** Appends the edge `from -> to` with weight and base weight `w`. */
    method AddEdge(from: int, to: int, w: int)
      modifies this
      ensures adj == old(adj)[from := Out(old(adj), from) + [Edge(to, w, w)]]
    {
      adj := adj[from := Out(adj, from) + [Edge(to, w, w)]];
    }

    /** Sets the weight of the first edge `from -> to`; `adj[from]` is created empty when
        `from` has no list. */
    method UpdateEdgeWeight(from: int, to: int, w: int)
      modifies this
      ensures adj == old(adj)[from := Reweighted(Out(old(adj), from), to, w)]
    {
      var es := Out(adj, from);
      var i := 0;
      while i < |es|
        invariant 0 <= i <= |es| && adj == old(adj)
        invariant forall j :: 0 <= j < i ==> es[j].to != to
      {
        if es[i].to == to {
          adj := adj[from := es[i := es[i].(weight := w)]];
          return;
        }
        i := i + 1;
      }
      adj := adj[from := es];
    }

    /** Erases the first edge `from -> to`, reporting whether there was one; `adj[from]` is
        created empty when `from` has no list. */
    method RemoveEdge(from: int, to: int) returns (removed: bool)
      modifies this
      ensures removed <==> exists e :: e in Out(old(adj), from) && e.to == to
      ensures adj == old(adj)[from := WithoutFirst(Out(old(adj), from), to)]
    {
      var es := Out(adj, from);
      var i := 0;
      while i < |es|
        invariant 0 <= i <= |es| && adj == old(adj)
        invariant forall j :: 0 <= j < i ==> es[j].to != to
      {
        if es[i].to == to {
          adj := adj[from := es[..i] + es[i + 1..]];
          return true;
        }
        i := i + 1;
      }
      adj := adj[from := es];
      return false;
    }

    /** The search loop of dijkstra. `ok` is false when `adj.at(u)` throws for a popped node
        without a list. Reading `dist[e.to]` inserts a 0 entry for every target of `start`,
        and no edge relaxes, so `dist` ends with `start` and those targets at 0. */
    method DijkstraSearch(start: int, goal: int) returns (ok: bool, dist: map<int, int>, prev: map<int, int>)
      requires NonNegative(adj)
      ensures ok <==> start == goal || start in adj
      ensures dist.Keys == {start} + (if start != goal && start in adj then Targets(adj[start]) else {})
      ensures forall v :: v in dist ==> dist[v] == 0
      ensures prev == map[]
    {
      dist := map[start := 0];
      prev := map[];
      var pq: seq<(int, int)> := [(0, start)];
      ok := true;
      while pq != []
        invariant pq != [] ==> dist == map[start := 0]
        invariant pq == [] ==> start in adj && dist.Keys == {start} + Targets(adj[start]) && start != goal
        invariant forall v :: v in dist ==> dist[v] == 0
        invariant prev == map[]
        invariant forall q :: q in pq ==> q == (0, start)
        invariant |pq| <= 1
        invariant ok
        decreases |pq|
      {
        var top, rest := PopMin(pq);
        pq := rest;
        assert pq == [];
        var cost, u := top.0, top.1;
        if cost > DistOf(dist, u) {
          continue;
        }
        if u == goal {
          break;
        }
        if u !in adj {
          ok := false;
          return;
        }
        var es := adj[u];
        var i := 0;
        while i < |es|
          invariant 0 <= i <= |es|
          invariant dist.Keys == {start} + Targets(es[..i])
          invariant forall v :: v in dist ==> dist[v] == 0
          invariant prev == map[] && pq == []
        {
          var e := es[i];
          var alt := cost + e.weight;
          if e.to !in dist {
            dist := dist[e.to := 0];
          }
          if alt < dist[e.to] {
            dist := dist[e.to := alt];
            prev := prev[e.to := u];
            pq := pq + [(alt, e.to)];
          }
          TargetsStep(es, i);
          i := i + 1;
        }
        assert es[..|es|] == es;
      }
    }

    /** The reconstruction loop of dijkstra: walks `prev` back from `goal` to `start`; an
        empty path when the chain breaks. */
    method Reconstruct(prev: map<int, int>, start: int, goal: int, ghost fuel: nat) returns (path: seq<int>)
      requires EndsChain(prev, start, goal, fuel)
      requires forall v :: v in prev ==> HasEdge(adj, prev[v], v)
      ensures start == goal ==> path == [start]
      ensures start != goal && goal !in prev ==> path == []
      ensures path != [] ==> path[0] == start && path[|path| - 1] == goal && IsPath(adj, path)
    {
      var back: seq<int> := [];
      var at := goal;
      ghost var f := fuel;
      while at != start
        invariant EndsChain(prev, start, at, f)
        invariant back != [] ==> back[0] == goal && back[|back| - 1] in prev && prev[back[|back| - 1]] == at
        invariant back == [] ==> at == goal
        invariant start == goal ==> back == []
        invariant forall k :: 0 <= k < |back| - 1 ==> back[k] in prev && prev[back[k]] == back[k + 1]
        decreases f
      {
        back := back + [at];
        if at !in prev {
          return [];
        }
        at := prev[at];
        f := f - 1;
      }
      back := back + [start];
      path := Reverse(back);
      assert start == goal ==> back == [start];
      forall k | 0 <= k < |path| - 1 ensures HasEdge(adj, path[k], path[k + 1]) {
        var j := |back| - 2 - k;
        assert path[k] == back[j + 1] && path[k + 1] == back[j];
      }
    }

    /** dijkstra: the path found from `start` to `goal`, or `None` when the source throws. */
    method Dijkstra(start: int, goal: int) returns (r: Option<seq<int>>)
      requires NonNegative(adj)
      ensures r == DijkstraResult(adj, start, goal)
      ensures r.Some? && r.value != [] ==> r.value[0] == start && r.value[|r.value| - 1] == goal && IsPath(adj, r.value)
    {
      var ok, dist, prev := DijkstraSearch(start, goal);
      if !ok {
        return None;
      }
      var path := Reconstruct(prev, start, goal, 0);
      return Some(path);
    }

    /** bellman_ford: `|adj| - 1` rounds relaxing every edge, in the map's (unspecified)
        key order. Every finite distance is the cost of a walk from `start`, and every walk
        of fewer than `|adj|` edges costs at least the distance of its end. */
    method BellmanFord(start: int) returns (dist: seq<Dist>)
      requires 0 <= start < |adj| && KeysBelow(adj, |adj|) && TargetsBelow(adj, |adj|)
      ensures |dist| == |adj|
      ensures forall v :: 0 <= v < |dist| && dist[v].Fin? ==>
                exists w :: IsWalk(adj, start, w) && WalkEnd(start, w) == v && Cost(w) == dist[v].d
      ensures forall w: seq<Step> :: IsWalk(adj, start, w) && |w| < |adj| ==> Bounded(dist, start, w)
    {
      var n := |adj|;
      dist := seq(n, _ => Inf)[start := Fin(0)];
      ghost var wit: seq<seq<Step>> := seq(n, _ => []);
      var i := 0;
      while i < n - 1
        invariant 0 <= i <= n - 1 && |dist| == n
        invariant Witnessed(adj, start, dist, wit)
        invariant Bounds(adj, start, dist, i, {}, start, 0)
      {
        dist, wit := RelaxRound(start, i, dist, wit);
        i := i + 1;
      }
      forall v | 0 <= v < |dist| && dist[v].Fin?
        ensures exists w :: IsWalk(adj, start, w) && WalkEnd(start, w) == v && Cost(w) == dist[v].d
      {
        assert IsWalk(adj, start, wit[v]) && WalkEnd(start, wit[v]) == v && Cost(wit[v]) == dist[v].d;
      }
    }

    /** One round of bellman_ford: afterwards walks of `i + 1` edges are bounded too. */
    method RelaxRound(start: int, i: nat, dist0: seq<Dist>, ghost wit0: seq<seq<Step>>)
      returns (dist: seq<Dist>, ghost wit: seq<seq<Step>>)
      requires |dist0| == |adj| && KeysBelow(adj, |adj|) && TargetsBelow(adj, |adj|)
      requires Witnessed(adj, start, dist0, wit0)
      requires Bounds(adj, start, dist0, i, {}, start, 0)
      ensures |dist| == |adj| && Witnessed(adj, start, dist, wit)
      ensures Bounds(adj, start, dist, i + 1, {}, start, 0)
    {
      dist, wit := dist0, wit0;
      var keys := adj.Keys;
      ghost var done: set<int> := {};
      while |keys| > 0
        invariant keys + done == adj.Keys && keys !! done
        invariant |dist| == |adj| && Witnessed(adj, start, dist, wit)
        invariant Bounds(adj, start, dist, i, done, start, 0)
        decreases keys
      {
        var u := PickKey(keys);
        dist, wit := RelaxEdgesOf(start, i, u, done, dist, wit);
        keys := keys - {u};
        done := done + {u};
      }
      forall w: seq<Step> | IsWalk(adj, start, w) && |w| <= i + 1 ensures Bounded(dist, start, w) {
        if |w| == i + 1 {
          assert w[i].from in done;
        }
      }
    }

    /** The inner loop of bellman_ford: relaxes each edge out of `u` in turn. */
    method RelaxEdgesOf(start: int, i: nat, u: int, ghost done: set<int>, dist0: seq<Dist>, ghost wit0: seq<seq<Step>>)
      returns (dist: seq<Dist>, ghost wit: seq<seq<Step>>)
      requires u in adj && |dist0| == |adj| && KeysBelow(adj, |adj|) && TargetsBelow(adj, |adj|)
      requires Witnessed(adj, start, dist0, wit0)
      requires Bounds(adj, start, dist0, i, done, start, 0)
      ensures |dist| == |adj| && Witnessed(adj, start, dist, wit)
      ensures Bounds(adj, start, dist, i, done + {u}, start, 0)
    {
      dist, wit := dist0, wit0;
      var es := adj[u];
      var j := 0;
      while j < |es|
        invariant 0 <= j <= |es| && |dist| == |adj| && Witnessed(adj, start, dist, wit)
        invariant Bounds(adj, start, dist, i, done, u, j)
      {
        RelaxBounds(adj, start, dist, i, done, u, j);
        var e := es[j];
        var cand := Plus(dist[u], e.weight);
        if Less(cand, dist[e.to]) {
          RelaxWitnessed(adj, start, dist, wit, u, e);
          dist := dist[e.to := cand];
          wit := wit[e.to := wit[u] + [Step(u, e)]];
        }
        j := j + 1;
      }
      NodeRelaxed(adj, start, dist, i, done, u);
    }

    /** bfs: marks `start` and, breadth first, every unmarked node reachable from it
        without passing through a node marked beforehand; every node it marks is expanded. */
    method Bfs(start: int, visited: array<bool>)
      requires start in adj && 0 <= start < visited.Length
      requires forall v :: Reach(adj, start, v) ==> v in adj && 0 <= v < visited.Length
      modifies visited
      ensures Grown(old(visited[..]), visited[..])
      ensures visited[start] && Expanded(adj, visited[..], start)
      ensures NewReachable(adj, start, old(visited[..]), visited[..])
      ensures NewExpanded(adj, old(visited[..]), visited[..], start)
    {
      var n := visited.Length;
      ghost var entry := visited[..];
      ReachSelf(adj, start);
      var q := [start];
      visited[start] := true;
      ghost var done: set<int> := {};
      while q != []
        invariant Grown(entry, visited[..]) && visited[start]
        invariant NewReachable(adj, start, entry, visited[..])
        invariant forall k :: 0 <= k < |q| ==> Reach(adj, start, q[k])
        invariant forall u :: u in done ==> Expanded(adj, visited[..], u)
        invariant forall v :: 0 <= v < n && (v == start || (visited[v] && !entry[v])) ==> v in done || v in q
        decreases CountFalse(visited[..]), |q|
      {
        var u := q[0];
        q := q[1..];
        ghost var marks := visited[..];
        ghost var q0 := q;
        q := ExpandInBfs(start, u, visited, q);
        FewerUnmarked(marks, visited[..]);
        forall x | x in done ensures Expanded(adj, visited[..], x) {
          ExpandedGrows(adj, marks, visited[..], x);
        }
        done := done + {u};
      }
    }

    /** The inner loop of bfs: marks and enqueues each unmarked successor of `u`. */
    method ExpandInBfs(start: int, u: int, visited: array<bool>, q0: seq<int>) returns (q: seq<int>)
      requires forall v :: Reach(adj, start, v) ==> v in adj && 0 <= v < visited.Length
      requires Reach(adj, start, u) && forall k :: 0 <= k < |q0| ==> Reach(adj, start, q0[k])
      modifies visited
      ensures Grown(old(visited[..]), visited[..]) && Expanded(adj, visited[..], u)
      ensures NewReachable(adj, start, old(visited[..]), visited[..])
      ensures forall k :: 0 <= k < |q| ==> Reach(adj, start, q[k])
      ensures forall v :: v in q0 ==> v in q
      ensures forall v :: 0 <= v < visited.Length && visited[v] && !old(visited[v]) ==> v in q
      ensures CountFalse(visited[..]) < CountFalse(old(visited[..])) || q == q0
    {
      var n := visited.Length;
      ghost var marks := visited[..];
      q := q0;
      var es := adj[u];
      var j := 0;
      while j < |es|
        invariant 0 <= j <= |es|
        invariant Grown(marks, visited[..])
        invariant NewReachable(adj, start, marks, visited[..])
        invariant forall k :: 0 <= k < |q| ==> Reach(adj, start, q[k])
        invariant forall v :: v in q0 ==> v in q
        invariant forall v :: 0 <= v < n && visited[v] && !marks[v] ==> v in q
        invariant forall e :: e in es[..j] ==> 0 <= e.to < n && visited[e.to]
        invariant CountFalse(visited[..]) < CountFalse(marks) || q == q0
      {
        var t := es[j].to;
        assert HasEdge(adj, u, t);
        ReachStep(adj, start, u, t);
        if !visited[t] {
          visited[t] := true;
          FewerUnmarked(marks, visited[..]);
          q := q + [t];
        }
        assert es[..j + 1] == es[..j] + [es[j]];
        j := j + 1;
      }
      assert es[..j] == es;
    }

    /** dfs: marks `node` and, depth first, every unmarked node reachable from it without
        passing through a node marked beforehand; every node it marks is expanded. */
    method Dfs(node: int, visited: array<bool>)
      requires node in adj && 0 <= node < visited.Length
      requires forall v :: Reach(adj, node, v) ==> v in adj && 0 <= v < visited.Length
      modifies visited
      ensures Grown(old(visited[..]), visited[..])
      ensures visited[node] && Expanded(adj, visited[..], node)
      ensures NewReachable(adj, node, old(visited[..]), visited[..])
      ensures NewExpanded(adj, old(visited[..]), visited[..], node)
      decreases CountFalse(visited[..]) + (if visited[node] then 1 else 0)
    {
      var n := visited.Length;
      ghost var entry := visited[..];
      ReachSelf(adj, node);
      visited[node] := true;
      FewerUnmarked(entry, visited[..]);
      var es := adj[node];
      var j := 0;
      while j < |es|
        invariant 0 <= j <= |es|
        invariant Grown(entry, visited[..]) && visited[node]
        invariant NewReachable(adj, node, entry, visited[..])
        invariant NewExpanded(adj, entry, visited[..], node)
        invariant forall e :: e in es[..j] ==> 0 <= e.to < n && visited[e.to]
        invariant CountFalse(visited[..]) < CountFalse(entry) + (if entry[node] then 1 else 0)
      {
        var t := es[j].to;
        assert HasEdge(adj, node, t);
        ReachStep(adj, node, node, t);
        if !visited[t] {
          forall v | Reach(adj, t, v) ensures v in adj && 0 <= v < n {
            ReachPrepend(adj, node, t, v);
          }
          ghost var before := visited[..];
          Dfs(t, visited);
          FewerUnmarked(before, visited[..]);
          AfterChildSearch(adj, node, t, entry, before, visited[..]);
        }
        assert es[..j + 1] == es[..j] + [es[j]];
        j := j + 1;
      }
      assert es[..j] == es;
    }

    /** topological_sort: the nodes a depth-first search starts from, in the map's
        (unspecified) key order, reversed. No listed node is reached from one listed after
        it, every node with a list is reached from a listed one, and none is listed twice. */
    method TopologicalSort() returns (order: seq<int>)
      requires KeysBelow(adj, |adj|) && TargetsAreKeys(adj)
      ensures forall i, j :: 0 <= i < j < |order| ==> order[i] != order[j]
      ensures forall i :: 0 <= i < |order| ==> order[i] in adj
      ensures forall u :: u in adj ==> ReachedFrom(adj, order, u)
      ensures forall i, j :: 0 <= i < j < |order| ==> !Reach(adj, order[j], order[i])
    {
      var n := |adj|;
      var visited := new bool[n](_ => false);
      var keys := adj.Keys;
      var roots: seq<int> := [];
      while |keys| > 0
        invariant keys <= adj.Keys
        invariant forall u :: u in adj && u !in keys ==> visited[u]
        invariant Closed(adj, visited[..]) && Rooted(adj, roots, visited[..])
        decreases keys
      {
        var node := PickKey(keys);
        if !visited[node] {
          AddRoot(node, visited, roots);
          roots := roots + [node];
        }
        keys := keys - {node};
      }
      order := Reverse(roots);
      RootsReversed(adj, roots, visited[..]);
    }

    /** One step of topological_sort: a search from an unmarked node, which becomes the
        next root. */
    method AddRoot(node: int, visited: array<bool>, roots: seq<int>)
      requires KeysBelow(adj, visited.Length) && TargetsAreKeys(adj)
      requires node in adj && !visited[node]
      requires Closed(adj, visited[..]) && Rooted(adj, roots, visited[..])
      modifies visited
      ensures Grown(old(visited[..]), visited[..]) && visited[node]
      ensures Closed(adj, visited[..]) && Rooted(adj, roots + [node], visited[..])
    {
      var n := visited.Length;
      forall v | Reach(adj, node, v) ensures v in adj && 0 <= v < n {
        ReachStaysInKeys(adj, node, v);
      }
      ghost var before := visited[..];
      Dfs(node, visited);
      SearchKeepsClosed(adj, node, before, visited[..]);
      NewRoot(adj, roots, node, before, visited[..]);
    }

    /** The edge list of kruskal_mst: one (weight, from, to) triple per edge, gathered in
        the map's (unspecified) key order. */
    method CollectEdges() returns (edges: seq<(int, int, int)>)
      ensures forall t :: t in edges ==> t.1 in adj && exists e :: e in adj[t.1] && e.to == t.2 && e.weight == t.0
      ensures forall u, e :: u in adj && e in adj[u] ==> (e.weight, u, e.to) in edges
    {
      edges := [];
      var keys := adj.Keys;
      while |keys| > 0
        invariant keys <= adj.Keys
        invariant forall t :: t in edges ==> t.1 in adj && exists e :: e in adj[t.1] && e.to == t.2 && e.weight == t.0
        invariant forall u, e :: u in adj && u !in keys && e in adj[u] ==> (e.weight, u, e.to) in edges
        decreases keys
      {
        var u := PickKey(keys);
        var es := adj[u];
        var j := 0;
        while j < |es|
          invariant 0 <= j <= |es|
          invariant forall t :: t in edges ==> t.1 in adj && exists e :: e in adj[t.1] && e.to == t.2 && e.weight == t.0
          invariant forall u', e :: u' in adj && u' !in keys && e in adj[u'] ==> (e.weight, u', e.to) in edges
          invariant forall e :: e in es[..j] ==> (e.weight, u, e.to) in edges
        {
          assert es[..j + 1] == es[..j] + [es[j]];
          edges := edges + [(es[j].weight, u, es[j].to)];
          j := j + 1;
        }
        assert es[..j] == es;
        keys := keys - {u};
      }
    }

    /** kruskal_mst: the edges in sorted order, each kept when its ends are in different
        trees of the union-find after `find`. Every pair kept is an edge, and no pair joins
        two nodes already connected by the pairs kept before it, so the pairs form a forest;
        hence there are fewer pairs than nodes the union-find holds. */
    method KruskalMst() returns (mst: seq<(int, int)>)
      ensures forall m :: 0 <= m < |mst| ==> HasEdge(adj, mst[m].0, mst[m].1)
      ensures forall m :: 0 <= m < |mst| ==> !Linked(mst[..m], mst[m].0, mst[m].1)
      ensures mst != [] ==> |mst| < |KruskalNodes(adj)|
    {
      var collected := CollectEdges();
      var edges := SortEdges(collected);
      var parent;
      ghost var rank;
      parent, rank := InitialParents();
      assert adj.Keys <= parent.Keys by {
        forall z | z in adj.Keys ensures z in parent.Keys {
          assert z in adj;
        }
      }
      assert parent.Keys <= adj.Keys by {
        forall z | z in parent.Keys ensures z in adj.Keys {
          assert z in parent;
        }
      }
      ghost var bound := 0;
      ghost var nodes := KruskalNodes(adj);
      mst := [];
      var k := 0;
      while k < |edges|
        invariant 0 <= k <= |edges| && Forest(parent, rank, bound) && SharedRoots(parent, rank, bound, mst)
        invariant forall m :: 0 <= m < |mst| ==> HasEdge(adj, mst[m].0, mst[m].1)
        invariant forall m :: 0 <= m < |mst| ==> !Linked(mst[..m], mst[m].0, mst[m].1)
        invariant adj.Keys <= parent.Keys && parent.Keys <= nodes
        invariant |mst| <= |NonRoots(parent)|
      {
        var u, v := edges[k].1, edges[k].2;
        assert edges[k] in multiset(collected);
        ghost var before, p0 := mst, parent;
        parent, rank, bound, mst := Unite(parent, rank, bound, mst, u, v);
        KeysStayIn(adj, p0, parent, u, v);
        ForestGrows(adj, before, mst, u, v);
        k := k + 1;
      }
      if mst != [] {
        FewerNonRoots(parent, rank, bound);
        SubsetSize(parent.Keys, nodes);
      }
    }

    /** The loop of kruskal_mst that sets every node with an entry in the map as its own
        parent, in the map's key order. */
    method InitialParents() returns (parent: map<int, int>, ghost rank: map<int, int>)
      ensures Forest(parent, rank, 0)
      ensures forall z :: z in parent <==> z in adj
      ensures forall z :: z in parent ==> parent[z] == z
    {
      parent, rank := map[], map[];
      var keys := adj.Keys;
      while |keys| > 0
        invariant keys <= adj.Keys && Forest(parent, rank, 0)
        invariant forall z :: z in parent <==> z in adj && z !in keys
        invariant forall z :: z in parent ==> parent[z] == z
        decreases keys
      {
        var u := PickKey(keys);
        parent, rank := parent[u := u], rank[u := 0];
        keys := keys - {u};
      }
    }
  }

  /** Both ends of every pair kept so far lie in one tree. */
  ghost predicate SharedRoots(parent: map<int, int>, rank: map<int, int>, bound: int, pairs: seq<(int, int)>)
  {
    Forest(parent, rank, bound) &&
    forall m :: 0 <= m < |pairs| ==>
      (pairs[m].0 in parent && pairs[m].1 in parent &&
       Root(parent, rank, bound, pairs[m].0) == Root(parent, rank, bound, pairs[m].1))
  }

  /** The nodes kruskal_mst's union-find can hold entries for: every node with an out-list,
      every edge's target, and 0 when some target has no out-list, since `find` puts such a
      target under 0. */
  ghost function KruskalNodes(adj: Adjacency): set<int>
  {
    var targets := set u, e | u in adj && e in adj[u] :: e.to;
    adj.Keys + targets + if targets <= adj.Keys then {} else {0}
  }

  /** Both ends of an edge are nodes of KruskalNodes, and 0 is one too when the target has
      no out-list. */
  lemma EdgeEndsAreNodes(adj: Adjacency, u: int, v: int)
    requires HasEdge(adj, u, v)
    ensures u in KruskalNodes(adj) && v in KruskalNodes(adj)
    ensures v !in adj ==> 0 in KruskalNodes(adj)
  {
    var e :| e in adj[u] && e.to == v;
    var targets := set u, e | u in adj && e in adj[u] :: e.to;
    assert v in targets;
  }

  /** Keeping the edge (u, v), whose ends were not yet linked, or nothing, keeps the kept
      pairs edges that each join two nodes not linked before. */
  lemma ForestGrows(adj: Adjacency, before: seq<(int, int)>, after: seq<(int, int)>, u: int, v: int)
    requires HasEdge(adj, u, v)
    requires forall m :: 0 <= m < |before| ==> HasEdge(adj, before[m].0, before[m].1)
    requires forall m :: 0 <= m < |before| ==> !Linked(before[..m], before[m].0, before[m].1)
    requires after == before || (after == before + [(u, v)] && !Linked(before, u, v))
    ensures forall m :: 0 <= m < |after| ==> HasEdge(adj, after[m].0, after[m].1)
    ensures forall m :: 0 <= m < |after| ==> !Linked(after[..m], after[m].0, after[m].1)
  {
    if after != before {
      forall m | 0 <= m < |before| ensures after[..m] == before[..m] {
      }
      assert after[..|before|] == before;
    }
  }

  /** The finds for an edge's ends add only nodes of KruskalNodes. */
  lemma KeysStayIn(adj: Adjacency, parent: map<int, int>, parent': map<int, int>, u: int, v: int)
    requires HasEdge(adj, u, v) && adj.Keys <= parent.Keys && parent.Keys <= KruskalNodes(adj)
    requires parent.Keys <= parent'.Keys
    requires parent'.Keys <= parent.Keys + {u, v} + if u in parent && v in parent then {} else {0}
    ensures adj.Keys <= parent'.Keys && parent'.Keys <= KruskalNodes(adj)
  {
    EdgeEndsAreNodes(adj, u, v);
  }

  /** One step of kruskal_mst: find both ends and, when their roots differ, hang the first
      root under the second and keep the pair. A pair is kept exactly when the two finds
      return different roots, and then its ends were not yet connected by the pairs kept
      before; the converse fails, because an end missing from the map joins 0's tree. A kept
      pair turns one more entry into a non-root. */
  method Unite(parent: map<int, int>, ghost rank: map<int, int>, ghost bound: int, mst: seq<(int, int)>, u: int, v: int)
    returns (parent': map<int, int>, ghost rank': map<int, int>, ghost bound': int, mst': seq<(int, int)>)
    requires SharedRoots(parent, rank, bound, mst)
    ensures SharedRoots(parent', rank', bound', mst')
    ensures mst' == if FoundRoot(parent, rank, bound, u) != FoundRoot(parent, rank, bound, v) then mst + [(u, v)] else mst
    ensures mst' == mst || (mst' == mst + [(u, v)] && !Linked(mst, u, v))
    ensures parent.Keys <= parent'.Keys
    ensures parent'.Keys <= parent.Keys + {u, v} + if u in parent && v in parent then {} else {0}
    ensures |mst'| - |mst| <= |NonRoots(parent')| - |NonRoots(parent)|
  {
    var pu, pv;
    pu, parent', rank' := Find(parent, u, rank, bound);
    KeepShared(parent, rank, bound, parent', rank', mst);
    ghost var p1, r1 := parent', rank';
    FindKeepsFound(parent, rank, bound, p1, r1, u, v);
    pv, parent', rank' := Find(parent', v, rank', bound);
    KeepShared(p1, r1, bound, parent', rank', mst);
    assert pu == Root(parent', rank', bound, u);
    TwoFindsKeys(parent, p1, parent', u, v);
    SubsetSize(NonRoots(parent), NonRoots(p1));
    SubsetSize(NonRoots(p1), NonRoots(parent'));
    bound', mst' := bound, mst;
    if pu != pv {
      if Linked(mst, u, v) {
        LinkedShareRoot(parent', rank', bound, mst, u, v);
      }
      var p0 := parent';
      ghost var r0 := rank';
      bound' := if r0[pu] + 1 > bound then r0[pu] + 1 else bound;
      rank' := r0[pv := if r0[pu] + 1 > r0[pv] then r0[pu] + 1 else r0[pv]];
      parent' := p0[pu := pv];
      Link(p0, r0, bound, pu, pv, rank', bound', mst, u, v);
      LinkNonRoots(p0, pu, pv);
      mst' := mst + [(u, v)];
    }
  }

  /** Hanging root `pu` under another node keeps the entries and makes one more non-root. */
  lemma LinkNonRoots(p: map<int, int>, pu: int, pv: int)
    requires pu in p && p[pu] == pu && pu != pv
    ensures p[pu := pv].Keys == p.Keys
    ensures |NonRoots(p[pu := pv])| == |NonRoots(p)| + 1
  {
    assert NonRoots(p[pu := pv]) == NonRoots(p) + {pu};
  }

  /** The entries after a find for `u` and then one for `v`. */
  lemma TwoFindsKeys(p: map<int, int>, p1: map<int, int>, p2: map<int, int>, u: int, v: int)
    requires forall y :: y in p1 <==> y in p || y == u || (u !in p && y == 0)
    requires forall y :: y in p2 <==> y in p1 || y == v || (v !in p1 && y == 0)
    ensures p.Keys <= p2.Keys
    ensures p2.Keys <= p.Keys + {u, v} + if u in p && v in p then {} else {0}
  {
    forall y | y in p.Keys ensures y in p2.Keys {
      assert y in p1;
    }
    forall y | y in p2.Keys ensures y in p.Keys + {u, v} + if u in p && v in p then {} else {0} {
      assert y in p2;
    }
  }

  /** A change of the forest that keeps every old entry's root keeps the pairs' roots shared. */
  lemma KeepShared(parent: map<int, int>, rank: map<int, int>, bound: int, parent': map<int, int>, rank': map<int, int>, pairs: seq<(int, int)>)
    requires SharedRoots(parent, rank, bound, pairs) && Forest(parent', rank', bound)
    requires forall z :: z in parent ==> z in parent'
    requires forall z {:trigger Root(parent', rank', bound, z)} :: z in parent ==> Root(parent', rank', bound, z) == Root(parent, rank, bound, z)
    ensures SharedRoots(parent', rank', bound, pairs)
  {
    forall m | 0 <= m < |pairs| ensures Root(parent', rank', bound, pairs[m].0) == Root(parent', rank', bound, pairs[m].1) {
    }
  }

  /** Hanging root `pu` under root `pv` keeps the forest; with the pair (u, v) whose roots
      are `pu` and `pv` added, both ends of every pair still share a root. */
  lemma Link(parent: map<int, int>, rank: map<int, int>, bound: int, pu: int, pv: int, rank': map<int, int>, bound': int,
             pairs: seq<(int, int)>, u: int, v: int)
    requires SharedRoots(parent, rank, bound, pairs)
    requires pu in parent && parent[pu] == pu && pv in parent && parent[pv] == pv && pu != pv
    requires u in parent && v in parent && Root(parent, rank, bound, u) == pu && Root(parent, rank, bound, v) == pv
    requires bound' == (if rank[pu] + 1 > bound then rank[pu] + 1 else bound)
    requires rank' == rank[pv := if rank[pu] + 1 > rank[pv] then rank[pu] + 1 else rank[pv]]
    ensures SharedRoots(parent[pu := pv], rank', bound', pairs + [(u, v)])
  {
    var parent' := parent[pu := pv];
    assert Forest(parent', rank', bound') by {
      forall z | z in parent'
        ensures parent'[z] in parent' && rank'[z] <= bound' && (parent'[z] != z ==> rank'[z] < rank'[parent'[z]])
      {
        if z != pu {
          assert parent'[z] == parent[z];
        }
      }
    }
    var pairs' := pairs + [(u, v)];
    forall m | 0 <= m < |pairs'|
      ensures pairs'[m].0 in parent' && pairs'[m].1 in parent' &&
              Root(parent', rank', bound', pairs'[m].0) == Root(parent', rank', bound', pairs'[m].1)
    {
      var a, b := pairs'[m].0, pairs'[m].1;
      if m < |pairs| {
        assert pairs'[m] == pairs[m];
        assert a in parent && b in parent && Root(parent, rank, bound, a) == Root(parent, rank, bound, b);
      }
      LinkRoots(parent, rank, bound, pu, pv, rank', bound', a);
      LinkRoots(parent, rank, bound, pu, pv, rank', bound', b);
    }
  }

  /** `sort(edges)`: a sorted permutation of the triples. */
  method SortEdges(es: seq<(int, int, int)>) returns (r: seq<(int, int, int)>)
    ensures multiset(r) == multiset(es)
    ensures forall i, j :: 0 <= i < j < |r| ==> TripleLe(r[i], r[j])
  {
    r := [];
    var k := 0;
    while k < |es|
      invariant 0 <= k <= |es| && multiset(r) == multiset(es[..k])
      invariant forall i, j :: 0 <= i < j < |r| ==> TripleLe(r[i], r[j])
    {
      r := InsertTriple(r, es[k]);
      assert es[..k + 1] == es[..k] + [es[k]];
      k := k + 1;
    }
    assert es[..k] == es;
  }

  /** The `find` of kruskal_mst, with path compression. `parent[x]` on a missing entry
      inserts `x` with parent 0; for `x == 0` that is a new root, and otherwise `find(0)`
      follows, which inserts 0 as a root when it is missing too. */
  method Find(parent: map<int, int>, x: int, ghost rank: map<int, int>, ghost bound: int)
    returns (r: int, parent': map<int, int>, ghost rank': map<int, int>)
    requires Forest(parent, rank, bound)
    ensures Forest(parent', rank', bound) && x in parent'
    ensures forall z :: z in parent' <==> z in parent || z == x || (x !in parent && z == 0)
    ensures r == Root(parent', rank', bound, x)
    ensures forall z {:trigger Root(parent', rank', bound, z)} :: z in parent ==> Root(parent', rank', bound, z) == Root(parent, rank, bound, z)
    ensures r == FoundRoot(parent, rank, bound, x)
    ensures x !in parent && 0 !in parent ==> Root(parent', rank', bound, 0) == 0
    ensures NonRoots(parent) <= NonRoots(parent')
    decreases if x in parent then 0 else 1, if x in parent then bound - rank[x] else 0
  {
    if x !in parent {
      if x == 0 {
        AddEntry(parent, rank, bound, 0, 0, bound);
        return 0, parent[0 := 0], rank[0 := bound];
      }
      var p0 := parent;
      ghost var r0 := rank;
      if 0 !in p0 {
        AddEntry(parent, rank, bound, 0, 0, bound);
        p0, r0 := p0[0 := 0], r0[0 := bound];
      }
      var p1;
      ghost var r1;
      r, p1, r1 := Find(p0, 0, r0, bound);
      AddEntry(p1, r1, bound, x, r, r1[r] - 1);
      assert x !in p1 && r != x;
      assert NonRoots(parent) <= NonRoots(p0);
      assert NonRoots(p1) <= NonRoots(p1[x := r]);
      return r, p1[x := r], r1[x := r1[r] - 1];
    }
    if parent[x] == x {
      return x, parent, rank;
    }
    var p1;
    r, p1, rank' := Find(parent, parent[x], rank, bound);
    Compress(p1, rank', bound, x);
    parent' := p1[x := r];
  }
}
