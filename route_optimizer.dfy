/** Route planning over the road graph: the greedy nearest-stop route, the hop-count cost of
    a route, and the round-robin split of deliveries over vehicles. */
module RouteOptimizer {
  import opened Types
  import opened RoadNetworks

  /** The weight greedy_route charges for the hop from `u` to `v`: the weight of the first
      edge out of `u` that ends at `v`, or nothing when `u` has no entry or no such edge. */
  function HopWeight(adj: Adjacency, u: int, v: int): int
  {
    if u in adj && FirstTo(adj[u], v) < |adj[u]| then adj[u][FirstTo(adj[u], v)].weight else 0
  }

  /** The summed hop weights along `p`, added from the front. */
  function PathWeight(adj: Adjacency, p: seq<int>): int
    decreases |p|
  {
    if |p| <= 1 then 0 else PathWeight(adj, p[..|p| - 1]) + HopWeight(adj, p[|p| - 2], p[|p| - 1])
  }

  /** With non-negative weights a path never weighs less than nothing, and a single stop
      weighs nothing. */
  lemma {:induction false} PathWeightNonNegative(adj: Adjacency, p: seq<int>)
    requires NonNegative(adj)
    ensures PathWeight(adj, p) >= 0
    ensures |p| <= 1 ==> PathWeight(adj, p) == 0
    decreases |p|
  {
    if |p| > 1 {
      PathWeightNonNegative(adj, p[..|p| - 1]);
      var u, v := p[|p| - 2], p[|p| - 1];
      if u in adj && FirstTo(adj[u], v) < |adj[u]| {
        assert adj[u][FirstTo(adj[u], v)] in adj[u];
      }
    }
  }

  /** What greedy_route learns about one remaining stop: dijkstra throws, finds no path, or
      finds a path of the given weight. */
  datatype Leg = Throws | NoPath | Cost(weight: int)

  function LegOf(adj: Adjacency, current: int, d: int): Leg
  {
    match DijkstraResult(adj, current, d)
    case None => Throws
    case Some(p) => if p == [] then NoPath else Cost(PathWeight(adj, p))
  }

  /** With dijkstra as written, the only stop greedy_route can reach is the current node
      itself, at no cost; any other stop throws when the current node has no entry. */
  lemma LegsAsWritten(adj: Adjacency, current: int, d: int)
    requires NonNegative(adj)
    ensures LegOf(adj, current, d) == Cost(0) <==> d == current
    ensures LegOf(adj, current, d).Cost? <==> d == current
    ensures LegOf(adj, current, d) == Throws <==> d != current && current !in adj
  {
    if d == current {
      PathWeightNonNegative(adj, [current]);
    }
  }

  /** The outcome of one scan over the remaining stops: dijkstra threw, or `next` and
      `best` as the scan leaves them (-1 and the end position when nothing was reached). */
  datatype Scan = Thrown | Scanned(next: int, best: nat)

  /** The summed hop weights of `subpath`, as the loop of greedy_route adds them. */
  method SubpathCost(graph: RoadNetwork, subpath: seq<int>) returns (cost: int)
    requires |subpath| > 0
    ensures cost == PathWeight(graph.adj, subpath)
  {
    cost := 0;
    var k := 0;
    while k < |subpath| - 1
      invariant 0 <= k <= |subpath| - 1
      invariant cost == PathWeight(graph.adj, subpath[..k + 1])
    {
      var u, v := subpath[k], subpath[k + 1];
      assert subpath[..k + 2][..k + 1] == subpath[..k + 1];
      if u in graph.adj {
        var es := graph.adj[u];
        var j := 0;
        while j < |es| && es[j].to != v
          invariant 0 <= j <= |es| && forall i :: 0 <= i < j ==> es[i].to != v
        {
          j := j + 1;
        }
        if j < |es| {
          FirstToIs(es, v, j);
          cost := cost + es[j].weight;
        } else {
          FirstToIs(es, v, j);
        }
      }
      k := k + 1;
    }
    assert subpath[..k + 1] == subpath;
  }

  /** The first position whose edge ends at `v`, found by a scan, is the one `FirstTo` names. */
  lemma FirstToIs(es: seq<Edge>, v: int, j: nat)
    requires j <= |es| && (forall i :: 0 <= i < j ==> es[i].to != v) && (j < |es| ==> es[j].to == v)
    ensures FirstTo(es, v) == j
  {
  }

  /** The inner loop of greedy_route: a dijkstra from `current` to every remaining stop, in
      order. The first exception ends the scan; otherwise the stop chosen is the first one of
      least weight among those reached, because later ones must weigh strictly less. */
  method ChooseNext(graph: RoadNetwork, current: int, remaining: seq<int>) returns (s: Scan)
    requires NonNegative(graph.adj)
    ensures ScanOutcome(graph.adj, current, remaining, s)
  {
    var best := |remaining|;
    var next := -1;
    var minCost: Option<int> := None;
    var j := 0;
    while j < |remaining|
      invariant 0 <= j <= |remaining|
      invariant forall i :: 0 <= i < j ==> LegOf(graph.adj, current, remaining[i]) != Throws
      invariant 0 <= best <= |remaining|
      invariant best == |remaining| ==>
                  (next == -1 && minCost == None && forall i :: 0 <= i < j ==> LegOf(graph.adj, current, remaining[i]) == NoPath)
      invariant best < |remaining| ==>
                  && best < j && next == remaining[best] && minCost.Some?
                  && LegOf(graph.adj, current, remaining[best]) == Cost(minCost.value)
                  && (forall i :: 0 <= i < best ==> LessCostly(graph.adj, current, remaining[best], remaining[i]))
                  && (forall i :: best < i < j ==> NoCheaper(graph.adj, current, remaining[best], remaining[i]))
    {
      var d := remaining[j];
      var sub := graph.Dijkstra(current, d);
      if sub.None? {
        return Thrown;
      }
      if sub.value != [] {
        var cost := SubpathCost(graph, sub.value);
        if minCost.None? || cost < minCost.value {
          minCost, next, best := Some(cost), d, j;
        }
      }
      j := j + 1;
    }
    return Scanned(next, best);
  }

  /** What one scan over the remaining stops yields: `Thrown` exactly when some stop throws;
      otherwise either nothing was reached (`next` is -1, `best` is the end) or `best` is the
      position of the stop taken, reached, strictly cheaper than every stop before it and no
      dearer than every stop after it. */
  ghost predicate ScanOutcome(adj: Adjacency, current: int, remaining: seq<int>, s: Scan)
  {
    && (s == Thrown <==> exists j :: 0 <= j < |remaining| && LegOf(adj, current, remaining[j]) == Throws)
    && (s.Scanned? ==> s.best <= |remaining|)
    && (s.Scanned? && s.best == |remaining| ==>
          s.next == -1 && forall j :: 0 <= j < |remaining| ==> LegOf(adj, current, remaining[j]) == NoPath)
    && (s.Scanned? && s.best < |remaining| ==>
          && s.next == remaining[s.best]
          && LegOf(adj, current, remaining[s.best]).Cost?
          && (forall j :: 0 <= j < s.best ==> LessCostly(adj, current, remaining[s.best], remaining[j]))
          && (forall j :: s.best < j < |remaining| ==> NoCheaper(adj, current, remaining[s.best], remaining[j])))
  }

  /** With dijkstra as written a scan either throws, because the current node has no entry
      and some stop differs from it, or takes the first stop equal to the current node. */
  lemma ScanAsWritten(adj: Adjacency, current: int, remaining: seq<int>, s: Scan)
    requires NonNegative(adj) && ScanOutcome(adj, current, remaining, s)
    ensures s == Thrown ==> current !in adj && exists j :: 0 <= j < |remaining| && remaining[j] != current
    ensures s.Scanned? && current !in adj ==> forall j :: 0 <= j < |remaining| ==> remaining[j] == current
    ensures s.Scanned? && s.next == -1 && current != -1 ==> current !in multiset(remaining)
    ensures s.Scanned? && s.next != -1 ==> s.best < |remaining| && remaining[s.best] == current == s.next
  {
    forall j | 0 <= j < |remaining| ensures (LegOf(adj, current, remaining[j]) == Throws <==> remaining[j] != current && current !in adj) && (LegOf(adj, current, remaining[j]).Cost? <==> remaining[j] == current) {
      LegsAsWritten(adj, current, remaining[j]);
    }
    if s == Thrown {
      var j :| 0 <= j < |remaining| && LegOf(adj, current, remaining[j]) == Throws;
    }
    if s.Scanned? && s.next == -1 && current != -1 {
      forall j | 0 <= j < |remaining| ensures remaining[j] != current {
        assert LegOf(adj, current, remaining[j]) == NoPath;
      }
    }
  }

  /** Stop `d` was reached and weighs strictly less than stop `e`, or `e` was not reached. */
  ghost predicate LessCostly(adj: Adjacency, current: int, d: int, e: int)
  {
    LegOf(adj, current, e) == NoPath || (LegOf(adj, current, e).Cost? && LegOf(adj, current, d).Cost? &&
      LegOf(adj, current, d).weight < LegOf(adj, current, e).weight)
  }

  /** Stop `e` was not reached, or weighs no less than stop `d`. */
  ghost predicate NoCheaper(adj: Adjacency, current: int, d: int, e: int)
  {
    LegOf(adj, current, e) == NoPath || (LegOf(adj, current, e).Cost? && LegOf(adj, current, d).Cost? &&
      LegOf(adj, current, d).weight <= LegOf(adj, current, e).weight)
  }

  /** greedy_route: from `start`, repeatedly move to the cheapest remaining stop and strike
      it off, until none is left or none is reached; `None` when a dijkstra throws. The route
      starts at `start` and uses each destination occurrence at most once. Because dijkstra
      as written only ever reaches the node it starts from, the route stays at `start`: it
      is `start` once for itself and once for every occurrence of `start` among the stops
      (just once when `start` is the -1 the loop reads as "nothing found"), and it throws
      exactly when `start` has no entry and some stop differs from it. */
  method GreedyRoute(graph: RoadNetwork, start: int, destinations: seq<int>) returns (r: Option<seq<int>>)
    requires NonNegative(graph.adj)
    ensures r.Some? ==> |r.value| >= 1 && r.value[0] == start
    ensures r.Some? ==> multiset(r.value[1..]) <= multiset(destinations) && |r.value| <= 1 + |destinations|
    ensures r.None? <==> start !in graph.adj && exists j :: 0 <= j < |destinations| && destinations[j] != start
    ensures r.Some? ==> forall k :: 0 <= k < |r.value| ==> r.value[k] == start
    ensures r.Some? && start != -1 ==> |r.value| == 1 + multiset(destinations)[start]
    ensures r.Some? && start == -1 ==> r.value == [start]
  {
    var remaining := destinations;
    var path := [start];
    var current := start;
    while remaining != []
      invariant current == start && |path| >= 1 && path[0] == start
      invariant forall k :: 0 <= k < |path| ==> path[k] == start
      invariant multiset(remaining) + multiset(path[1..]) == multiset(destinations)
      invariant start == -1 ==> path == [start]
      invariant |path| > 1 ==> start in graph.adj || forall j :: 0 <= j < |destinations| ==> destinations[j] == start
      invariant remaining != destinations ==> |path| > 1
      decreases |remaining|
    {
      var s := ChooseNext(graph, current, remaining);
      ScanAsWritten(graph.adj, current, remaining, s);
      if s.Thrown? {
        var j :| 0 <= j < |remaining| && remaining[j] != current;
        assert remaining[j] in multiset(destinations);
        return None;
      }
      if s.next == -1 {
        break;
      }
      var best := s.best;
      StrikeOff(remaining, best, path, s.next);
      path := path + [s.next];
      remaining := remaining[..best] + remaining[best + 1..];
      current := s.next;
    }
    AllStart(path[1..], start);
    return Some(path);
  }

  /** Moving the element at `best` from `remaining` to the end of `path` keeps the two
      together as they were. */
  lemma StrikeOff(remaining: seq<int>, best: nat, path: seq<int>, x: int)
    requires best < |remaining| && remaining[best] == x && |path| >= 1
    ensures multiset(remaining[..best] + remaining[best + 1..]) + multiset((path + [x])[1..]) ==
            multiset(remaining) + multiset(path[1..])
    ensures (path + [x])[0] == path[0] && |remaining[..best] + remaining[best + 1..]| == |remaining| - 1
  {
    assert remaining == remaining[..best] + [remaining[best]] + remaining[best + 1..];
    assert (path + [x])[1..] == path[1..] + [x];
  }

  /** A sequence of copies of `x` has exactly as many occurrences of `x` as elements. */
  lemma {:induction false} AllStart(s: seq<int>, x: int)
    requires forall k :: 0 <= k < |s| ==> s[k] == x
    ensures multiset(s)[x] == |s| && forall y :: y != x ==> multiset(s)[y] == 0
  {
    if s != [] {
      AllStart(s[1..], x);
      assert s == [s[0]] + s[1..];
    }
  }

  /** The value that `subpath.size() - 1` takes in route_cost when dijkstra finds nothing:
      the size count wraps around to the largest 64-bit unsigned value. */
  const SizeMax: int := 0xFFFF_FFFF_FFFF_FFFF

  /** The hop count route_cost adds for one leg, or `None` when dijkstra throws. */
  function LegHops(adj: Adjacency, u: int, v: int): Option<int>
  {
    match DijkstraResult(adj, u, v)
    case None => None
    case Some(p) => Some(if p == [] then SizeMax else |p| - 1)
  }

  /** The sum of the hop counts of the legs of `path`, taken in order, or `None` as soon as
      one leg throws. */
  function RouteHops(adj: Adjacency, path: seq<int>): Option<int>
    requires |path| >= 1
    decreases |path|
  {
    if |path| == 1 then Some(0)
    else
      match RouteHops(adj, path[..|path| - 1])
      case None => None
      case Some(c) =>
        match LegHops(adj, path[|path| - 2], path[|path| - 1])
        case None => None
        case Some(h) => Some(c + h)
  }

  /** route_cost: the hop counts of dijkstra's path for each leg, summed; a path of one stop
      costs 0. The source indexes past the end of an empty path, so `path` must not be empty. */
  method RouteCost(graph: RoadNetwork, path: seq<int>) returns (r: Option<int>)
    requires NonNegative(graph.adj) && |path| >= 1
    ensures r == RouteHops(graph.adj, path)
  {
    var cost := 0;
    var i := 0;
    while i < |path| - 1
      invariant 0 <= i <= |path| - 1 && RouteHops(graph.adj, path[..i + 1]) == Some(cost)
    {
      assert path[..i + 2][..i + 1] == path[..i + 1];
      var sub := graph.Dijkstra(path[i], path[i + 1]);
      if sub.None? {
        NoneStaysNone(graph.adj, path, i + 2);
        assert path[..|path|] == path;
        return None;
      }
      cost := cost + if sub.value == [] then SizeMax else |sub.value| - 1;
      i := i + 1;
    }
    assert path[..i + 1] == path;
    return Some(cost);
  }

  /** Once a leg throws, every longer prefix of the route throws too. */
  lemma {:induction false} NoneStaysNone(adj: Adjacency, path: seq<int>, n: nat)
    requires 2 <= n <= |path| && RouteHops(adj, path[..n]) == None
    ensures RouteHops(adj, path) == None
    decreases |path| - n
  {
    if n < |path| {
      assert path[..n + 1][..n] == path[..n];
      NoneStaysNone(adj, path, n + 1);
    } else {
      assert path[..n] == path;
    }
  }

  /** The number of legs of `path` that move to a different node. */
  function Moves(path: seq<int>): nat
    requires |path| >= 1
    decreases |path|
  {
    if |path| == 1 then 0
    else Moves(path[..|path| - 1]) + (if path[|path| - 2] != path[|path| - 1] then 1 else 0)
  }

  /** A leg of `path` from a node with no entry to a different node. */
  ghost predicate ThrowingLeg(adj: Adjacency, path: seq<int>)
  {
    exists i :: 0 <= i < |path| - 1 && path[i] != path[i + 1] && path[i] !in adj
  }

  /** With dijkstra as written a leg costs 0 when it stays put and the wrapped-around
      `SizeMax` when it moves, so route_cost is `SizeMax` times the number of moves, and it
      throws exactly when some move starts from a node with no entry. */
  lemma {:induction false} RouteHopsAsWritten(adj: Adjacency, path: seq<int>)
    requires |path| >= 1
    ensures RouteHops(adj, path).None? <==> ThrowingLeg(adj, path)
    ensures RouteHops(adj, path).Some? ==> RouteHops(adj, path).value == SizeMax * Moves(path)
    decreases |path|
  {
    if |path| > 1 {
      var n := |path|;
      var front := path[..n - 1];
      RouteHopsAsWritten(adj, front);
      if ThrowingLeg(adj, front) {
        var i :| 0 <= i < |front| - 1 && front[i] != front[i + 1] && front[i] !in adj;
        assert path[i] == front[i] && path[i + 1] == front[i + 1];
      }
    }
  }

  /** `sorted` is ordered by destination, as partition_deliveries sorts before splitting. */
  ghost predicate SortedByDest(s: seq<Delivery>)
  {
    forall i, j :: 0 <= i < j < |s| ==> s[i].destId <= s[j].destId
  }

  /** `x` inserted into `s`, sorted by destination, before the first later destination. */
  function InsertByDest(s: seq<Delivery>, x: Delivery): (r: seq<Delivery>)
    requires SortedByDest(s)
    ensures multiset(r) == multiset(s) + multiset{x} && |r| == |s| + 1 && SortedByDest(r)
  {
    if s == [] then [x]
    else if x.destId <= s[0].destId then [x] + s
    else
      var t := InsertByDest(s[1..], x);
      assert s == [s[0]] + s[1..];
      HeadBelowDest(s, x, t);
      [s[0]] + t
  }

  /** The head of a sorted sequence comes no later than anything in its tail with a later
      `x` inserted. */
  lemma HeadBelowDest(s: seq<Delivery>, x: Delivery, t: seq<Delivery>)
    requires SortedByDest(s) && |s| > 0 && s[0].destId < x.destId
    requires multiset(t) == multiset(s[1..]) + multiset{x}
    ensures forall j :: 0 <= j < |t| ==> s[0].destId <= t[j].destId
  {
    forall j | 0 <= j < |t| ensures s[0].destId <= t[j].destId {
      assert t[j] in multiset(s[1..]) + multiset{x} by {
        assert t[j] in multiset(t);
      }
      if t[j] != x {
        var i :| 0 <= i < |s[1..]| && s[1..][i] == t[j];
        assert s[i + 1] == t[j];
      }
    }
  }

  /** The `sort` of partition_deliveries: some permutation ordered by destination (the
      order among equal destinations is not specified). */
  method SortByDest(ds: seq<Delivery>) returns (r: seq<Delivery>)
    ensures multiset(r) == multiset(ds) && SortedByDest(r)
  {
    r := [];
    var k := 0;
    while k < |ds|
      invariant 0 <= k <= |ds| && multiset(r) == multiset(ds[..k]) && SortedByDest(r)
    {
      r := InsertByDest(r, ds[k]);
      assert ds[..k + 1] == ds[..k] + [ds[k]];
      k := k + 1;
    }
    assert ds[..k] == ds;
  }

  /** The elements among the first `n` of `s` whose position is `c` modulo `k`, in order:
      what round-robin dealing hands to list `c`. */
  function Dealt(s: seq<int>, k: nat, c: nat, n: nat): seq<int>
    requires k > 0 && n <= |s|
  {
    if n == 0 then [] else Dealt(s, k, c, n - 1) + (if (n - 1) % k == c then [s[n - 1]] else [])
  }

  /** Division by `k` is unique: `q` and `r` with `n == q * k + r` and `0 <= r < k` are the
      quotient and the remainder. */
  lemma DivModUnique(n: nat, k: nat, q: int, r: int)
    requires k > 0 && 0 <= r < k && n == q * k + r
    ensures n / k == q && n % k == r
  {
    var q', r' := n / k, n % k;
    assert n == q' * k + r';
    if q' > q {
      assert (q' - q) * k == q' * k - q * k;
      MulAtLeast(q' - q, k);
    } else if q' < q {
      assert (q - q') * k == q * k - q' * k;
      MulAtLeast(q - q', k);
    }
  }

  lemma MulAtLeast(a: int, k: nat)
    requires a >= 1 && k > 0
    ensures a * k >= k
  {
  }

  /** Moving one position on steps the remainder round and the quotient at the wrap. */
  lemma DivModStep(n: nat, k: nat)
    requires k > 0
    ensures (n + 1) % k == (if n % k == k - 1 then 0 else n % k + 1)
    ensures (n + 1) / k == (if n % k == k - 1 then n / k + 1 else n / k)
  {
    var q, r := n / k, n % k;
    assert n == q * k + r;
    if r == k - 1 {
      assert n + 1 == (q + 1) * k + 0;
      DivModUnique(n + 1, k, q + 1, 0);
    } else {
      DivModUnique(n + 1, k, q, r + 1);
    }
  }

  /** List `c` holds one element per full round of `k` positions, plus one when the last,
      unfinished round reached position `c`. */
  lemma {:induction false} DealtSize(s: seq<int>, k: nat, c: nat, n: nat)
    requires k > 0 && c < k && n <= |s|
    ensures |Dealt(s, k, c, n)| == n / k + (if c < n % k then 1 else 0)
  {
    if n > 0 {
      var q, r := (n - 1) / k, (n - 1) % k;
      DealtSize(s, k, c, n - 1);
      DivModStep(n - 1, k);
      assert |Dealt(s, k, c, n)| == q + (if c < r then 1 else 0) + (if r == c then 1 else 0);
      if r == k - 1 {
        assert n / k == q + 1 && n % k == 0;
      } else {
        assert n / k == q && n % k == r + 1;
      }
    }
  }

  /** The lists dealt out differ in length by at most one, the earlier lists being the longer. */
  lemma DealtBalanced(s: seq<int>, k: nat, c: nat, d: nat, n: nat)
    requires k > 0 && c < d < k && n <= |s|
    ensures |Dealt(s, k, d, n)| <= |Dealt(s, k, c, n)| <= |Dealt(s, k, d, n)| + 1
  {
    DealtSize(s, k, c, n);
    DealtSize(s, k, d, n);
  }

  /** The lengths of the lists `c < upTo`, added up. */
  function SizesBelow(s: seq<int>, k: nat, upTo: nat, n: nat): nat
    requires k > 0 && n <= |s|
  {
    if upTo == 0 then 0 else SizesBelow(s, k, upTo - 1, n) + |Dealt(s, k, upTo - 1, n)|
  }

  /** One more position adds one entry to the lists below `upTo` exactly when its list is
      one of them. */
  lemma {:induction false} SizesBelowStep(s: seq<int>, k: nat, upTo: nat, n: nat)
    requires k > 0 && n < |s| && upTo <= k
    ensures SizesBelow(s, k, upTo, n + 1) == SizesBelow(s, k, upTo, n) + (if n % k < upTo then 1 else 0)
  {
    if upTo > 0 {
      SizesBelowStep(s, k, upTo - 1, n);
    }
  }

  /** Every element is dealt to exactly one list: the `k` lists hold `n` entries together,
      and (`DealtPlaces`) position `j` is one of them, so no position is dealt twice. */
  lemma {:induction false} DealtExactlyOnce(s: seq<int>, k: nat, n: nat)
    requires k > 0 && n <= |s|
    ensures SizesBelow(s, k, k, n) == n
  {
    if n == 0 {
      SizesEmpty(s, k, k);
    } else {
      DealtExactlyOnce(s, k, n - 1);
      SizesBelowStep(s, k, k, n - 1);
    }
  }

  lemma {:induction false} SizesEmpty(s: seq<int>, k: nat, upTo: nat)
    requires k > 0
    ensures SizesBelow(s, k, upTo, 0) == 0
  {
    if upTo > 0 {
      SizesEmpty(s, k, upTo - 1);
    }
  }

  /** Position `j` lands in list `j % k`, at place `j / k`. */
  lemma {:induction false} DealtPlaces(s: seq<int>, k: nat, j: nat, n: nat)
    requires k > 0 && j < n <= |s|
    ensures j / k < |Dealt(s, k, j % k, n)| && Dealt(s, k, j % k, n)[j / k] == s[j]
  {
    if n == j + 1 {
      DealtSize(s, k, j % k, j);
    } else {
      DealtPlaces(s, k, j, n - 1);
    }
  }

  /** The ids of `s`, in order. */
  function Ids(s: seq<Delivery>): (r: seq<int>)
    ensures |r| == |s| && forall i :: 0 <= i < |s| ==> r[i] == s[i].id
  {
    seq(|s|, i requires 0 <= i < |s| => s[i].id)
  }

  /** partition_deliveries: the deliveries sorted by destination, then dealt out round-robin
      to `numVehicles` lists, position `i` going to list `i % numVehicles`. A negative count
      makes the vector constructor throw (`None`); a count of 0 divides by zero unless there
      are no deliveries. */
  method PartitionDeliveries(deliveries: seq<Delivery>, numVehicles: int) returns (r: Option<seq<seq<int>>>, ghost sorted: seq<Delivery>)
    requires numVehicles == 0 ==> deliveries == []
    ensures r.None? <==> numVehicles < 0
    ensures numVehicles >= 0 ==> multiset(sorted) == multiset(deliveries) && SortedByDest(sorted)
    ensures r.Some? ==> |r.value| == numVehicles
    ensures r.Some? && numVehicles > 0 ==> forall c :: 0 <= c < numVehicles ==> r.value[c] == Dealt(Ids(sorted), numVehicles, c, |sorted|)
  {
    if numVehicles < 0 {
      return None, deliveries;
    }
    var s := SortByDest(deliveries);
    sorted := s;
    var parts: seq<seq<int>> := seq(numVehicles, _ => []);
    if numVehicles == 0 {
      return Some(parts), sorted;
    }
    var ids := Ids(s);
    var i := 0;
    while i < |s|
      invariant 0 <= i <= |s| && |parts| == numVehicles
      invariant forall c :: 0 <= c < numVehicles ==> parts[c] == Dealt(ids, numVehicles, c, i)
    {
      var c := i % numVehicles;
      parts := parts[c := parts[c] + [s[i].id]];
      i := i + 1;
    }
    return Some(parts), sorted;
  }
}
