/**
 * The distance analyzer: `compute_distances` (one breadth-first search per
 * node, every distance collected) and `graph_diameter` (the largest hop
 * distance over all sources).
 */
module Distances {
  import opened Graphs
  import opened Paths

  /** How many of the nodes 0 .. n-1 the map has not recorded yet. */
  function Unseen(dist: map<nat, nat>, n: nat): nat {
    if n == 0 then 0 else Unseen(dist, n - 1) + (if n - 1 in dist then 0 else 1)
  }

  lemma {:induction false} UnseenInsert(dist: map<nat, nat>, n: nat, x: nat, d: nat)
    requires x !in dist
    ensures Unseen(dist[x := d], n) == Unseen(dist, n) - (if x < n then 1 else 0)
  {
    if n > 0 {
      UnseenInsert(dist, n - 1, x, d);
    }
  }

  /** An out-neighbour of u arrives along some edge of u, and is a node of a valid graph. */
  lemma NeighborEdge(g: Graph, u: nat, v: nat) returns (i: nat)
    requires g.Valid() && v in Neighbors(g, u)
    ensures i < |g.edges| && g.edges[i] == (u, v) && v < g.n
  {
    i :| 0 <= i < |g.edges| && g.edges[i] == (u, v);
  }

  lemma NeighborsInRange(g: Graph, u: nat)
    requires g.Valid()
    ensures forall i :: 0 <= i < |Neighbors(g, u)| ==> Neighbors(g, u)[i] < g.n
  {
    forall i | 0 <= i < |Neighbors(g, u)| ensures Neighbors(g, u)[i] < g.n {
      var j := NeighborEdge(g, u, Neighbors(g, u)[i]);
    }
  }

  /** Every out-edge of u has its target among `Neighbors(g, u)`. */
  lemma NeighborsCover(g: Graph, u: nat, i: nat)
    requires i < |g.edges| && g.edges[i].0 == u
    ensures g.edges[i].1 in Neighbors(g, u)
  {
    assert (u, g.edges[i].1) == g.edges[i];
  }

  /**
   * The inner loop of the search: each node of `nbrs` not yet in the map is
   * recorded at distance d and queued at the back; known nodes are skipped.
   */
  ghost function Visit(nbrs: seq<nat>, dist: map<nat, nat>, queue: seq<nat>, d: nat)
    : (r: (map<nat, nat>, seq<nat>))
    ensures (forall x :: x in queue ==> x in dist) ==> (forall x :: x in r.1 ==> x in r.0)
    decreases |nbrs|
  {
    if nbrs == [] then (dist, queue)
    else if nbrs[0] in dist then Visit(nbrs[1..], dist, queue, d)
    else Visit(nbrs[1..], dist[nbrs[0] := d], queue + [nbrs[0]], d)
  }

  /** Visiting records every neighbour, keeps every known distance, and gives new nodes d. */
  lemma {:induction false} VisitMap(nbrs: seq<nat>, dist: map<nat, nat>, queue: seq<nat>, d: nat)
    ensures forall v :: v in Visit(nbrs, dist, queue, d).0 <==> v in dist || v in nbrs
    ensures forall v :: v in dist ==> Visit(nbrs, dist, queue, d).0[v] == dist[v]
    ensures forall v :: v in Visit(nbrs, dist, queue, d).0 && v !in dist ==>
              Visit(nbrs, dist, queue, d).0[v] == d
    decreases |nbrs|
  {
    if nbrs != [] {
      if nbrs[0] in dist {
        VisitMap(nbrs[1..], dist, queue, d);
      } else {
        VisitMap(nbrs[1..], dist[nbrs[0] := d], queue + [nbrs[0]], d);
      }
      assert nbrs == [nbrs[0]] + nbrs[1..];
    }
  }

  /** The nodes of `nbrs` outside `seen`, each at its first occurrence. */
  ghost function Fresh(nbrs: seq<nat>, seen: set<nat>): (f: seq<nat>)
    ensures forall x :: x in f ==> x in nbrs && x !in seen
    decreases |nbrs|
  {
    if nbrs == [] then []
    else if nbrs[0] in seen then Fresh(nbrs[1..], seen)
    else [nbrs[0]] + Fresh(nbrs[1..], seen + {nbrs[0]})
  }

  /** `Fresh` lists every node of `nbrs` outside `seen`, and none twice. */
  lemma {:induction false} FreshComplete(nbrs: seq<nat>, seen: set<nat>)
    ensures forall x :: x in nbrs && x !in seen ==> x in Fresh(nbrs, seen)
    ensures Distinct(Fresh(nbrs, seen))
    decreases |nbrs|
  {
    if nbrs != [] {
      var x := nbrs[0];
      assert nbrs == [x] + nbrs[1..];
      if x in seen {
        FreshComplete(nbrs[1..], seen);
      } else {
        FreshComplete(nbrs[1..], seen + {x});
      }
    }
  }

  /** Visiting appends to the queue exactly the fresh neighbours. */
  lemma {:induction false} VisitQueue(nbrs: seq<nat>, dist: map<nat, nat>, queue: seq<nat>, d: nat)
    ensures Visit(nbrs, dist, queue, d).1 == queue + Fresh(nbrs, dist.Keys)
    decreases |nbrs|
  {
    if nbrs != [] {
      var x := nbrs[0];
      if x in dist {
        VisitQueue(nbrs[1..], dist, queue, d);
      } else {
        VisitQueue(nbrs[1..], dist[x := d], queue + [x], d);
        assert dist[x := d].Keys == dist.Keys + {x};
        assert queue + [x] + Fresh(nbrs[1..], dist.Keys + {x}) == queue + ([x] + Fresh(nbrs[1..], dist.Keys + {x}));
      }
    }
  }

  /** `VisitMap` and `VisitQueue` at one node x. */
  lemma VisitAt(nbrs: seq<nat>, dist: map<nat, nat>, queue: seq<nat>, d: nat, x: nat)
    ensures x in Visit(nbrs, dist, queue, d).0 <==> x in dist || x in nbrs
    ensures x in dist ==> Visit(nbrs, dist, queue, d).0[x] == dist[x]
    ensures x !in dist && x in nbrs ==> Visit(nbrs, dist, queue, d).0[x] == d
    ensures x in Visit(nbrs, dist, queue, d).1 <==> x in queue || (x in nbrs && x !in dist)
  {
    VisitMap(nbrs, dist, queue, d);
    VisitQueue(nbrs, dist, queue, d);
    FreshComplete(nbrs, dist.Keys);
  }

  /** Each newly recorded node costs two units of unseen nodes and adds one to the queue. */
  lemma {:induction false} VisitCount(n: nat, nbrs: seq<nat>, dist: map<nat, nat>,
                                       queue: seq<nat>, d: nat)
    requires forall i :: 0 <= i < |nbrs| ==> nbrs[i] < n
    ensures 2 * Unseen(Visit(nbrs, dist, queue, d).0, n) + |Visit(nbrs, dist, queue, d).1|
            <= 2 * Unseen(dist, n) + |queue|
    decreases |nbrs|
  {
    if nbrs != [] {
      if nbrs[0] in dist {
        VisitCount(n, nbrs[1..], dist, queue, d);
      } else {
        VisitCount(n, nbrs[1..], dist[nbrs[0] := d], queue + [nbrs[0]], d);
        UnseenInsert(dist, n, nbrs[0], d);
      }
    }
  }

  /**
   * The outer loop of the search: pop the front node and visit its
   * out-neighbours one hop further, until the queue is empty.
   */
  ghost function Search(g: Graph, dist: map<nat, nat>, queue: seq<nat>): map<nat, nat>
    requires g.Valid()
    requires forall x :: x in queue ==> x in dist
    decreases 2 * Unseen(dist, g.n) + |queue|
  {
    if queue == [] then dist
    else
      var current := queue[0];
      var r := Visit(Neighbors(g, current), dist, queue[1..], dist[current] + 1);
      NeighborsInRange(g, current);
      VisitCount(g.n, Neighbors(g, current), dist, queue[1..], dist[current] + 1);
      Search(g, r.0, r.1)
  }

  /** The queue holds recorded nodes in nondecreasing distance, all within [lo, lo + 1]. */
  ghost predicate Layered(dist: map<nat, nat>, queue: seq<nat>, lo: nat) {
    (forall i :: 0 <= i < |queue| ==> queue[i] in dist && lo <= dist[queue[i]] <= lo + 1) &&
    (forall i, j :: 0 <= i <= j < |queue| ==> dist[queue[i]] <= dist[queue[j]])
  }

  /** No recorded node is further than `bound`. */
  ghost predicate Bounded(dist: map<nat, nat>, bound: nat) {
    forall v :: v in dist ==> dist[v] <= bound
  }

  ghost predicate Distinct(queue: seq<nat>) {
    forall i, j :: 0 <= i < j < |queue| ==> queue[i] != queue[j]
  }

  /** A layered queue is layered from the distance of its head. */
  lemma LayeredFront(dist: map<nat, nat>, queue: seq<nat>, lo: nat)
    requires queue != [] && Layered(dist, queue, lo) && Bounded(dist, lo + 1)
    ensures Layered(dist, queue, dist[queue[0]]) && Bounded(dist, dist[queue[0]] + 1)
  {
  }

  /** The queue is in breadth-first order and free of repeats. */
  ghost predicate Ordered(dist: map<nat, nat>, queue: seq<nat>) {
    Distinct(queue) &&
    (queue != [] ==> queue[0] in dist && Layered(dist, queue, dist[queue[0]]) && Bounded(dist, dist[queue[0]] + 1))
  }

  /**
   * What holds between two rounds of the search from s: the source at 0,
   * every entry reached within its recorded distance, every node that left
   * the queue relaxed, and the queue in breadth-first order.
   */
  ghost predicate Frontier(g: Graph, s: nat, dist: map<nat, nat>, queue: seq<nat>) {
    s in dist && dist[s] == 0 && Placed(g, s, dist) && Relaxed(g, dist, queue) && Ordered(dist, queue)
  }

  lemma StepSource(s: nat, nbrs: seq<nat>, dist: map<nat, nat>, queue: seq<nat>, d: nat)
    requires s in dist && dist[s] == 0
    ensures s in Visit(nbrs, dist, queue, d).0 && Visit(nbrs, dist, queue, d).0[s] == 0
  {
    VisitMap(nbrs, dist, queue, d);
  }

  /** The nodes recorded by a round are reached within their recorded distance. */
  lemma StepPlaced(g: Graph, s: nat, dist: map<nat, nat>, current: nat, rest: seq<nat>)
    requires g.Valid() && Placed(g, s, dist) && current in dist
    ensures Placed(g, s, Visit(Neighbors(g, current), dist, rest, dist[current] + 1).0)
  {
    var r := Visit(Neighbors(g, current), dist, rest, dist[current] + 1);
    VisitMap(Neighbors(g, current), dist, rest, dist[current] + 1);
    forall v | v in r.0 ensures v in Within(g, s, r.0[v]) {
      if v !in dist {
        var i := NeighborEdge(g, current, v);
        WithinNext(g, s, dist[current], i);
      }
    }
  }

  /** Queued nodes are recorded ones and fresh ones are not, so appending them repeats nothing. */
  lemma StepDistinct(dist: map<nat, nat>, rest: seq<nat>, nbrs: seq<nat>)
    requires Distinct(rest) && forall x :: x in rest ==> x in dist
    ensures Distinct(rest + Fresh(nbrs, dist.Keys))
  {
    var f := Fresh(nbrs, dist.Keys);
    var q := rest + f;
    FreshComplete(nbrs, dist.Keys);
    forall i, j | 0 <= i < j < |q| ensures q[i] != q[j] {
      if j < |rest| {
        assert q[i] == rest[i] && q[j] == rest[j];
      } else if i >= |rest| {
        assert q[i] == f[i - |rest|] && q[j] == f[j - |rest|];
      } else {
        assert q[i] == rest[i] && q[j] == f[j - |rest|];
        assert q[i] in rest && q[j] in f;
      }
    }
  }

  /** Fresh nodes go in at distance lo + 1 behind nodes at lo or lo + 1. */
  lemma StepLayered(dist: map<nat, nat>, rest: seq<nat>, nbrs: seq<nat>, lo: nat)
    requires Layered(dist, rest, lo) && Bounded(dist, lo + 1)
    ensures Layered(Visit(nbrs, dist, rest, lo + 1).0, Visit(nbrs, dist, rest, lo + 1).1, lo)
    ensures Bounded(Visit(nbrs, dist, rest, lo + 1).0, lo + 1)
  {
    var r := Visit(nbrs, dist, rest, lo + 1);
    VisitMap(nbrs, dist, rest, lo + 1);
    VisitQueue(nbrs, dist, rest, lo + 1);
    var f := Fresh(nbrs, dist.Keys);
    assert forall i :: 0 <= i < |rest| ==> r.1[i] == rest[i];
    assert forall i :: |rest| <= i < |r.1| ==> r.1[i] == f[i - |rest|];
    assert forall i :: 0 <= i < |f| ==> f[i] in f;
  }

  lemma StepOrdered(dist: map<nat, nat>, queue: seq<nat>, nbrs: seq<nat>)
    requires queue != [] && Ordered(dist, queue) && forall x :: x in queue ==> x in dist
    ensures Ordered(Visit(nbrs, dist, queue[1..], dist[queue[0]] + 1).0,
                    Visit(nbrs, dist, queue[1..], dist[queue[0]] + 1).1)
  {
    var lo := dist[queue[0]];
    var rest := queue[1..];
    var r := Visit(nbrs, dist, rest, lo + 1);
    assert Layered(dist, rest, lo) && Distinct(rest) by {
      assert forall i :: 0 <= i < |rest| ==> rest[i] == queue[i + 1];
    }
    VisitQueue(nbrs, dist, rest, lo + 1);
    StepDistinct(dist, rest, nbrs);
    StepLayered(dist, rest, nbrs, lo);
    if r.1 != [] {
      LayeredFront(r.0, r.1, lo);
    }
  }

  /**
   * An edge (u, v) out of a node that has left the queue after this round:
   * either u left earlier and was relaxed then, or u is `current`, all of
   * whose neighbours are now recorded at most one hop further.
   */
  lemma RelaxedEdge(g: Graph, dist: map<nat, nat>, current: nat, rest: seq<nat>, i: nat,
                    r: (map<nat, nat>, seq<nat>))
    requires g.Valid() && current in dist && i < |g.edges|
    requires Relaxed(g, dist, [current] + rest) && Bounded(dist, dist[current] + 1)
    requires r == Visit(Neighbors(g, current), dist, rest, dist[current] + 1)
    requires g.edges[i].0 in r.0 && g.edges[i].0 !in r.1
    ensures g.edges[i].1 in r.0 && r.0[g.edges[i].1] <= r.0[g.edges[i].0] + 1
  {
    var nbrs := Neighbors(g, current);
    var (u, v) := g.edges[i];
    VisitAt(nbrs, dist, rest, dist[current] + 1, u);
    VisitAt(nbrs, dist, rest, dist[current] + 1, v);
    if u == current {
      NeighborsCover(g, current, i);
    } else {
      assert u !in [current] + rest;
    }
  }

  /** After a round every node out of the queue, `current` included, is relaxed. */
  lemma StepRelaxed(g: Graph, dist: map<nat, nat>, queue: seq<nat>)
    requires g.Valid() && queue != [] && queue[0] in dist
    requires Relaxed(g, dist, queue) && Bounded(dist, dist[queue[0]] + 1)
    ensures Relaxed(g, Visit(Neighbors(g, queue[0]), dist, queue[1..], dist[queue[0]] + 1).0,
                    Visit(Neighbors(g, queue[0]), dist, queue[1..], dist[queue[0]] + 1).1)
  {
    var r := Visit(Neighbors(g, queue[0]), dist, queue[1..], dist[queue[0]] + 1);
    assert queue == [queue[0]] + queue[1..];
    forall i | 0 <= i < |g.edges| && g.edges[i].0 in r.0 && g.edges[i].0 !in r.1
      ensures g.edges[i].1 in r.0 && r.0[g.edges[i].1] <= r.0[g.edges[i].0] + 1
    {
      RelaxedEdge(g, dist, queue[0], queue[1..], i, r);
    }
  }

  /** One round of the search preserves `Frontier`. */
  lemma SearchStep(g: Graph, s: nat, dist: map<nat, nat>, queue: seq<nat>)
    requires g.Valid() && queue != [] && Frontier(g, s, dist, queue) && forall x :: x in queue ==> x in dist
    ensures Frontier(g, s, Visit(Neighbors(g, queue[0]), dist, queue[1..], dist[queue[0]] + 1).0,
                     Visit(Neighbors(g, queue[0]), dist, queue[1..], dist[queue[0]] + 1).1)
  {
    var current := queue[0];
    var nbrs := Neighbors(g, current);
    StepSource(s, nbrs, dist, queue[1..], dist[current] + 1);
    StepPlaced(g, s, dist, current, queue[1..]);
    StepRelaxed(g, dist, queue);
    StepOrdered(dist, queue, nbrs);
  }

  /** A round strictly lowers the measure the search terminates by. */
  lemma SearchMeasure(g: Graph, dist: map<nat, nat>, queue: seq<nat>)
    requires g.Valid() && queue != [] && queue[0] in dist
    ensures 2 * Unseen(Visit(Neighbors(g, queue[0]), dist, queue[1..], dist[queue[0]] + 1).0, g.n)
            + |Visit(Neighbors(g, queue[0]), dist, queue[1..], dist[queue[0]] + 1).1|
            < 2 * Unseen(dist, g.n) + |queue|
  {
    NeighborsInRange(g, queue[0]);
    VisitCount(g.n, Neighbors(g, queue[0]), dist, queue[1..], dist[queue[0]] + 1);
  }

  /** A search started in `Frontier` ends with every recorded node relaxed. */
  lemma {:induction false} SearchFinishes(g: Graph, s: nat, dist: map<nat, nat>, queue: seq<nat>)
    requires g.Valid() && Frontier(g, s, dist, queue) && forall x :: x in queue ==> x in dist
    ensures var result := Search(g, dist, queue);
      s in result && result[s] == 0 && Placed(g, s, result) && Relaxed(g, result, [])
    decreases 2 * Unseen(dist, g.n) + |queue|
  {
    if queue != [] {
      var r := Visit(Neighbors(g, queue[0]), dist, queue[1..], dist[queue[0]] + 1);
      SearchMeasure(g, dist, queue);
      SearchStep(g, s, dist, queue);
      SearchFinishes(g, s, r.0, r.1);
    }
  }

  /**
   * The search from s, started as `compute_distances` starts it, records
   * exactly the nodes reachable from s, each at its shortest-path hop count.
   */
  lemma SearchDistances(g: Graph, s: nat)
    requires g.Valid()
    ensures forall v :: v in Search(g, map[s := 0], [s]) <==> Reachable(g, s, v)
    ensures forall v :: v in Search(g, map[s := 0], [s]) ==> Search(g, map[s := 0], [s])[v] == Dist(g, s, v)
  {
    assert s in Within(g, s, 0);
    SearchFinishes(g, s, map[s := 0], [s]);
    FinishedDistances(g, s, Search(g, map[s := 0], [s]));
  }

  /**
   * One round of the search: every neighbour of the node just taken from
   * the queue that has no distance yet gets distance d and joins the queue.
   */
  method VisitNeighbors(neighbors: seq<nat>, dist0: map<nat, nat>, queue0: seq<nat>, d: nat)
    returns (dist: map<nat, nat>, queue: seq<nat>)
    ensures (dist, queue) == Visit(neighbors, dist0, queue0, d)
  {
    dist, queue := dist0, queue0;
    for k := 0 to |neighbors|
      invariant Visit(neighbors[k..], dist, queue, d) == Visit(neighbors, dist0, queue0, d)
    {
      var neighbor := neighbors[k];
      assert neighbors[k..][1..] == neighbors[k + 1..];
      if neighbor !in dist {
        dist := dist[neighbor := d];
        queue := queue + [neighbor];
      }
    }
    assert neighbors[|neighbors|..] == [];
  }

  /**
   * The breadth-first search `compute_distances` runs from one source: a
   * FIFO queue and a map from each discovered node to its hop count. The
   * map it ends with records exactly the nodes reachable from the source,
   * each at its shortest-path distance.
   */
  method ShortestPathLengths(g: Graph, source: nat) returns (dist: map<nat, nat>)
    requires g.Valid()
    ensures forall v :: v in dist <==> Reachable(g, source, v)
    ensures forall v :: v in dist ==> dist[v] == Dist(g, source, v)
  {
    var queue := [source];
    dist := map[source := 0];
    while queue != []
      invariant forall x :: x in queue ==> x in dist
      invariant Search(g, dist, queue) == Search(g, map[source := 0], [source])
      decreases 2 * Unseen(dist, g.n) + |queue|
    {
      ghost var dist0, queue0 := dist, queue;
      var current := queue[0];
      var currentDistance := dist[current];
      SearchMeasure(g, dist, queue);
      dist, queue := VisitNeighbors(Neighbors(g, current), dist, queue[1..], currentDistance + 1);
    }
    SearchDistances(g, source);
  }

  /**
   * `node_distances.values()` for a map whose keys are nodes 0 .. n-1. A
   * HashMap yields its values in no fixed order; this lists them in
   * ascending key order, and everything below is stated up to that order.
   */
  function Values(m: map<nat, nat>, n: nat): (vs: seq<nat>)
    ensures forall v :: v < n && v in m ==> m[v] in vs
    ensures forall x :: x in vs ==> exists v :: v < n && v in m && m[v] == x
  {
    if n == 0 then [] else Values(m, n - 1) + (if n - 1 in m then [m[n - 1]] else [])
  }

  /** The hop counts from s to the nodes 0 .. k-1 reachable from it, in node order. */
  ghost function DistancesFrom(g: Graph, s: nat, k: nat): seq<nat> {
    if k == 0 then []
    else DistancesFrom(g, s, k - 1) + Entry(g, s, k - 1)
  }

  /** The value `dist` holds for v, when v is reachable from s. */
  ghost function Entry(g: Graph, s: nat, v: nat): seq<nat> {
    if Reachable(g, s, v) then [Dist(g, s, v)] else []
  }

  /** What `compute_distances` collects from the sources 0 .. k-1, in source order. */
  ghost function AllDistances(g: Graph, k: nat): seq<nat> {
    if k == 0 then [] else AllDistances(g, k - 1) + DistancesFrom(g, k - 1, g.n)
  }

  /** A map holding the shortest-path distances from s lists its values as `DistancesFrom`. */
  lemma {:induction false} ValuesDistances(g: Graph, s: nat, dist: map<nat, nat>, k: nat)
    requires forall v :: v in dist <==> Reachable(g, s, v)
    requires forall v :: v in dist ==> dist[v] == Dist(g, s, v)
    ensures Values(dist, k) == DistancesFrom(g, s, k)
  {
    if k > 0 {
      ValuesDistances(g, s, dist, k - 1);
    }
  }

  /**
   * `compute_distances`: one breadth-first search from every node, and the
   * distances of each search appended to one list.
   */
  method ComputeDistances(g: Graph) returns (all: seq<nat>)
    requires g.Valid()
    ensures all == AllDistances(g, g.n)
  {
    all := [];
    for node := 0 to g.n
      invariant all == AllDistances(g, node)
    {
      var nodeDistances := ShortestPathLengths(g, node);
      ValuesDistances(g, node, nodeDistances, g.n);
      all := all + Values(nodeDistances, g.n);
    }
  }

  /** The keys of m below k. */
  ghost function KeysBelow(m: map<nat, nat>, k: nat): set<nat> {
    set v | v in m && v < k
  }

  lemma {:induction false} ValuesSize(m: map<nat, nat>, k: nat)
    ensures |Values(m, k)| == |KeysBelow(m, k)|
  {
    if k > 0 {
      ValuesSize(m, k - 1);
      if k - 1 in m {
        assert KeysBelow(m, k) == KeysBelow(m, k - 1) + {k - 1};
      } else {
        assert KeysBelow(m, k) == KeysBelow(m, k - 1);
      }
    }
  }

  /**
   * When every key is a node, `Values(m, n)` is all of `m.values()`: one
   * entry per key.
   */
  lemma ValuesAll(m: map<nat, nat>, n: nat)
    requires forall v :: v in m ==> v < n
    ensures |Values(m, n)| == |m|
  {
    ValuesSize(m, n);
    assert KeysBelow(m, n) == m.Keys;
  }

  /** The search from a node records only nodes, so its values all reach the list. */
  lemma SearchKeys(g: Graph, s: nat, dist: map<nat, nat>)
    requires g.Valid() && s < g.n
    requires forall v :: v in dist <==> Reachable(g, s, v)
    ensures |Values(dist, g.n)| == |dist|
  {
    forall v | v in dist ensures v < g.n {
      DistBound(g, s, v);
    }
    ValuesAll(dist, g.n);
  }

  /** The entry node v adds to `DistancesFrom(g, s, _)` is a 0 exactly when v is s. */
  lemma ZeroAt(g: Graph, s: nat, v: nat)
    ensures multiset(Entry(g, s, v))[0] == if v == s then 1 else 0
  {
    if v == s {
      assert s in Within(g, s, 0);
    }
    if Reachable(g, s, v) {
      DistZero(g, s, v);
    }
  }

  /** Each source contributes exactly one 0, for itself. */
  lemma {:induction false} DistancesFromZeros(g: Graph, s: nat, k: nat)
    ensures multiset(DistancesFrom(g, s, k))[0] == if s < k then 1 else 0
  {
    if k > 0 {
      var v := k - 1;
      DistancesFromZeros(g, s, v);
      ZeroAt(g, s, v);
      ZerosStep(DistancesFrom(g, s, v), Entry(g, s, v), s, v);
    }
  }

  lemma ZerosStep(prev: seq<nat>, last: seq<nat>, s: nat, v: nat)
    requires multiset(prev)[0] == (if s < v then 1 else 0)
    requires multiset(last)[0] == (if v == s then 1 else 0)
    ensures multiset(prev + last)[0] == if s < v + 1 then 1 else 0
  {
    assert multiset(prev + last) == multiset(prev) + multiset(last);
  }

  /** The collected list holds exactly one 0 per node: running the search from it. */
  lemma {:induction false} AllDistancesZeros(g: Graph, k: nat)
    requires k <= g.n
    ensures multiset(AllDistances(g, k))[0] == k
  {
    if k > 0 {
      AllDistancesZeros(g, k - 1);
      DistancesFromZeros(g, k - 1, g.n);
    }
  }

  /** The list is at least as long as the node count, since every node reaches itself. */
  lemma AllDistancesLength(g: Graph)
    ensures |AllDistances(g, g.n)| >= g.n
  {
    AllDistancesZeros(g, g.n);
  }

  /** `DistancesFrom` lists the distance of each reachable node below k, and nothing else. */
  lemma {:induction false} DistancesFromMembers(g: Graph, s: nat, k: nat)
    ensures forall x :: x in DistancesFrom(g, s, k) <==>
              exists v: nat :: v < k && Reachable(g, s, v) && Dist(g, s, v) == x
  {
    if k > 0 {
      DistancesFromMembers(g, s, k - 1);
    }
  }

  /**
   * A value is in the list exactly when it is the shortest-path distance
   * between two nodes, the second reachable from the first.
   */
  lemma AllDistancesMembers(g: Graph, k: nat)
    requires g.Valid() && k <= g.n
    ensures forall x :: x in AllDistances(g, k) <==>
              exists s: nat, v: nat :: s < k && v < g.n && Reachable(g, s, v) && Dist(g, s, v) == x
  {
    forall x ensures x in AllDistances(g, k) <==>
              exists s: nat, v: nat :: s < k && v < g.n && Reachable(g, s, v) && Dist(g, s, v) == x
    {
      AllDistancesMember(g, k, x);
    }
  }

  lemma {:induction false} AllDistancesMember(g: Graph, k: nat, x: nat)
    ensures x in AllDistances(g, k) <==>
              exists s: nat, v: nat :: s < k && v < g.n && Reachable(g, s, v) && Dist(g, s, v) == x
  {
    if k > 0 {
      var src := k - 1;
      AllDistancesMember(g, src, x);
      DistancesFromMembers(g, src, g.n);
      assert AllDistances(g, k) == AllDistances(g, src) + DistancesFrom(g, src, g.n);
      if x in AllDistances(g, k) {
        if x !in AllDistances(g, src) {
          var v: nat :| v < g.n && Reachable(g, src, v) && Dist(g, src, v) == x;
          assert src < k;
        }
      } else {
        forall s: nat, v: nat | s < k && v < g.n && Reachable(g, s, v) ensures Dist(g, s, v) != x {
          if s == src {
            assert Dist(g, s, v) in DistancesFrom(g, src, g.n);
          }
        }
      }
    }
  }

  /** No recorded distance exceeds n - 1. */
  lemma {:induction false} AllDistancesBound(g: Graph, k: nat)
    requires g.Valid() && k <= g.n
    ensures forall x :: x in AllDistances(g, k) ==> x <= g.n - 1
  {
    if k > 0 {
      AllDistancesBound(g, k - 1);
      DistancesFromMembers(g, k - 1, g.n);
      var src := k - 1;
      forall v: nat | Reachable(g, src, v) ensures Dist(g, src, v) <= g.n - 1 {
        DistBound(g, src, v);
      }
    }
  }

  /** `iter().max()`: the largest element, or None for an empty sequence. */
  function MaxOf(xs: seq<nat>): (m: Option<nat>)
    ensures m.None? <==> xs == []
    ensures m.Some? ==> m.value in xs && forall x :: x in xs ==> x <= m.value
  {
    if xs == [] then None
    else
      assert xs == [xs[0]] + xs[1..];
      var rest := MaxOf(xs[1..]);
      if rest.None? || xs[0] >= rest.value then Some(xs[0]) else rest
  }

  /** e is the largest distance from s to a node reachable from it. */
  ghost predicate IsEccentricity(g: Graph, s: nat, e: nat) {
    (forall v: nat :: Reachable(g, s, v) ==> Dist(g, s, v) <= e) &&
    (exists v: nat :: Reachable(g, s, v) && Dist(g, s, v) == e)
  }

  /**
   * d is the largest distance from one of the sources 0 .. k-1 to a node
   * reachable from it, and 0 when there is no source.
   */
  ghost predicate LargestFrom(g: Graph, k: nat, d: nat) {
    (forall s: nat, v: nat :: s < k && Reachable(g, s, v) ==> Dist(g, s, v) <= d) &&
    (k == 0 ==> d == 0) &&
    (k > 0 ==> exists s: nat, v: nat :: s < k && Reachable(g, s, v) && Dist(g, s, v) == d)
  }

  /**
   * d is the diameter as `graph_diameter` defines it: the largest distance
   * between a node and a node reachable from it, and 0 for the empty graph.
   */
  ghost predicate IsDiameter(g: Graph, d: nat) {
    LargestFrom(g, g.n, d)
  }

  /** The largest value of the search's map is the eccentricity of its source. */
  lemma SourceMax(g: Graph, s: nat, dist: map<nat, nat>)
    requires g.Valid() && s < g.n
    requires forall v :: v in dist <==> Reachable(g, s, v)
    requires forall v :: v in dist ==> dist[v] == Dist(g, s, v)
    ensures MaxOf(Values(dist, g.n)).Some?
    ensures IsEccentricity(g, s, MaxOf(Values(dist, g.n)).value)
  {
    var vs := Values(dist, g.n);
    assert s in Within(g, s, 0);
    assert dist[s] in vs;
    var e := MaxOf(vs).value;
    forall v: nat | Reachable(g, s, v) ensures Dist(g, s, v) <= e {
      DistBound(g, s, v);
      assert dist[v] in vs;
    }
    var v :| v < g.n && v in dist && dist[v] == e;
  }

  /** Taking the maximum with the eccentricity of source k extends `LargestFrom` to k + 1. */
  lemma LargestStep(g: Graph, k: nat, d: nat, e: nat)
    requires LargestFrom(g, k, d) && IsEccentricity(g, k, e)
    ensures LargestFrom(g, k + 1, if d >= e then d else e)
  {
    var m := if d >= e then d else e;
    forall s: nat, v: nat | s < k + 1 && Reachable(g, s, v) ensures Dist(g, s, v) <= m {
      if s == k {
        assert Dist(g, k, v) <= e;
      } else {
        assert Dist(g, s, v) <= d;
      }
    }
    if k > 0 && d >= e {
      var s: nat, w: nat :| s < k && Reachable(g, s, w) && Dist(g, s, w) == d;
      assert s < k + 1 && Reachable(g, s, w) && Dist(g, s, w) == m;
    } else {
      var v: nat :| Reachable(g, k, v) && Dist(g, k, v) == e;
      assert k < k + 1 && Reachable(g, k, v) && Dist(g, k, v) == m;
    }
  }

  /**
   * `graph_diameter`: a unit-weight shortest-path search from every node
   * and the running maximum of the largest distance each one finds.
   * petgraph's `dijkstra` with unit edge costs finds the same hop counts as
   * the breadth-first search, so the model uses that search for it.
   */
  method GraphDiameter(g: Graph) returns (maxDistance: nat)
    requires g.Valid()
    ensures IsDiameter(g, maxDistance)
  {
    maxDistance := 0;
    for node := 0 to g.n
      invariant LargestFrom(g, node, maxDistance)
    {
      var distances := ShortestPathLengths(g, node);
      SourceMax(g, node, distances);
      var max := MaxOf(Values(distances, g.n));
      if max.Some? {
        LargestStep(g, node, maxDistance, max.value);
        maxDistance := if maxDistance >= max.value then maxDistance else max.value;
      }
    }
  }

  /** The diameter is determined by the graph. */
  lemma DiameterUnique(g: Graph, d1: nat, d2: nat)
    requires IsDiameter(g, d1) && IsDiameter(g, d2)
    ensures d1 == d2
  {
    if g.n > 0 {
      var s1: nat, v1: nat :| s1 < g.n && Reachable(g, s1, v1) && Dist(g, s1, v1) == d1;
      var s2: nat, v2: nat :| s2 < g.n && Reachable(g, s2, v2) && Dist(g, s2, v2) == d2;
      assert d1 <= d2 && d2 <= d1;
    }
  }

  /** The diameter is the largest value `compute_distances` collects. */
  lemma DiameterOfDistances(g: Graph, d: nat)
    requires g.Valid() && g.n > 0 && IsDiameter(g, d)
    ensures d in AllDistances(g, g.n)
    ensures forall x :: x in AllDistances(g, g.n) ==> x <= d
  {
    AllDistancesMembers(g, g.n);
    var s: nat, v: nat :| s < g.n && Reachable(g, s, v) && Dist(g, s, v) == d;
    DistBound(g, s, v);
  }

  /** A path is no longer than the node count allows. */
  lemma DiameterBound(g: Graph, d: nat)
    requires g.Valid() && g.n > 0 && IsDiameter(g, d)
    ensures d <= g.n - 1
  {
    var s: nat, v: nat :| s < g.n && Reachable(g, s, v) && Dist(g, s, v) == d;
    DistBound(g, s, v);
  }

  /** The diameter is 0 exactly when every edge is a self-loop. */
  lemma DiameterZero(g: Graph)
    requires g.Valid()
    ensures IsDiameter(g, 0) <==> forall i :: 0 <= i < |g.edges| ==> g.edges[i].0 == g.edges[i].1
  {
    if forall i :: 0 <= i < |g.edges| ==> g.edges[i].0 == g.edges[i].1 {
      forall s: nat, v: nat | s < g.n && Reachable(g, s, v) ensures Dist(g, s, v) <= 0 {
        var k: nat :| v in Within(g, s, k);
        SelfLoopsOnly(g, s, k);
        DistZero(g, s, v);
      }
      if g.n > 0 {
        assert 0 in Within(g, 0, 0);
        DistZero(g, 0, 0);
      }
    } else {
      var i :| 0 <= i < |g.edges| && g.edges[i].0 != g.edges[i].1;
      EdgeDistOne(g, i);
    }
  }
}
