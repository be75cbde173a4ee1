/**
 * Hop distances in a directed graph, defined by levels: `Within(g, s, k)` is
 * the set of nodes reachable from s along at most k edges, and a node has
 * distance d when it first appears at level d. This is the reference that
 * both breadth-first searches of the program are proved against.
 */
module Paths {
  import opened Graphs

  /** The targets of the edges of `es` that leave a node of `w`. */
  ghost function Reached(es: seq<Edge>, w: set<nat>): set<nat> {
    if es == [] then {} else (if es[0].0 in w then {es[0].1} else {}) + Reached(es[1..], w)
  }

  /** The targets of the edges that leave a node of `w`. */
  ghost function Step(g: Graph, w: set<nat>): set<nat> {
    Reached(g.edges, w)
  }

  lemma {:induction false} ReachedIntro(es: seq<Edge>, w: set<nat>, i: nat)
    requires i < |es| && es[i].0 in w
    ensures es[i].1 in Reached(es, w)
  {
    if i > 0 {
      ReachedIntro(es[1..], w, i - 1);
    }
  }

  lemma {:induction false} ReachedElim(es: seq<Edge>, w: set<nat>, v: nat)
    requires v in Reached(es, w)
    ensures exists i :: 0 <= i < |es| && es[i].0 in w && es[i].1 == v
  {
    if !(es[0].0 in w && es[0].1 == v) {
      ReachedElim(es[1..], w, v);
      var i :| 0 <= i < |es[1..]| && es[1..][i].0 in w && es[1..][i].1 == v;
      assert es[i + 1] == es[1..][i];
    }
  }

  /** An edge leaving `w` has its target one step away. */
  lemma StepIntro(g: Graph, w: set<nat>, i: nat)
    requires i < |g.edges| && g.edges[i].0 in w
    ensures g.edges[i].1 in Step(g, w)
  {
    ReachedIntro(g.edges, w, i);
  }

  /** A node one step away from `w` is the target of an edge leaving `w`. */
  lemma StepElim(g: Graph, w: set<nat>, v: nat) returns (i: nat)
    requires v in Step(g, w)
    ensures i < |g.edges| && g.edges[i].0 in w && g.edges[i].1 == v
  {
    ReachedElim(g.edges, w, v);
    i :| 0 <= i < |g.edges| && g.edges[i].0 in w && g.edges[i].1 == v;
  }

  /** One more breadth-first level: `w` and every node one edge away from it. */
  ghost function Next(g: Graph, w: set<nat>): set<nat> {
    w + Step(g, w)
  }

  /** The nodes reachable from s along at most k edges. */
  ghost function Within(g: Graph, s: nat, k: nat): set<nat>
    decreases k
  {
    if k == 0 then {s} else Next(g, Within(g, s, k - 1))
  }

  /** v is reachable from s and its shortest path has exactly d edges. */
  ghost predicate HasDist(g: Graph, s: nat, v: nat, d: nat) {
    v in Within(g, s, d) && (d > 0 ==> v !in Within(g, s, d - 1))
  }

  ghost predicate Reachable(g: Graph, s: nat, v: nat) {
    exists k: nat :: v in Within(g, s, k)
  }

  /** The shortest-path hop count from s to a reachable v. */
  ghost function Dist(g: Graph, s: nat, v: nat): (d: nat)
    requires Reachable(g, s, v)
    ensures HasDist(g, s, v, d)
  {
    var k: nat :| v in Within(g, s, k);
    LeastLevel(g, s, v, k);
    var d: nat :| HasDist(g, s, v, d); d
  }

  lemma {:induction false} WithinGrows(g: Graph, s: nat, j: nat, k: nat)
    requires j <= k
    ensures Within(g, s, j) <= Within(g, s, k)
    decreases k
  {
    if j < k {
      WithinGrows(g, s, j, k - 1);
    }
  }

  /** A node present at level k has its distance at most k. */
  lemma HasDistLeast(g: Graph, s: nat, v: nat, d: nat, k: nat)
    requires HasDist(g, s, v, d) && v in Within(g, s, k)
    ensures d <= k
  {
    if k < d {
      WithinGrows(g, s, k, d - 1);
    }
  }

  /** The distance is unique. */
  lemma HasDistUnique(g: Graph, s: nat, v: nat, d1: nat, d2: nat)
    requires HasDist(g, s, v, d1) && HasDist(g, s, v, d2)
    ensures d1 == d2
  {
    HasDistLeast(g, s, v, d1, d2);
    HasDistLeast(g, s, v, d2, d1);
  }

  /** A node reachable within k edges has a distance, and it is at most k. */
  lemma {:induction false} LeastLevel(g: Graph, s: nat, v: nat, k: nat)
    requires v in Within(g, s, k)
    ensures exists d: nat :: d <= k && HasDist(g, s, v, d)
    decreases k
  {
    if k == 0 {
      assert HasDist(g, s, v, 0);
    } else if v in Within(g, s, k - 1) {
      LeastLevel(g, s, v, k - 1);
    } else {
      assert HasDist(g, s, v, k);
    }
  }

  lemma DistOf(g: Graph, s: nat, v: nat, d: nat)
    requires HasDist(g, s, v, d)
    ensures Reachable(g, s, v) && Dist(g, s, v) == d
  {
    HasDistUnique(g, s, v, d, Dist(g, s, v));
  }

  /** In a valid graph, every node reached is the source or a node of the graph. */
  lemma {:induction false} WithinNodes(g: Graph, s: nat, k: nat)
    requires g.Valid()
    ensures forall v :: v in Within(g, s, k) ==> v == s || v < g.n
    decreases k
  {
    if k > 0 {
      WithinNodes(g, s, k - 1);
      var w := Within(g, s, k - 1);
      forall v | v in Step(g, w) ensures v < g.n {
        var i := StepElim(g, w, v);
      }
    }
  }

  /** Once a level adds nothing new, no later level does. */
  lemma {:induction false} WithinStable(g: Graph, s: nat, j: nat, m: nat)
    requires forall x :: x in Within(g, s, j + 1) ==> x in Within(g, s, j)
    requires j <= m
    ensures forall x :: x in Within(g, s, m) ==> x in Within(g, s, j)
    decreases m
  {
    if j + 1 < m {
      WithinStable(g, s, j, m - 1);
      assert Within(g, s, m) == Next(g, Within(g, s, m - 1));
      assert Within(g, s, j + 1) == Next(g, Within(g, s, j));
      WithinGrows(g, s, j, m - 1);
      assert Within(g, s, m - 1) == Within(g, s, j);
    }
  }

  lemma {:induction false} SubsetSize<T>(a: set<T>, b: set<T>)
    requires a <= b
    ensures |a| <= |b|
    decreases |a|
  {
    if a != {} {
      var x :| x in a;
      SubsetSize(a - {x}, b - {x});
    }
  }

  lemma {:induction false} StrictSubsetSize(a: set<nat>, b: set<nat>, x: nat)
    requires a <= b && x in b && x !in a
    ensures |a| < |b|
    decreases |a|
  {
    if a != {} {
      var y :| y in a;
      StrictSubsetSize(a - {y}, b - {y}, x);
    }
  }

  /** Level j of a node at distance d >= j holds a node that level j - 1 lacks. */
  lemma LevelAddsNode(g: Graph, s: nat, v: nat, d: nat, j: nat) returns (x: nat)
    requires HasDist(g, s, v, d) && 0 < j <= d
    ensures x in Within(g, s, j) && x !in Within(g, s, j - 1)
  {
    if forall y :: y in Within(g, s, j) ==> y in Within(g, s, j - 1) {
      WithinStable(g, s, j - 1, d);
      WithinGrows(g, s, j - 1, d - 1);
      assert false;
    }
    x :| x in Within(g, s, j) && x !in Within(g, s, j - 1);
  }

  /** Levels 0 .. k of the search from s. */
  ghost function Levels(g: Graph, s: nat, k: nat): (c: seq<set<nat>>)
    ensures |c| == k + 1
    ensures forall i :: 0 <= i <= k ==> c[i] == Within(g, s, i)
  {
    if k == 0 then [Within(g, s, 0)] else Levels(g, s, k - 1) + [Within(g, s, k)]
  }

  lemma LevelGrows(g: Graph, s: nat, v: nat, d: nat, j: nat)
    requires HasDist(g, s, v, d) && 0 < j <= d
    ensures Within(g, s, j - 1) < Within(g, s, j)
  {
    var x := LevelAddsNode(g, s, v, d, j);
    WithinGrows(g, s, j - 1, j);
  }

  /** A chain of strictly growing sets, starting non-empty, grows by one each step. */
  lemma {:induction false} ChainSize(c: seq<set<nat>>, j: nat)
    requires j < |c| && c[0] != {}
    requires forall i :: 0 < i < |c| ==> c[i - 1] < c[i]
    ensures |c[j]| >= j + 1
  {
    if j == 0 {
      var x :| x in c[0];
      StrictSubsetSize({}, c[0], x);
    } else {
      ChainSize(c, j - 1);
      assert c[j - 1] < c[j];
      var x :| x in c[j] - c[j - 1];
      StrictSubsetSize(c[j - 1], c[j], x);
    }
  }

  /** Every level up to the distance of some node adds at least one node. */
  lemma WithinSize(g: Graph, s: nat, v: nat, d: nat)
    requires HasDist(g, s, v, d)
    ensures |Within(g, s, d)| >= d + 1
  {
    var c := Levels(g, s, d);
    forall i | 0 < i < |c| ensures c[i - 1] < c[i] {
      LevelGrows(g, s, v, d, i);
    }
    assert s in c[0];
    ChainSize(c, d);
  }

  /** A shortest path from a node of the graph has at most n - 1 edges. */
  lemma DistBound(g: Graph, s: nat, v: nat)
    requires g.Valid() && s < g.n && Reachable(g, s, v)
    ensures v < g.n
    ensures Dist(g, s, v) <= g.n - 1
  {
    var d := Dist(g, s, v);
    WithinSize(g, s, v, d);
    WithinNodes(g, s, d);
    assert Within(g, s, d) <= Range(g.n) by {
      forall x | x in Within(g, s, d) ensures x in Range(g.n) {
        assert Below(x, g.n);
      }
    }
    RangeSize(g.n);
    SubsetSize(Within(g, s, d), Range(g.n));
    WithinGrows(g, s, 0, d);
    assert v in Within(g, s, d);
  }

  /** Only the source is at distance 0. */
  lemma DistZero(g: Graph, s: nat, v: nat)
    requires Reachable(g, s, v)
    ensures Dist(g, s, v) == 0 <==> v == s
  {
    if v == s {
      DistOf(g, s, s, 0);
    }
  }

  /** An edge u -> v with u != v puts v at distance 1 from u. */
  lemma EdgeDistOne(g: Graph, i: nat)
    requires i < |g.edges| && g.edges[i].0 != g.edges[i].1
    ensures Reachable(g, g.edges[i].0, g.edges[i].1)
    ensures Dist(g, g.edges[i].0, g.edges[i].1) == 1
  {
    var u := g.edges[i].0;
    StepIntro(g, Within(g, u, 0), i);
    DistOf(g, u, g.edges[i].1, 1);
  }

  /** When every edge is a self-loop, nothing but the source is ever reached. */
  lemma {:induction false} SelfLoopsOnly(g: Graph, s: nat, k: nat)
    requires forall i :: 0 <= i < |g.edges| ==> g.edges[i].0 == g.edges[i].1
    ensures Within(g, s, k) == {s}
    decreases k
  {
    if k > 0 {
      SelfLoopsOnly(g, s, k - 1);
      forall v | v in Step(g, {s}) ensures v == s {
        var i := StepElim(g, {s}, v);
      }
    }
  }

  /**
   * Every node at distance d > 0 has an in-edge from a node at distance d - 1.
   */
  lemma {:induction false} PredecessorOnPreviousLevel(g: Graph, s: nat, v: nat)
    requires Reachable(g, s, v) && Dist(g, s, v) > 0
    ensures exists i :: 0 <= i < |g.edges| && g.edges[i].1 == v &&
              Reachable(g, s, g.edges[i].0) && Dist(g, s, g.edges[i].0) == Dist(g, s, v) - 1
  {
    var d := Dist(g, s, v);
    var w := Within(g, s, d - 1);
    assert v in Step(g, w);
    var i := StepElim(g, w, v);
    var u := g.edges[i].0;
    LeastLevel(g, s, u, d - 1);
    var du: nat :| du <= d - 1 && HasDist(g, s, u, du);
    if du < d - 1 {
      StepIntro(g, Within(g, s, du), i);
      WithinGrows(g, s, du + 1, d - 1);
      assert false;
    }
    DistOf(g, s, u, du);
  }

  /** Every recorded node lies within its recorded number of edges of s. */
  ghost predicate Placed(g: Graph, s: nat, dist: map<nat, nat>) {
    forall v :: v in dist ==> v in Within(g, s, dist[v])
  }

  /**
   * Every out-edge of a recorded node that no longer waits in `queue`
   * reaches a recorded node at most one hop further.
   */
  ghost predicate Relaxed(g: Graph, dist: map<nat, nat>, queue: seq<nat>) {
    forall i :: 0 <= i < |g.edges| && g.edges[i].0 in dist && g.edges[i].0 !in queue ==>
      g.edges[i].1 in dist && dist[g.edges[i].1] <= dist[g.edges[i].0] + 1
  }

  /** One edge further than a node within k edges is within k + 1 edges. */
  lemma WithinNext(g: Graph, s: nat, k: nat, i: nat)
    requires i < |g.edges| && g.edges[i].0 in Within(g, s, k)
    ensures g.edges[i].1 in Within(g, s, k + 1)
  {
    StepIntro(g, Within(g, s, k), i);
  }

  /** With every edge relaxed, nothing within k edges of s is recorded further than k. */
  lemma {:induction false} RelaxedLevels(g: Graph, s: nat, dist: map<nat, nat>, k: nat)
    requires s in dist && dist[s] == 0 && Relaxed(g, dist, [])
    ensures forall v :: v in Within(g, s, k) ==> v in dist && dist[v] <= k
  {
    if k > 0 {
      RelaxedLevels(g, s, dist, k - 1);
      var w := Within(g, s, k - 1);
      assert Within(g, s, k) == w + Step(g, w);
      forall v | v in Step(g, w) ensures v in dist && dist[v] <= k {
        var i := StepElim(g, w, v);
      }
    }
  }

  lemma FinishedDistance(g: Graph, s: nat, dist: map<nat, nat>, v: nat)
    requires s in dist && dist[s] == 0 && Placed(g, s, dist) && Relaxed(g, dist, [])
    requires v in dist
    ensures Reachable(g, s, v) && dist[v] == Dist(g, s, v)
  {
    if dist[v] > 0 {
      RelaxedLevels(g, s, dist, dist[v] - 1);
    }
    DistOf(g, s, v, dist[v]);
  }

  /**
   * A finished search: the source at 0, every entry an upper bound that is
   * reached, every edge relaxed. Then the entries are exactly the reachable
   * nodes, each at its shortest-path hop count.
   */
  lemma FinishedDistances(g: Graph, s: nat, dist: map<nat, nat>)
    requires s in dist && dist[s] == 0 && Placed(g, s, dist) && Relaxed(g, dist, [])
    ensures forall v :: v in dist <==> Reachable(g, s, v)
    ensures forall v :: v in dist ==> dist[v] == Dist(g, s, v)
  {
    forall v | v in dist ensures Reachable(g, s, v) && dist[v] == Dist(g, s, v) {
      FinishedDistance(g, s, dist, v);
    }
    forall v | Reachable(g, s, v) ensures v in dist {
      var k: nat :| v in Within(g, s, k);
      RelaxedLevels(g, s, dist, k);
    }
  }
}
