/**
 * The path graph of the program's unit tests, 0 -> 1 -> ... -> k, and
 * what the distance and diameter computations give on it.
 */
module PathExample {
  import opened Graphs
  import opened Paths
  import opened Distances
  import opened Loader

  function Path(k: nat): Graph {
    Graph(k + 1, PathEdges(k))
  }

  /** Edge i of the path runs from i to i + 1, so the path is a valid graph. */
  lemma {:induction false} PathValid(k: nat)
    ensures forall i :: 0 <= i < k ==> PathEdges(k)[i] == (i, i + 1)
    ensures Path(k).Valid()
  {
    if k > 0 {
      PathValid(k - 1);
    }
  }

  lemma {:induction false} ReachedAppend(xs: seq<Edge>, ys: seq<Edge>, w: set<nat>)
    ensures Reached(xs + ys, w) == Reached(xs, w) + Reached(ys, w)
  {
    if xs == [] {
      assert xs + ys == ys;
    } else {
      assert (xs + ys)[1..] == xs[1..] + ys;
      ReachedAppend(xs[1..], ys, w);
    }
  }

  /** One step along the path moves from v - 1 to v. */
  lemma {:induction false} ReachedPath(k: nat, w: set<nat>, v: nat)
    ensures v in Reached(PathEdges(k), w) <==> 1 <= v <= k && v - 1 in w
  {
    if k > 0 {
      ReachedPath(k - 1, w, v);
      ReachedAppend(PathEdges(k - 1), [(k - 1, k)], w);
      assert Reached([(k - 1, k)], w) == if k - 1 in w then {k} else {};
    }
  }

  /** Within d steps of node 0 lie exactly the nodes 0 .. min(d, k). */
  lemma {:induction false} PathWithin(k: nat, d: nat, v: nat)
    ensures v in Within(Path(k), 0, d) <==> v <= d && v <= k
  {
    if d > 0 {
      PathWithin(k, d - 1, v);
      ReachedPath(k, Within(Path(k), 0, d - 1), v);
      if 1 <= v {
        PathWithin(k, d - 1, v - 1);
      }
    }
  }

  /** The far end of the path is k steps from its start. */
  lemma PathEnd(k: nat)
    ensures Reachable(Path(k), 0, k) && Dist(Path(k), 0, k) == k
  {
    PathWithin(k, k, k);
    if k > 0 {
      PathWithin(k, k - 1, k);
    }
    DistOf(Path(k), 0, k, k);
  }

  /** The diameter of the path 0 -> ... -> k is k. */
  lemma PathDiameter(k: nat)
    ensures IsDiameter(Path(k), k)
  {
    var g := Path(k);
    PathValid(k);
    PathEnd(k);
    forall s: nat, v: nat | s < g.n && Reachable(g, s, v) ensures Dist(g, s, v) <= k {
      DistBound(g, s, v);
    }
  }

  /**
   * The unit tests' file `0 1`, `1 2`, `2 3`, `3 4`: its distance list is
   * non-empty, never exceeds 4 and reaches 4, which is the diameter.
   */
  lemma TestFileDistances()
    ensures var g := Load(PathLines(4));
      |AllDistances(g, g.n)| >= 5 &&
      (forall x :: x in AllDistances(g, g.n) ==> x <= 4) &&
      4 in AllDistances(g, g.n) && IsDiameter(g, 4)
  {
    LoadPath(4);
    var g := Path(4);
    assert g.Valid();
    AllDistancesLength(g);
    AllDistancesBound(g, g.n);
    PathDiameter(4);
    DiameterOfDistances(g, 4);
  }
}
