/**
 * `random_subgraph`: the subgraph induced by a sample of node indices,
 * built with petgraph's `filter_map`. The random choice is a parameter:
 * `choose_multiple` yields min(k, n) distinct node indices in some order.
 */
module Sampling {
  import opened Graphs
  import opened Paths

  /** What `choose_multiple(rng, k)` over the indices 0 .. n-1 may return. */
  ghost predicate IsSample(n: nat, k: nat, sample: seq<nat>) {
    |sample| == (if k < n then k else n) &&
    (forall i :: 0 <= i < |sample| ==> sample[i] < n) &&
    (forall i, j :: 0 <= i < j < |sample| ==> sample[i] != sample[j])
  }

  /**
   * The nodes `filter_map` keeps, among 0 .. n-1, in ascending index order:
   * position i holds the old index of the new node i.
   */
  function Kept(sample: seq<nat>, n: nat): (ks: seq<nat>)
    ensures |ks| <= n
    ensures forall i :: 0 <= i < |ks| ==> ks[i] < n && ks[i] in sample
  {
    if n == 0 then [] else Kept(sample, n - 1) + (if n - 1 in sample then [n - 1] else [])
  }

  /** The new index of a kept node: how many kept nodes precede it. */
  function NewIndex(sample: seq<nat>, v: nat): nat {
    |Kept(sample, v)|
  }

  /** The edges `filter_map` keeps, those whose endpoints are both kept, renumbered. */
  function KeptEdges(es: seq<Edge>, sample: seq<nat>): seq<Edge> {
    if es == [] then []
    else
      (if es[0].0 in sample && es[0].1 in sample
       then [(NewIndex(sample, es[0].0), NewIndex(sample, es[0].1))] else [])
      + KeptEdges(es[1..], sample)
  }

  /** `graph.filter_map(|node, _| sampled_nodes.contains(&node) ..., |_, _| Some(()))`. */
  function RandomSubgraph(g: Graph, sample: seq<nat>): Graph {
    Graph(|Kept(sample, g.n)|, KeptEdges(g.edges, sample))
  }

  // Reference definitions: the induced subgraph in the original numbering.

  /** The edges of `es` with both endpoints in the sample, in order, unrenamed. */
  function Induced(es: seq<Edge>, sample: seq<nat>): seq<Edge> {
    if es == [] then []
    else (if es[0].0 in sample && es[0].1 in sample then [es[0]] else []) + Induced(es[1..], sample)
  }

  /** Edges between new indices, renamed back to old indices through `orig`. */
  function Lift(es: seq<Edge>, orig: seq<nat>): seq<Edge> {
    if es == [] then []
    else
      (if es[0].0 < |orig| && es[0].1 < |orig| then [(orig[es[0].0], orig[es[0].1])] else [(0, 0)])
      + Lift(es[1..], orig)
  }

  lemma {:induction false} KeptMembers(sample: seq<nat>, n: nat, v: nat)
    ensures v in Kept(sample, n) <==> v < n && v in sample
  {
    if n > 0 {
      KeptMembers(sample, n - 1, v);
    }
  }

  /** The kept nodes increase strictly, so the new numbering keeps the old order. */
  lemma {:induction false} KeptAscending(sample: seq<nat>, n: nat)
    ensures forall i, j :: 0 <= i < j < |Kept(sample, n)| ==> Kept(sample, n)[i] < Kept(sample, n)[j]
  {
    if n > 0 {
      KeptAscending(sample, n - 1);
    }
  }

  /** A kept node's new index is in range and names it. */
  lemma {:induction false} KeptAt(sample: seq<nat>, n: nat, v: nat)
    requires v < n && v in sample
    ensures NewIndex(sample, v) < |Kept(sample, n)| && Kept(sample, n)[NewIndex(sample, v)] == v
  {
    if v < n - 1 {
      KeptAt(sample, n - 1, v);
    } else {
      assert v == n - 1;
    }
  }

  /** The result has a node per kept index and only edges between them. */
  lemma {:induction false} KeptEdgesValid(es: seq<Edge>, sample: seq<nat>, n: nat)
    requires forall i :: 0 <= i < |es| ==> es[i].0 < n && es[i].1 < n
    ensures forall i :: 0 <= i < |KeptEdges(es, sample)| ==>
      KeptEdges(es, sample)[i].0 < |Kept(sample, n)| && KeptEdges(es, sample)[i].1 < |Kept(sample, n)|
    ensures Lift(KeptEdges(es, sample), Kept(sample, n)) == Induced(es, sample)
  {
    if es != [] {
      KeptEdgesValid(es[1..], sample, n);
      var e := es[0];
      var head := if e.0 in sample && e.1 in sample then [(NewIndex(sample, e.0), NewIndex(sample, e.1))] else [];
      if e.0 in sample && e.1 in sample {
        KeptAt(sample, n, e.0);
        KeptAt(sample, n, e.1);
      }
      LiftAppend(head, KeptEdges(es[1..], sample), Kept(sample, n));
    }
  }

  lemma {:induction false} LiftAppend(xs: seq<Edge>, ys: seq<Edge>, orig: seq<nat>)
    ensures Lift(xs + ys, orig) == Lift(xs, orig) + Lift(ys, orig)
  {
    if xs == [] {
      assert xs + ys == ys;
    } else {
      assert (xs + ys)[1..] == xs[1..] + ys;
      LiftAppend(xs[1..], ys, orig);
    }
  }

  /**
   * `random_subgraph` keeps exactly the sampled nodes, in ascending index
   * order, and exactly the edges whose endpoints are both sampled, in edge
   * order: renamed back through the kept nodes, its edges are the induced ones.
   */
  lemma RandomSubgraphInduced(g: Graph, sample: seq<nat>)
    requires g.Valid()
    ensures var h := RandomSubgraph(g, sample);
      h.Valid() && h.n == |Kept(sample, g.n)| &&
      Lift(h.edges, Kept(sample, g.n)) == Induced(g.edges, sample)
    ensures forall v: nat :: v in Kept(sample, g.n) <==> v < g.n && v in sample
    ensures forall i, j :: 0 <= i < j < |Kept(sample, g.n)| ==> Kept(sample, g.n)[i] < Kept(sample, g.n)[j]
  {
    KeptEdgesValid(g.edges, sample, g.n);
    forall v: nat ensures v in Kept(sample, g.n) <==> v < g.n && v in sample {
      KeptMembers(sample, g.n, v);
    }
    KeptAscending(sample, g.n);
  }

  /** The induced edges are the input edges whose endpoints are both sampled. */
  lemma {:induction false} InducedMembers(es: seq<Edge>, sample: seq<nat>, e: Edge)
    ensures e in Induced(es, sample) <==> e in es && e.0 in sample && e.1 in sample
  {
    if es != [] {
      InducedMembers(es[1..], sample, e);
      assert es == [es[0]] + es[1..];
    }
  }

  ghost function Elems(s: seq<nat>): set<nat> {
    set x | x in s
  }

  lemma {:induction false} DistinctElems(s: seq<nat>)
    requires forall i, j :: 0 <= i < j < |s| ==> s[i] != s[j]
    ensures |Elems(s)| == |s|
  {
    if s != [] {
      var t := s[..|s| - 1];
      assert forall i, j :: 0 <= i < j < |t| ==> t[i] != t[j] by {
        forall i, j | 0 <= i < j < |t| ensures t[i] != t[j] {
          assert t[i] == s[i] && t[j] == s[j];
        }
      }
      DistinctElems(t);
      assert s == t + [s[|s| - 1]];
      assert Elems(s) == Elems(t) + {s[|s| - 1]};
      assert s[|s| - 1] !in Elems(t);
    }
  }

  lemma KeptDistinct(sample: seq<nat>, n: nat)
    ensures forall i, j :: 0 <= i < j < |Kept(sample, n)| ==> Kept(sample, n)[i] != Kept(sample, n)[j]
  {
    KeptAscending(sample, n);
  }

  /** With a sample from `choose_multiple`, the result has min(k, n) nodes. */
  lemma RandomSubgraphSize(g: Graph, k: nat, sample: seq<nat>)
    requires IsSample(g.n, k, sample)
    ensures RandomSubgraph(g, sample).n == (if k < g.n then k else g.n)
  {
    var ks := Kept(sample, g.n);
    KeptDistinct(sample, g.n);
    DistinctElems(ks);
    DistinctElems(sample);
    assert Elems(ks) == Elems(sample) by {
      forall v | v in Elems(sample) ensures v in Elems(ks) {
        KeptMembers(sample, g.n, v);
      }
    }
  }

  /** An empty sample (k = 0) gives the empty graph. */
  lemma {:induction false} EmptySample(g: Graph)
    ensures RandomSubgraph(g, []) == Graph(0, [])
  {
    KeptNone(g.n);
    KeptEdgesNone(g.edges);
  }

  lemma {:induction false} KeptNone(n: nat)
    ensures Kept([], n) == []
  {
    if n > 0 {
      KeptNone(n - 1);
    }
  }

  lemma {:induction false} KeptEdgesNone(es: seq<Edge>)
    ensures KeptEdges(es, []) == []
  {
    if es != [] {
      KeptEdgesNone(es[1..]);
    }
  }

  /** A sample with every node keeps the numbering. */
  lemma {:induction false} KeptAll(sample: seq<nat>, n: nat)
    requires forall v: nat :: v < n ==> v in sample
    ensures |Kept(sample, n)| == n
  {
    if n > 0 {
      KeptAll(sample, n - 1);
    }
  }

  lemma {:induction false} KeptEdgesAll(es: seq<Edge>, sample: seq<nat>, n: nat)
    requires forall v: nat :: v < n ==> v in sample
    requires forall i :: 0 <= i < |es| ==> es[i].0 < n && es[i].1 < n
    ensures KeptEdges(es, sample) == es
  {
    if es != [] {
      KeptEdgesAll(es[1..], sample, n);
      KeptAll(sample, es[0].0);
      KeptAll(sample, es[0].1);
      assert es == [es[0]] + es[1..];
    }
  }

  /** A sample of k >= n nodes is all of them, and the result is the whole graph. */
  lemma WholeSample(g: Graph, k: nat, sample: seq<nat>)
    requires g.Valid() && IsSample(g.n, k, sample) && k >= g.n
    ensures RandomSubgraph(g, sample) == g
  {
    DistinctElems(sample);
    RangeSize(g.n);
    forall v: nat | v < g.n ensures v in sample {
      if v !in sample {
        assert Below(v, g.n);
        StrictSubsetSize(Elems(sample), Range(g.n), v);
        assert false;
      }
    }
    KeptAll(sample, g.n);
    KeptEdgesAll(g.edges, sample, g.n);
  }
}
