/**
 * `remove_high_degree_nodes`: the nodes whose out-edge count exceeds a
 * threshold are flagged on the graph as it is, then removed one after the
 * other with petgraph's swap-last `remove_node`.
 */
module Pruning {
  import opened Graphs

  /** The flagged nodes among k .. n-1, in ascending index order. */
  function HighDegreeFrom(g: Graph, t: nat, k: nat): (xs: seq<nat>)
    ensures forall i :: 0 <= i < |xs| ==> k <= xs[i] < g.n && OutDegree(g, xs[i]) > t
    ensures forall i, j :: 0 <= i < j < |xs| ==> xs[i] < xs[j]
    decreases g.n - k
  {
    if k >= g.n then []
    else (if OutDegree(g, k) > t then [k] else []) + HighDegreeFrom(g, t as nat, k + 1)
  }

  /**
   * `node_indices().filter(|&node| graph.edges(node).count() > degree_threshold)`:
   * the nodes with more than t out-edges, in ascending order.
   */
  function HighDegree(g: Graph, t: nat): seq<nat> {
    HighDegreeFrom(g, t, 0)
  }

  lemma {:induction false} HighDegreeFromComplete(g: Graph, t: nat, k: nat, v: nat)
    requires k <= v < g.n && OutDegree(g, v) > t
    ensures v in HighDegreeFrom(g, t, k)
    decreases g.n - k
  {
    if k < v {
      HighDegreeFromComplete(g, t, k + 1, v);
    }
  }

  /**
   * A node is flagged exactly when its out-edge count, on the graph before
   * any removal, is strictly above the threshold; the flags come in
   * ascending order.
   */
  lemma HighDegreeSpec(g: Graph, t: nat)
    ensures forall v: nat :: v in HighDegree(g, t) <==> v < g.n && OutDegree(g, v) > t
    ensures forall i, j :: 0 <= i < j < |HighDegree(g, t)| ==> HighDegree(g, t)[i] < HighDegree(g, t)[j]
  {
    forall v: nat | v < g.n && OutDegree(g, v) > t ensures v in HighDegree(g, t) {
      HighDegreeFromComplete(g, t, 0, v);
    }
  }

  /** `remove_node` applied to each index of xs in turn. */
  function RemoveAll(g: Graph, xs: seq<nat>): Graph
    decreases |xs|
  {
    if xs == [] then g else RemoveAll(g.RemoveNode(xs[0]), xs[1..])
  }

  /** `remove_high_degree_nodes` on the graph passed by `&mut`, returned as the new graph. */
  method RemoveHighDegreeNodes(g: Graph, degreeThreshold: nat) returns (graph: Graph)
    ensures graph == RemoveAll(g, HighDegree(g, degreeThreshold))
  {
    var nodesToRemove := HighDegree(g, degreeThreshold);
    graph := g;
    for i := 0 to |nodesToRemove|
      invariant RemoveAll(graph, nodesToRemove[i..]) == RemoveAll(g, nodesToRemove)
    {
      assert nodesToRemove[i..][1..] == nodesToRemove[i + 1..];
      graph := graph.RemoveNode(nodesToRemove[i]);
    }
  }

  /** Removing nodes keeps the graph well formed and never adds a node or an edge. */
  lemma {:induction false} RemoveAllShrinks(g: Graph, xs: seq<nat>)
    requires g.Valid()
    ensures RemoveAll(g, xs).Valid()
    ensures RemoveAll(g, xs).n <= g.n && |RemoveAll(g, xs).edges| <= |g.edges|
    decreases |xs|
  {
    if xs != [] {
      if xs[0] < g.n {
        RemoveNodeContract(g, xs[0]);
      }
      RemoveAllShrinks(g.RemoveNode(xs[0]), xs[1..]);
    }
  }

  lemma {:induction false} HighDegreeFromEmpty(g: Graph, t: nat, k: nat)
    requires forall v: nat :: k <= v < g.n ==> OutDegree(g, v) <= t
    ensures HighDegreeFrom(g, t, k) == []
    decreases g.n - k
  {
    if k < g.n {
      HighDegreeFromEmpty(g, t, k + 1);
    }
  }

  /** A threshold no out-degree exceeds flags nothing and leaves the graph as it was. */
  lemma PruneNothing(g: Graph, t: nat)
    requires forall v: nat :: v < g.n ==> OutDegree(g, v) <= t
    ensures HighDegree(g, t) == []
    ensures RemoveAll(g, HighDegree(g, t)) == g
  {
    HighDegreeFromEmpty(g, t, 0);
  }

  predicate Injective(orig: seq<nat>) {
    forall i, j :: 0 <= i < j < |orig| ==> orig[i] != orig[j]
  }

  /** The node indices 0 .. n-1, each node its own origin. */
  function Identity(n: nat): (ids: seq<nat>)
    ensures |ids| == n && forall i :: 0 <= i < n ==> ids[i] == i
  {
    if n == 0 then [] else Identity(n - 1) + [n - 1]
  }

  /**
   * Which original node each index names after `remove_node(a)`: the last
   * index's node moves to slot a and the last slot goes.
   */
  function Track(orig: seq<nat>, a: nat): (r: seq<nat>)
    ensures a < |orig| ==> |r| == |orig| - 1
  {
    if a < |orig| then orig[a := orig[|orig| - 1]][..|orig| - 1] else orig
  }

  function Origins(orig: seq<nat>, xs: seq<nat>): seq<nat>
    decreases |xs|
  {
    if xs == [] then orig else Origins(Track(orig, xs[0]), xs[1..])
  }

  /**
   * h is what remains of g, index i of h being the original node orig[i]:
   * every edge count between two surviving nodes is what it was in g.
   */
  ghost predicate Represents(h: Graph, orig: seq<nat>, g: Graph) {
    h.Valid() && h.n == |orig| && Injective(orig) &&
    (forall i :: 0 <= i < |orig| ==> orig[i] < g.n) &&
    (forall u: nat, v: nat :: u < h.n && v < h.n ==>
       multiset(h.edges)[(u, v)] == multiset(g.edges)[(orig[u], orig[v])])
  }

  /** Before any removal the graph represents itself, each index its own origin. */
  lemma RepresentsStart(g: Graph)
    requires g.Valid()
    ensures Represents(g, Identity(g.n), g)
  {
  }

  lemma TrackInjective(orig: seq<nat>, a: nat)
    requires Injective(orig) && a < |orig|
    ensures Injective(Track(orig, a))
    ensures forall v :: v in Track(orig, a) <==> v in orig && v != orig[a]
    ensures forall i :: 0 <= i < |orig| - 1 ==> Track(orig, a)[i] == orig[Unmoved(i, a, |orig| - 1)]
  {
    var r := Track(orig, a);
    var last := |orig| - 1;
    forall v | v in orig && v != orig[a] ensures v in r {
      var i :| 0 <= i < |orig| && orig[i] == v;
      if i == last {
        assert r[a] == v;
      } else {
        assert r[i] == v;
      }
    }
  }

  /** What `RemoveNodeContract` says about one pair of indices after the removal. */
  lemma RemovedCount(h: Graph, a: nat, u': nat, v': nat)
    requires h.Valid() && a < h.n && u' < h.n - 1 && v' < h.n - 1
    ensures multiset(h.RemoveNode(a).edges)[(u', v')]
            == multiset(h.edges)[(Unmoved(u', a, h.n - 1), Unmoved(v', a, h.n - 1))]
  {
    var last := h.n - 1;
    RemoveNodeContract(h, a);
    var u, v := Unmoved(u', a, last), Unmoved(v', a, last);
    assert Moved(u, a, last) == u' && Moved(v, a, last) == v';
  }

  lemma RemovedShape(h: Graph, a: nat)
    requires h.Valid() && a < h.n
    ensures h.RemoveNode(a).Valid() && h.RemoveNode(a).n == h.n - 1
  {
    RemoveNodeContract(h, a);
  }

  /** `remove_node` keeps `Represents`, with the origins tracked along. */
  lemma RemoveRepresents(h: Graph, orig: seq<nat>, g: Graph, a: nat)
    requires Represents(h, orig, g)
    ensures Represents(h.RemoveNode(a), Track(orig, a), g)
  {
    if a < h.n {
      var last := h.n - 1;
      var r := h.RemoveNode(a);
      var o := Track(orig, a);
      RemovedShape(h, a);
      TrackInjective(orig, a);
      forall u': nat, v': nat | u' < r.n && v' < r.n
        ensures multiset(r.edges)[(u', v')] == multiset(g.edges)[(o[u'], o[v'])]
      {
        RemovedCount(h, a, u', v');
        var u, v := Unmoved(u', a, last), Unmoved(v', a, last);
        assert o[u'] == orig[u] && o[v'] == orig[v];
      }
    }
  }

  lemma {:induction false} RemoveAllRepresents(h: Graph, orig: seq<nat>, g: Graph, xs: seq<nat>)
    requires Represents(h, orig, g)
    ensures Represents(RemoveAll(h, xs), Origins(orig, xs), g)
    decreases |xs|
  {
    if xs != [] {
      RemoveRepresents(h, orig, g, xs[0]);
      RemoveAllRepresents(h.RemoveNode(xs[0]), Track(orig, xs[0]), g, xs[1..]);
    }
  }

  /**
   * Whatever order nodes are removed in, the result is what is left of g
   * under the origins `Origins` tracks, every edge count between survivors
   * intact.
   */
  lemma PruneRepresents(g: Graph, xs: seq<nat>)
    requires g.Valid()
    ensures Represents(RemoveAll(g, xs), Origins(Identity(g.n), xs), g)
  {
    RepresentsStart(g);
    RemoveAllRepresents(g, Identity(g.n), g, xs);
  }

  /**
   * `remove_high_degree_nodes` as written can keep a flagged node: on
   * 0 -> 1, 2 -> 1 with threshold 0, nodes 0 and 2 are flagged; removing 0
   * moves node 2 into slot 0, and index 2 no longer exists, so node 2 and
   * its out-edge survive.
   */
  lemma PruneStale()
    ensures var g := Graph(3, [(0, 1), (2, 1)]);
      HighDegree(g, 0) == [0, 2] &&
      RemoveAll(g, HighDegree(g, 0)) == Graph(2, [(0, 1)]) &&
      Origins(Identity(3), [0, 2]) == [2, 1] &&
      OutDegree(RemoveAll(g, HighDegree(g, 0)), 0) == 1
  {
    var g := Graph(3, [(0, 1), (2, 1)]);
    assert Targets(g.edges, 0) == [1];
    assert Targets(g.edges, 1) == [];
    assert Targets(g.edges, 2) == [1];
    assert HighDegreeFrom(g, 0, 3) == [];
    assert HighDegreeFrom(g, 0, 2) == [2];
    assert HighDegreeFrom(g, 0, 1) == [2];
    assert Detach(g.edges, 0, 2) == [(0, 1)];
    assert [0, 2][1..] == [2];
  }

  /** The flagged nodes, highest index first: then no removal moves a node still to be removed. */
  function Reverse(xs: seq<nat>): (r: seq<nat>)
    ensures |r| == |xs| && forall i :: 0 <= i < |xs| ==> r[i] == xs[|xs| - 1 - i]
  {
    if xs == [] then [] else Reverse(xs[1..]) + [xs[0]]
  }

  /** `remove_high_degree_nodes` removing in descending index order. */
  method RemoveHighDegreeNodesDescending(g: Graph, degreeThreshold: nat) returns (graph: Graph)
    ensures graph == RemoveAll(g, Reverse(HighDegree(g, degreeThreshold)))
  {
    var nodesToRemove := Reverse(HighDegree(g, degreeThreshold));
    graph := g;
    for i := 0 to |nodesToRemove|
      invariant RemoveAll(graph, nodesToRemove[i..]) == RemoveAll(g, nodesToRemove)
    {
      assert nodesToRemove[i..][1..] == nodesToRemove[i + 1..];
      graph := graph.RemoveNode(nodesToRemove[i]);
    }
  }

  /**
   * Removing indices in strictly descending order, each still naming its
   * original node, removes exactly those nodes.
   */
  lemma {:induction false} DescendingOrigins(orig: seq<nat>, xs: seq<nat>)
    requires Injective(orig)
    requires forall i, j :: 0 <= i < j < |xs| ==> xs[i] > xs[j]
    requires forall i :: 0 <= i < |xs| ==> xs[i] < |orig| && orig[xs[i]] == xs[i]
    ensures forall v :: v in Origins(orig, xs) <==> v in orig && v !in xs
    ensures |Origins(orig, xs)| == |orig| - |xs|
    decreases |xs|
  {
    if xs != [] {
      var a := xs[0];
      var o := Track(orig, a);
      TrackInjective(orig, a);
      forall i | 0 <= i < |xs[1..]| ensures xs[1..][i] < |o| && o[xs[1..][i]] == xs[1..][i] {
        assert xs[1..][i] == xs[i + 1] < a;
      }
      DescendingOrigins(o, xs[1..]);
      assert forall v :: v in xs <==> v == a || v in xs[1..];
    }
  }

  /** Reversing an ascending sequence gives a descending one with the same elements. */
  lemma ReverseAscending(hs: seq<nat>)
    requires forall i, j :: 0 <= i < j < |hs| ==> hs[i] < hs[j]
    ensures forall i, j :: 0 <= i < j < |Reverse(hs)| ==> Reverse(hs)[i] > Reverse(hs)[j]
    ensures forall v :: v in Reverse(hs) <==> v in hs
  {
    var xs := Reverse(hs);
    forall v | v in hs ensures v in xs {
      var i :| 0 <= i < |hs| && hs[i] == v;
      assert xs[|hs| - 1 - i] == v;
    }
  }

  /** The flagged nodes, highest first, are removed exactly. */
  lemma FlaggedOrigins(g: Graph, t: nat)
    ensures forall v: nat :: v in Origins(Identity(g.n), Reverse(HighDegree(g, t))) <==>
              v < g.n && OutDegree(g, v) <= t
    ensures |Origins(Identity(g.n), Reverse(HighDegree(g, t)))| == g.n - |HighDegree(g, t)|
  {
    var hs := HighDegree(g, t);
    var xs := Reverse(hs);
    var ids := Identity(g.n);
    HighDegreeSpec(g, t);
    ReverseAscending(hs);
    forall i | 0 <= i < |xs| ensures xs[i] < |ids| && ids[xs[i]] == xs[i] {
      assert xs[i] in hs;
    }
    IdentityMembers(g.n);
    DescendingOrigins(ids, xs);
  }

  lemma IdentityMembers(n: nat)
    ensures Injective(Identity(n))
    ensures forall v: nat :: v in Identity(n) <==> v < n
  {
    forall v: nat | v < n ensures v in Identity(n) {
      assert Identity(n)[v] == v;
    }
  }

  /**
   * Removing the flagged nodes highest first leaves exactly the nodes whose
   * out-degree was within the threshold, every edge count between them as
   * it was, and the node count down by the number flagged.
   */
  lemma PruneDescendingCorrect(g: Graph, t: nat)
    requires g.Valid()
    ensures var xs := Reverse(HighDegree(g, t));
      var orig := Origins(Identity(g.n), xs);
      Represents(RemoveAll(g, xs), orig, g) &&
      (forall v: nat :: v in orig <==> v < g.n && OutDegree(g, v) <= t) &&
      RemoveAll(g, xs).n == g.n - |HighDegree(g, t)|
  {
    FlaggedOrigins(g, t);
    PruneRepresents(g, Reverse(HighDegree(g, t)));
  }
}
