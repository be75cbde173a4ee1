/**
 * The graph store: a petgraph `DiGraph<(), ()>` seen through what the program
 * observes of it, its node count and its edge list. Node indices are
 * 0 .. n-1; `edges[i]` is the edge whose edge index is i.
 */
module Graphs {

  datatype Option<T> = None | Some(value: T)

  /** A directed edge (source, target) between two node indices. */
  type Edge = (nat, nat)

  datatype Graph = Graph(n: nat, edges: seq<Edge>) {

    /** Every edge joins two existing nodes, as petgraph maintains. */
    predicate Valid() {
      forall i :: 0 <= i < |edges| ==> edges[i].0 < n && edges[i].1 < n
    }

    /** `add_node(())`: one more node, whose index is the old node count. */
    function AddNode(): Graph {
      Graph(n + 1, edges)
    }

    /** `add_edge(a, b, ())`; petgraph panics unless both endpoints exist. */
    function AddEdge(a: nat, b: nat): Graph
      requires a < n && b < n
    {
      Graph(n, edges + [(a, b)])
    }

    /** `add_edge` with its panic made explicit: `None` is the panic. */
    function TryAddEdge(a: nat, b: nat): (r: Option<Graph>)
      ensures r.Some? <==> a < n && b < n
      ensures r.Some? ==> r.value.n == n && r.value.edges == edges + [(a, b)]
    {
      if a < n && b < n then Some(AddEdge(a, b)) else None
    }

    /**
     * `remove_node(a)` as petgraph documents it: a missing index is a no-op;
     * otherwise every edge touching `a` goes and the last node takes index a.
     */
    function RemoveNode(a: nat): Graph {
      if a < n then Graph(n - 1, Detach(edges, a, n - 1)) else this
    }
  }

  /** Index of node v after `remove_node(a)` moved node `last` into slot a. */
  function Moved(v: nat, a: nat, last: nat): nat {
    if v == last then a else v
  }

  /** Index, before `remove_node(a)`, of the node now at index i. */
  function Unmoved(i: nat, a: nat, last: nat): nat {
    if i == a then last else i
  }

  /** The edges of `es` that do not touch `a`, renamed by `Moved`. */
  function Detach(es: seq<Edge>, a: nat, last: nat): seq<Edge> {
    if es == [] then []
    else
      var e := es[0];
      (if e.0 == a || e.1 == a then [] else [(Moved(e.0, a, last), Moved(e.1, a, last))])
      + Detach(es[1..], a, last)
  }

  /** Targets of the edges of `es` that leave u, in edge order. */
  function Targets(es: seq<Edge>, u: nat): (ts: seq<nat>)
    ensures |ts| <= |es|
    ensures forall v :: v in ts <==> (u, v) in es
  {
    if es == [] then []
    else (if es[0].0 == u then [es[0].1] else []) + Targets(es[1..], u)
  }

  /** u has one target v for each copy of the edge (u, v): parallel edges are all kept. */
  lemma {:induction false} TargetsCount(es: seq<Edge>, u: nat)
    ensures forall v :: multiset(Targets(es, u))[v] == multiset(es)[(u, v)]
  {
    if es != [] {
      TargetsCount(es[1..], u);
      assert es == [es[0]] + es[1..];
    }
  }

  /**
   * `graph.neighbors(u)`: the out-neighbours of u, one per out-edge.
   * petgraph yields them newest edge first; nothing here depends on the order.
   */
  function Neighbors(g: Graph, u: nat): seq<nat> {
    Targets(g.edges, u)
  }

  /** `graph.edges(u).count()` on a directed graph: the out-edge count of u. */
  function OutDegree(g: Graph, u: nat): nat {
    |Targets(g.edges, u)|
  }

  predicate Below(v: nat, n: nat) {
    v < n
  }

  /** The indices 0 .. n-1. */
  ghost function Range(n: nat): set<nat> {
    set v: nat | v < n && Below(v, n)
  }

  lemma {:induction false} RangeSize(n: nat)
    ensures |Range(n)| == n
  {
    if n > 0 {
      RangeSize(n - 1);
      assert Range(n) == Range(n - 1) + {n - 1};
    }
  }

  lemma {:induction false} TargetsAppend(xs: seq<Edge>, ys: seq<Edge>, u: nat)
    ensures Targets(xs + ys, u) == Targets(xs, u) + Targets(ys, u)
  {
    if xs == [] {
      assert xs + ys == ys;
    } else {
      assert (xs + ys)[1..] == xs[1..] + ys;
      TargetsAppend(xs[1..], ys, u);
    }
  }

  /** Detaching keeps no more edges than before, all between the remaining n - 1 nodes. */
  lemma {:induction false} DetachShape(es: seq<Edge>, a: nat, last: nat)
    requires forall i :: 0 <= i < |es| ==> es[i].0 <= last && es[i].1 <= last
    requires a <= last
    ensures |Detach(es, a, last)| <= |es|
    ensures forall i :: 0 <= i < |Detach(es, a, last)| ==>
              Detach(es, a, last)[i].0 < last && Detach(es, a, last)[i].1 < last
  {
    if es != [] {
      DetachShape(es[1..], a, last);
    }
  }

  lemma MovedInjective(x: nat, y: nat, a: nat, last: nat)
    requires y <= last && x != a && y != a
    ensures Moved(x, a, last) == Moved(y, a, last) <==> x == y
  {
  }

  /** An edge (u, v) not touching `a` survives, renamed, exactly as often as before. */
  lemma {:induction false} DetachCount(es: seq<Edge>, a: nat, last: nat, u: nat, v: nat)
    requires u <= last && v <= last && u != a && v != a
    ensures multiset(Detach(es, a, last))[(Moved(u, a, last), Moved(v, a, last))] == multiset(es)[(u, v)]
  {
    if es != [] {
      DetachCount(es[1..], a, last, u, v);
      var e := es[0];
      var image := (Moved(u, a, last), Moved(v, a, last));
      var head := if e.0 == a || e.1 == a then [] else [(Moved(e.0, a, last), Moved(e.1, a, last))];
      assert multiset(es) == multiset([e]) + multiset(es[1..]) by {
        assert es == [e] + es[1..];
      }
      assert multiset(Detach(es, a, last)) == multiset(head) + multiset(Detach(es[1..], a, last));
      if e.0 != a && e.1 != a {
        MovedInjective(e.0, u, a, last);
        MovedInjective(e.1, v, a, last);
        assert multiset(head)[image] == multiset([e])[(u, v)];
      } else {
        assert e != (u, v);
      }
    }
  }

  /**
   * The contract petgraph documents for `remove_node(a)` on an existing node:
   * one node fewer, and every edge not touching `a` survives exactly as often
   * as before, with the former last node now at index a.
   */
  lemma {:induction false} RemoveNodeContract(g: Graph, a: nat)
    requires g.Valid() && a < g.n
    ensures g.RemoveNode(a).n == g.n - 1
    ensures g.RemoveNode(a).Valid()
    ensures |g.RemoveNode(a).edges| <= |g.edges|
    ensures forall u: nat, v: nat :: u < g.n && v < g.n && u != a && v != a ==>
              multiset(g.RemoveNode(a).edges)[(Moved(u, a, g.n - 1), Moved(v, a, g.n - 1))]
              == multiset(g.edges)[(u, v)]
  {
    var last := g.n - 1;
    var r := g.RemoveNode(a);
    assert r == Graph(last, Detach(g.edges, a, last));
    DetachShape(g.edges, a, last);
    forall u: nat, v: nat | u < g.n && v < g.n && u != a && v != a
      ensures multiset(r.edges)[(Moved(u, a, last), Moved(v, a, last))] == multiset(g.edges)[(u, v)]
    {
      DetachCount(g.edges, a, last, u, v);
    }
  }

  /** Removing a node never gives any node more out-edges than it had. */
  lemma {:induction false} DetachOutDegree(es: seq<Edge>, a: nat, last: nat, i: nat)
    requires a <= last
    ensures |Targets(Detach(es, a, last), i)| <= |Targets(es, Unmoved(i, a, last))|
  {
    if es != [] {
      DetachOutDegree(es[1..], a, last, i);
      var e := es[0];
      var head := if e.0 == a || e.1 == a then [] else [(Moved(e.0, a, last), Moved(e.1, a, last))];
      TargetsAppend(head, Detach(es[1..], a, last), i);
      if e.0 != a && e.1 != a && Moved(e.0, a, last) == i {
        assert e.0 == Unmoved(i, a, last);
      }
    }
  }

  lemma {:induction false} RemoveNodeOutDegree(g: Graph, a: nat, i: nat)
    requires a < g.n
    ensures OutDegree(g.RemoveNode(a), i) <= OutDegree(g, Unmoved(i, a, g.n - 1))
  {
    DetachOutDegree(g.edges, a, g.n - 1, i);
  }
}
