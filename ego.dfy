/**
 * `extract_ego_network`: a breadth-first search from a center, bounded by
 * a depth, that passes one edge to `subgraph.add_edge` for every node it
 * discovers.
 */
module Ego {
  import opened Graphs
  import opened Paths
  import opened Distances

  /** How many of the nodes 0 .. n-1 are not yet visited. */
  function Unvisited(visited: set<nat>, n: nat): nat {
    if n == 0 then 0 else Unvisited(visited, n - 1) + (if n - 1 in visited then 0 else 1)
  }

  lemma {:induction false} UnvisitedInsert(visited: set<nat>, n: nat, x: nat)
    requires x !in visited
    ensures Unvisited(visited + {x}, n) == Unvisited(visited, n) - (if x < n then 1 else 0)
  {
    if n > 0 {
      UnvisitedInsert(visited, n - 1, x);
    }
  }

  /**
   * The inner loop: every neighbour of `current` that `visited.insert`
   * accepts is queued one level deeper and emitted as the edge from `current`.
   */
  ghost function EgoVisit(nbrs: seq<nat>, current: nat, visited: set<nat>, queue: seq<(nat, nat)>,
                          emitted: seq<Edge>, d: nat): (r: (set<nat>, seq<(nat, nat)>, seq<Edge>))
    decreases |nbrs|
  {
    if nbrs == [] then (visited, queue, emitted)
    else if nbrs[0] in visited then EgoVisit(nbrs[1..], current, visited, queue, emitted, d)
    else EgoVisit(nbrs[1..], current, visited + {nbrs[0]}, queue + [(nbrs[0], d)], emitted + [(current, nbrs[0])], d)
  }

  lemma {:induction false} EgoVisitCount(n: nat, nbrs: seq<nat>, current: nat, visited: set<nat>,
                                         queue: seq<(nat, nat)>, emitted: seq<Edge>, d: nat)
    requires forall i :: 0 <= i < |nbrs| ==> nbrs[i] < n
    ensures var r := EgoVisit(nbrs, current, visited, queue, emitted, d);
      2 * Unvisited(r.0, n) + |r.1| <= 2 * Unvisited(visited, n) + |queue|
    decreases |nbrs|
  {
    if nbrs != [] {
      if nbrs[0] in visited {
        EgoVisitCount(n, nbrs[1..], current, visited, queue, emitted, d);
      } else {
        UnvisitedInsert(visited, n, nbrs[0]);
        EgoVisitCount(n, nbrs[1..], current, visited + {nbrs[0]}, queue + [(nbrs[0], d)],
                      emitted + [(current, nbrs[0])], d);
      }
    }
  }

  lemma EgoMeasure(g: Graph, depth: nat, visited: set<nat>, queue: seq<(nat, nat)>, emitted: seq<Edge>)
    requires g.Valid() && queue != [] && queue[0].1 < depth
    ensures var r := EgoVisit(Neighbors(g, queue[0].0), queue[0].0, visited, queue[1..], emitted, queue[0].1 + 1);
      2 * Unvisited(r.0, g.n) + |r.1| < 2 * Unvisited(visited, g.n) + |queue|
  {
    NeighborsInRange(g, queue[0].0);
    EgoVisitCount(g.n, Neighbors(g, queue[0].0), queue[0].0, visited, queue[1..], emitted, queue[0].1 + 1);
  }

  /**
   * The outer loop: pop the front (node, depth); a node below the depth
   * bound has its neighbours visited, one at the bound is only dropped.
   * Returns the visited set and the emitted edges.
   */
  ghost function EgoSearch(g: Graph, depth: nat, visited: set<nat>, queue: seq<(nat, nat)>,
                           emitted: seq<Edge>): (set<nat>, seq<Edge>)
    requires g.Valid()
    decreases 2 * Unvisited(visited, g.n) + |queue|
  {
    if queue == [] then (visited, emitted)
    else
      var (current, currentDepth) := queue[0];
      if currentDepth < depth then
        var r := EgoVisit(Neighbors(g, current), current, visited, queue[1..], emitted, currentDepth + 1);
        EgoMeasure(g, depth, visited, queue, emitted);
        EgoSearch(g, depth, r.0, r.1, r.2)
      else EgoSearch(g, depth, visited, queue[1..], emitted)
  }

  /** The search as `extract_ego_network` starts it: the center visited and queued at depth 0. */
  ghost function EgoEdges(g: Graph, center: nat, depth: nat): seq<Edge>
    requires g.Valid()
  {
    EgoSearch(g, depth, {center}, [(center, 0)], []).1
  }

  /**
   * `extract_ego_network`'s search, returning the edges it passes to
   * `subgraph.add_edge`, in order.
   */
  method EgoSearchEdges(g: Graph, center: nat, depth: nat) returns (emitted: seq<Edge>)
    requires g.Valid()
    ensures emitted == EgoEdges(g, center, depth)
  {
    var queue := [(center, 0)];
    var visited := {center};
    emitted := [];
    while queue != []
      invariant EgoSearch(g, depth, visited, queue, emitted) == EgoSearch(g, depth, {center}, [(center, 0)], [])
      decreases 2 * Unvisited(visited, g.n) + |queue|
    {
      var (current, currentDepth) := queue[0];
      if currentDepth < depth {
        EgoMeasure(g, depth, visited, queue, emitted);
        visited, queue, emitted := EgoVisitNeighbors(Neighbors(g, current), current, visited, queue[1..],
                                                     emitted, currentDepth + 1);
      } else {
        queue := queue[1..];
      }
    }
  }

  /** The inner loop over `graph.neighbors(current)`. */
  method EgoVisitNeighbors(neighbors: seq<nat>, current: nat, visited0: set<nat>, queue0: seq<(nat, nat)>,
                           emitted0: seq<Edge>, d: nat)
    returns (visited: set<nat>, queue: seq<(nat, nat)>, emitted: seq<Edge>)
    ensures (visited, queue, emitted) == EgoVisit(neighbors, current, visited0, queue0, emitted0, d)
  {
    visited, queue, emitted := visited0, queue0, emitted0;
    for k := 0 to |neighbors|
      invariant EgoVisit(neighbors[k..], current, visited, queue, emitted, d)
                == EgoVisit(neighbors, current, visited0, queue0, emitted0, d)
    {
      var neighbor := neighbors[k];
      assert neighbors[k..][1..] == neighbors[k + 1..];
      if neighbor !in visited {
        visited := visited + {neighbor};
        queue := queue + [(neighbor, d)];
        emitted := emitted + [(current, neighbor)];
      }
    }
    assert neighbors[|neighbors|..] == [];
  }

  /** The targets of the emitted edges, in order. */
  function TargetsOf(es: seq<Edge>): (ts: seq<nat>)
    ensures |ts| == |es| && forall i :: 0 <= i < |es| ==> ts[i] == es[i].1
  {
    if es == [] then [] else TargetsOf(es[..|es| - 1]) + [es[|es| - 1].1]
  }

  lemma TargetsOfAppend(es: seq<Edge>, e: Edge)
    ensures TargetsOf(es + [e]) == TargetsOf(es) + [e.1]
  {
    assert (es + [e])[..|es|] == es;
  }

  // The invariants are kept in two independent families: `TreeInv` is about
  // which nodes are visited and in which order, `ReachInv` about where the
  // queued nodes and the emitted edges lie in the graph.

  /** Every emitted edge leaves the center or the target of an earlier emitted edge. */
  ghost predicate Rooted(center: nat, emitted: seq<Edge>) {
    forall i :: 0 <= i < |emitted| ==> emitted[i].0 == center || emitted[i].0 in TargetsOf(emitted[..i])
  }

  /**
   * The visited set is the center and the emitted targets, each target
   * emitted once and never the center, and the edges form a tree grown
   * from the center.
   */
  ghost predicate Tree(center: nat, visited: set<nat>, emitted: seq<Edge>) {
    |visited| == |emitted| + 1 &&
    (forall x :: x in visited <==> x == center || x in TargetsOf(emitted)) &&
    Distinct(TargetsOf(emitted)) && center !in TargetsOf(emitted) &&
    Rooted(center, emitted)
  }

  ghost predicate TreeInv(center: nat, visited: set<nat>, queue: seq<(nat, nat)>, emitted: seq<Edge>) {
    Tree(center, visited, emitted) && forall p :: p in queue ==> p.0 in visited
  }

  lemma RootedGrows(center: nat, emitted: seq<Edge>, current: nat, nb: nat)
    requires Rooted(center, emitted) && (current == center || current in TargetsOf(emitted))
    ensures Rooted(center, emitted + [(current, nb)])
  {
    var es := emitted + [(current, nb)];
    assert es[..|emitted|] == emitted;
    forall i | 0 <= i < |emitted| ensures es[..i] == emitted[..i] {
    }
  }

  /** A newly visited neighbour of a visited node extends the tree by one edge. */
  lemma TreeGrows(center: nat, visited: set<nat>, emitted: seq<Edge>, current: nat, nb: nat)
    requires Tree(center, visited, emitted) && current in visited && nb !in visited
    ensures Tree(center, visited + {nb}, emitted + [(current, nb)])
  {
    RootedGrows(center, emitted, current, nb);
    TargetsOfAppend(emitted, (current, nb));
    var ts := TargetsOf(emitted + [(current, nb)]);
    forall i, j | 0 <= i < j < |ts| ensures ts[i] != ts[j] {
      if j == |emitted| {
        assert ts[i] == TargetsOf(emitted)[i];
      }
    }
  }

  lemma {:induction false} TreeVisit(center: nat, nbrs: seq<nat>, current: nat, visited: set<nat>,
                                     queue: seq<(nat, nat)>, emitted: seq<Edge>, d: nat)
    requires TreeInv(center, visited, queue, emitted) && current in visited
    ensures var r := EgoVisit(nbrs, current, visited, queue, emitted, d);
      TreeInv(center, r.0, r.1, r.2)
    decreases |nbrs|
  {
    if nbrs != [] {
      var nb := nbrs[0];
      if nb !in visited {
        TreeGrows(center, visited, emitted, current, nb);
        TreeVisit(center, nbrs[1..], current, visited + {nb}, queue + [(nb, d)], emitted + [(current, nb)], d);
      } else {
        TreeVisit(center, nbrs[1..], current, visited, queue, emitted, d);
      }
    }
  }

  lemma TreePop(center: nat, visited: set<nat>, queue: seq<(nat, nat)>, emitted: seq<Edge>)
    requires queue != [] && TreeInv(center, visited, queue, emitted)
    ensures queue[0].0 in visited && TreeInv(center, visited, queue[1..], emitted)
  {
    assert queue[0] in queue;
    assert forall p :: p in queue[1..] ==> p in queue;
  }

  /** Visiting the neighbours of the popped node keeps `TreeInv`. */
  lemma TreeExpand(g: Graph, center: nat, visited: set<nat>, queue: seq<(nat, nat)>, emitted: seq<Edge>)
    requires queue != [] && TreeInv(center, visited, queue, emitted)
    ensures var r := EgoVisit(Neighbors(g, queue[0].0), queue[0].0, visited, queue[1..], emitted, queue[0].1 + 1);
      TreeInv(center, r.0, r.1, r.2)
  {
    TreePop(center, visited, queue, emitted);
    TreeVisit(center, Neighbors(g, queue[0].0), queue[0].0, visited, queue[1..], emitted, queue[0].1 + 1);
  }

  lemma {:induction false} TreeSearch(g: Graph, center: nat, depth: nat, visited: set<nat>,
                                      queue: seq<(nat, nat)>, emitted: seq<Edge>)
    requires g.Valid() && TreeInv(center, visited, queue, emitted)
    ensures var r := EgoSearch(g, depth, visited, queue, emitted);
      Tree(center, r.0, r.1)
    decreases 2 * Unvisited(visited, g.n) + |queue|
  {
    if queue != [] {
      if queue[0].1 < depth {
        var r := EgoVisit(Neighbors(g, queue[0].0), queue[0].0, visited, queue[1..], emitted, queue[0].1 + 1);
        TreeExpand(g, center, visited, queue, emitted);
        EgoMeasure(g, depth, visited, queue, emitted);
        TreeSearch(g, center, depth, r.0, r.1, r.2);
      } else {
        TreePop(center, visited, queue, emitted);
        TreeSearch(g, center, depth, visited, queue[1..], emitted);
      }
    }
  }

  /**
   * Every emitted edge is an edge of the graph from a node within
   * `depth - 1` of the center to a node within `depth` of it.
   */
  ghost predicate Reach(g: Graph, center: nat, depth: nat, emitted: seq<Edge>) {
    forall i :: 0 <= i < |emitted| ==>
      emitted[i] in g.edges && depth > 0 &&
      emitted[i].0 in Within(g, center, depth - 1) && emitted[i].1 in Within(g, center, depth)
  }

  /** Besides `Reach`, every queued node lies within its queued depth, at most the bound. */
  ghost predicate ReachInv(g: Graph, center: nat, depth: nat, queue: seq<(nat, nat)>, emitted: seq<Edge>) {
    Reach(g, center, depth, emitted) &&
    forall p :: p in queue ==> p.1 <= depth && p.0 in Within(g, center, p.1)
  }

  /** A neighbour of a node within k of the center is within k + 1 of it, along an edge of the graph. */
  lemma NeighborWithin(g: Graph, center: nat, current: nat, k: nat, depth: nat, nb: nat)
    requires g.Valid() && current in Within(g, center, k) && k < depth && nb in Neighbors(g, current)
    ensures (current, nb) in g.edges && nb in Within(g, center, k + 1)
    ensures nb in Within(g, center, depth) && current in Within(g, center, depth - 1)
  {
    var i := NeighborEdge(g, current, nb);
    WithinNext(g, center, k, i);
    WithinGrows(g, center, k + 1, depth);
    WithinGrows(g, center, k, depth - 1);
  }

  lemma ReachGrows(g: Graph, center: nat, depth: nat, queue: seq<(nat, nat)>, emitted: seq<Edge>,
                   current: nat, cd: nat, nb: nat)
    requires g.Valid() && ReachInv(g, center, depth, queue, emitted)
    requires current in Within(g, center, cd) && cd < depth && nb in Neighbors(g, current)
    ensures ReachInv(g, center, depth, queue + [(nb, cd + 1)], emitted + [(current, nb)])
  {
    NeighborWithin(g, center, current, cd, depth, nb);
  }

  lemma {:induction false} ReachVisit(g: Graph, center: nat, depth: nat, nbrs: seq<nat>, current: nat, cd: nat,
                                      visited: set<nat>, queue: seq<(nat, nat)>, emitted: seq<Edge>)
    requires g.Valid() && ReachInv(g, center, depth, queue, emitted)
    requires current in Within(g, center, cd) && cd < depth
    requires forall i :: 0 <= i < |nbrs| ==> nbrs[i] in Neighbors(g, current)
    ensures var r := EgoVisit(nbrs, current, visited, queue, emitted, cd + 1);
      ReachInv(g, center, depth, r.1, r.2)
    decreases |nbrs|
  {
    if nbrs != [] {
      var nb := nbrs[0];
      assert forall i :: 0 <= i < |nbrs[1..]| ==> nbrs[1..][i] == nbrs[i + 1];
      if nb !in visited {
        ReachGrows(g, center, depth, queue, emitted, current, cd, nb);
        ReachVisit(g, center, depth, nbrs[1..], current, cd, visited + {nb}, queue + [(nb, cd + 1)],
                   emitted + [(current, nb)]);
      } else {
        ReachVisit(g, center, depth, nbrs[1..], current, cd, visited, queue, emitted);
      }
    }
  }

  lemma {:induction false} ReachSearch(g: Graph, center: nat, depth: nat, visited: set<nat>,
                                       queue: seq<(nat, nat)>, emitted: seq<Edge>)
    requires g.Valid() && ReachInv(g, center, depth, queue, emitted)
    ensures Reach(g, center, depth, EgoSearch(g, depth, visited, queue, emitted).1)
    decreases 2 * Unvisited(visited, g.n) + |queue|
  {
    if queue != [] {
      assert forall i :: 0 <= i < |queue[1..]| ==> queue[1..][i] == queue[i + 1];
      if queue[0].1 < depth {
        var r := EgoVisit(Neighbors(g, queue[0].0), queue[0].0, visited, queue[1..], emitted, queue[0].1 + 1);
        ReachVisit(g, center, depth, Neighbors(g, queue[0].0), queue[0].0, queue[0].1, visited, queue[1..], emitted);
        EgoMeasure(g, depth, visited, queue, emitted);
        ReachSearch(g, center, depth, r.0, r.1, r.2);
      } else {
        ReachSearch(g, center, depth, visited, queue[1..], emitted);
      }
    }
  }

  // A third family shows the search is complete: a ghost map records the
  // level each visited node was queued at, and the queue, read as a
  // sequence of nodes, is the queue of the distances search of module
  // `Distances` cut off at the depth bound.

  /** The nodes of the queued (node, depth) pairs, in queue order. */
  ghost function Nodes(queue: seq<(nat, nat)>): (ns: seq<nat>)
    ensures |ns| == |queue| && forall i :: 0 <= i < |queue| ==> ns[i] == queue[i].0
  {
    seq(|queue|, i requires 0 <= i < |queue| => queue[i].0)
  }

  /** `level` is defined on the visited nodes and gives each queued node its queued depth. */
  ghost predicate Levels(visited: set<nat>, queue: seq<(nat, nat)>, level: map<nat, nat>) {
    level.Keys == visited && forall p :: p in queue ==> p.0 in level && level[p.0] == p.1
  }

  /**
   * Every out-edge of a node that has left the queue below the depth bound
   * reaches a visited node at most one level further.
   */
  ghost predicate Expanded(g: Graph, level: map<nat, nat>, queue: seq<nat>, depth: nat) {
    forall i :: 0 <= i < |g.edges| && g.edges[i].0 in level && g.edges[i].0 !in queue &&
                level[g.edges[i].0] < depth ==>
      g.edges[i].1 in level && level[g.edges[i].1] <= level[g.edges[i].0] + 1
  }

  ghost predicate CompleteInv(g: Graph, center: nat, depth: nat, visited: set<nat>, queue: seq<(nat, nat)>,
                              level: map<nat, nat>) {
    Levels(visited, queue, level) && center in level && level[center] == 0 &&
    Expanded(g, level, Nodes(queue), depth) && Ordered(level, Nodes(queue))
  }

  lemma NodesIn(queue: seq<(nat, nat)>, level: map<nat, nat>)
    requires forall p :: p in queue ==> p.0 in level
    ensures forall x :: x in Nodes(queue) ==> x in level
  {
    forall x | x in Nodes(queue) ensures x in level {
      var i :| 0 <= i < |queue| && Nodes(queue)[i] == x;
      assert queue[i] in queue;
    }
  }

  lemma LevelsPop(visited: set<nat>, queue: seq<(nat, nat)>, level: map<nat, nat>)
    requires queue != [] && Levels(visited, queue, level)
    ensures Levels(visited, queue[1..], level) && queue[0].0 in level && level[queue[0].0] == queue[0].1
    ensures Nodes(queue[1..]) == Nodes(queue)[1..]
  {
    assert queue[0] in queue;
    assert forall p :: p in queue[1..] ==> p in queue;
  }

  lemma LevelsGrow(visited: set<nat>, queue: seq<(nat, nat)>, level: map<nat, nat>, nb: nat, d: nat)
    requires Levels(visited, queue, level) && nb !in visited
    ensures Levels(visited + {nb}, queue + [(nb, d)], level[nb := d])
    ensures Nodes(queue + [(nb, d)]) == Nodes(queue) + [nb]
  {
  }

  /** The inner loop advances `level` and the node queue as the distances search's inner loop does. */
  lemma {:induction false} LevelsVisit(nbrs: seq<nat>, current: nat, visited: set<nat>, queue: seq<(nat, nat)>,
                                       emitted: seq<Edge>, level: map<nat, nat>, d: nat)
    requires Levels(visited, queue, level)
    ensures var r := EgoVisit(nbrs, current, visited, queue, emitted, d);
      var v := Visit(nbrs, level, Nodes(queue), d);
      Levels(r.0, r.1, v.0) && Nodes(r.1) == v.1
    decreases |nbrs|
  {
    if nbrs != [] {
      var nb := nbrs[0];
      if nb in visited {
        LevelsVisit(nbrs[1..], current, visited, queue, emitted, level, d);
      } else {
        LevelsGrow(visited, queue, level, nb, d);
        LevelsVisit(nbrs[1..], current, visited + {nb}, queue + [(nb, d)], emitted + [(current, nb)],
                    level[nb := d], d);
      }
    }
  }

  /** An out-edge of a node that has left the queue, as in `Distances.RelaxedEdge`, below the bound. */
  lemma ExpandedEdge(g: Graph, depth: nat, level: map<nat, nat>, current: nat, rest: seq<nat>, i: nat,
                     r: (map<nat, nat>, seq<nat>))
    requires g.Valid() && current in level && i < |g.edges|
    requires Expanded(g, level, [current] + rest, depth) && Bounded(level, level[current] + 1)
    requires r == Visit(Neighbors(g, current), level, rest, level[current] + 1)
    requires g.edges[i].0 in r.0 && g.edges[i].0 !in r.1 && r.0[g.edges[i].0] < depth
    ensures g.edges[i].1 in r.0 && r.0[g.edges[i].1] <= r.0[g.edges[i].0] + 1
  {
    var nbrs := Neighbors(g, current);
    var (u, v) := g.edges[i];
    VisitAt(nbrs, level, rest, level[current] + 1, u);
    VisitAt(nbrs, level, rest, level[current] + 1, v);
    if u == current {
      NeighborsCover(g, current, i);
    } else {
      assert u !in [current] + rest;
    }
  }

  lemma ExpandedStep(g: Graph, depth: nat, level: map<nat, nat>, queue: seq<nat>)
    requires g.Valid() && queue != [] && queue[0] in level
    requires Expanded(g, level, queue, depth) && Bounded(level, level[queue[0]] + 1)
    ensures Expanded(g, Visit(Neighbors(g, queue[0]), level, queue[1..], level[queue[0]] + 1).0,
                     Visit(Neighbors(g, queue[0]), level, queue[1..], level[queue[0]] + 1).1, depth)
  {
    var r := Visit(Neighbors(g, queue[0]), level, queue[1..], level[queue[0]] + 1);
    assert queue == [queue[0]] + queue[1..];
    forall i | 0 <= i < |g.edges| && g.edges[i].0 in r.0 && g.edges[i].0 !in r.1 && r.0[g.edges[i].0] < depth
      ensures g.edges[i].1 in r.0 && r.0[g.edges[i].1] <= r.0[g.edges[i].0] + 1
    {
      ExpandedEdge(g, depth, level, queue[0], queue[1..], i, r);
    }
  }

  /** A node dropped at the bound needs no expanding. */
  lemma ExpandedPop(g: Graph, depth: nat, level: map<nat, nat>, queue: seq<nat>)
    requires queue != [] && queue[0] in level && level[queue[0]] >= depth && Expanded(g, level, queue, depth)
    ensures Expanded(g, level, queue[1..], depth)
  {
    assert queue == [queue[0]] + queue[1..];
  }

  lemma OrderedPop(level: map<nat, nat>, queue: seq<nat>)
    requires queue != [] && Ordered(level, queue)
    ensures Ordered(level, queue[1..])
  {
    var rest := queue[1..];
    assert forall i :: 0 <= i < |rest| ==> rest[i] == queue[i + 1];
    if rest != [] {
      LayeredFront(level, rest, level[queue[0]]);
    }
  }

  /** Expanding the popped node keeps `CompleteInv`, with `level` advanced as the inner loop goes. */
  lemma CompleteExpand(g: Graph, center: nat, depth: nat, visited: set<nat>, queue: seq<(nat, nat)>,
                       emitted: seq<Edge>, level: map<nat, nat>) returns (next: map<nat, nat>)
    requires g.Valid() && queue != [] && CompleteInv(g, center, depth, visited, queue, level)
    ensures var r := EgoVisit(Neighbors(g, queue[0].0), queue[0].0, visited, queue[1..], emitted, queue[0].1 + 1);
      CompleteInv(g, center, depth, r.0, r.1, next)
  {
    var current := queue[0].0;
    var nbrs := Neighbors(g, current);
    var ns := Nodes(queue);
    LevelsPop(visited, queue, level);
    NodesIn(queue, level);
    var d := level[current] + 1;
    LevelsVisit(nbrs, current, visited, queue[1..], emitted, level, d);
    next := Visit(nbrs, level, ns[1..], d).0;
    StepSource(center, nbrs, level, ns[1..], d);
    ExpandedStep(g, depth, level, ns);
    StepOrdered(level, ns, nbrs);
  }

  lemma CompletePop(g: Graph, center: nat, depth: nat, visited: set<nat>, queue: seq<(nat, nat)>,
                    level: map<nat, nat>)
    requires queue != [] && queue[0].1 >= depth && CompleteInv(g, center, depth, visited, queue, level)
    ensures CompleteInv(g, center, depth, visited, queue[1..], level)
  {
    LevelsPop(visited, queue, level);
    ExpandedPop(g, depth, level, Nodes(queue));
    OrderedPop(level, Nodes(queue));
  }

  lemma {:induction false} CompleteSearch(g: Graph, center: nat, depth: nat, visited: set<nat>,
                                          queue: seq<(nat, nat)>, emitted: seq<Edge>, level: map<nat, nat>)
    returns (final: map<nat, nat>)
    requires g.Valid() && CompleteInv(g, center, depth, visited, queue, level)
    ensures CompleteInv(g, center, depth, EgoSearch(g, depth, visited, queue, emitted).0, [], final)
    decreases 2 * Unvisited(visited, g.n) + |queue|
  {
    if queue == [] {
      final := level;
    } else if queue[0].1 < depth {
      var r := EgoVisit(Neighbors(g, queue[0].0), queue[0].0, visited, queue[1..], emitted, queue[0].1 + 1);
      var next := CompleteExpand(g, center, depth, visited, queue, emitted, level);
      EgoMeasure(g, depth, visited, queue, emitted);
      final := CompleteSearch(g, center, depth, r.0, r.1, r.2, next);
    } else {
      CompletePop(g, center, depth, visited, queue, level);
      final := CompleteSearch(g, center, depth, visited, queue[1..], emitted, level);
    }
  }

  /** With every node below the bound expanded, everything within k <= depth of the center has a level. */
  lemma {:induction false} ExpandedLevels(g: Graph, center: nat, depth: nat, level: map<nat, nat>, k: nat)
    requires k <= depth && center in level && level[center] == 0 && Expanded(g, level, [], depth)
    ensures forall v :: v in Within(g, center, k) ==> v in level && level[v] <= k
  {
    if k > 0 {
      ExpandedLevels(g, center, depth, level, k - 1);
      var w := Within(g, center, k - 1);
      assert Within(g, center, k) == w + Step(g, w);
      forall v | v in Step(g, w) ensures v in level && level[v] <= k {
        var i := StepElim(g, w, v);
      }
    }
  }

  /** The search visits every node within `depth` of the center. */
  lemma EgoComplete(g: Graph, center: nat, depth: nat)
    requires g.Valid()
    ensures forall v :: v in Within(g, center, depth) ==> v in EgoVisited(g, center, depth)
  {
    var level := map[center := 0];
    assert Nodes([(center, 0)]) == [center];
    var final := CompleteSearch(g, center, depth, {center}, [(center, 0)], [], level);
    ExpandedLevels(g, center, depth, final, depth);
  }

  /** The nodes the search visits, as `extract_ego_network` leaves its `visited` set. */
  ghost function EgoVisited(g: Graph, center: nat, depth: nat): set<nat>
    requires g.Valid()
  {
    EgoSearch(g, depth, {center}, [(center, 0)], []).0
  }

  /**
   * What `extract_ego_network` emits: edges of the graph, each to a newly
   * visited node that is never the center and is reached at most once;
   * one edge fewer than visited nodes; every edge leaves the center or an
   * earlier target, from within `depth - 1` of the center; the visited
   * nodes are exactly those within `depth` of it. With depth 0 nothing is
   * emitted.
   */
  lemma EgoEdgesSpec(g: Graph, center: nat, depth: nat)
    requires g.Valid()
    ensures var es := EgoEdges(g, center, depth);
      (forall i :: 0 <= i < |es| ==> es[i] in g.edges && depth > 0 && es[i].0 in Within(g, center, depth - 1)) &&
      Distinct(TargetsOf(es)) && center !in TargetsOf(es) && Rooted(center, es)
    ensures |EgoEdges(g, center, depth)| == |EgoVisited(g, center, depth)| - 1
    ensures forall x :: x in EgoVisited(g, center, depth) <==> x == center || x in TargetsOf(EgoEdges(g, center, depth))
    ensures forall x :: x in EgoVisited(g, center, depth) <==> x in Within(g, center, depth)
    ensures depth == 0 ==> EgoEdges(g, center, depth) == []
  {
    var es := EgoEdges(g, center, depth);
    assert TargetsOf([]) == [];
    TreeSearch(g, center, depth, {center}, [(center, 0)], []);
    ReachSearch(g, center, depth, {center}, [(center, 0)], []);
    EgoComplete(g, center, depth);
    WithinGrows(g, center, 0, depth);
    forall x | x in EgoVisited(g, center, depth) ensures x in Within(g, center, depth) {
      if x != center {
        var i :| 0 <= i < |es| && TargetsOf(es)[i] == x;
      }
    }
  }

  /**
   * Something is emitted exactly when the depth is positive and the center
   * has an out-edge to another node.
   */
  lemma EgoEdgesNonEmpty(g: Graph, center: nat, depth: nat)
    requires g.Valid()
    ensures EgoEdges(g, center, depth) != [] <==>
      depth > 0 && exists i :: 0 <= i < |g.edges| && g.edges[i].0 == center && g.edges[i].1 != center
  {
    var es := EgoEdges(g, center, depth);
    EgoEdgesSpec(g, center, depth);
    if es != [] {
      assert es[..0] == [] && TargetsOf([]) == [];
      assert es[0].0 == center && es[0].1 == TargetsOf(es)[0];
      var i :| 0 <= i < |g.edges| && g.edges[i] == es[0];
    }
    if depth > 0 && exists i :: 0 <= i < |g.edges| && g.edges[i].0 == center && g.edges[i].1 != center {
      var i :| 0 <= i < |g.edges| && g.edges[i].0 == center && g.edges[i].1 != center;
      assert center in Within(g, center, 0);
      WithinNext(g, center, 0, i);
      WithinGrows(g, center, 1, depth);
      assert g.edges[i].1 in TargetsOf(es);
    }
  }

  /** The center and the targets of the discovered edges are the nodes within `depth` of the center. */
  lemma EgoCoverage(g: Graph, center: nat, depth: nat)
    requires g.Valid()
    ensures forall v :: v in Within(g, center, depth) <==> v == center || v in TargetsOf(EgoEdges(g, center, depth))
  {
    EgoEdgesSpec(g, center, depth);
  }

  /** The discovered edges are edges of the graph between its nodes; depth 0 discovers none. */
  lemma EgoSubgraph(g: Graph, center: nat, depth: nat)
    requires g.Valid()
    ensures forall e :: e in EgoEdges(g, center, depth) ==> e in g.edges && e.0 < g.n && e.1 < g.n
    ensures depth == 0 ==> EgoEdges(g, center, depth) == []
  {
    EgoEdgesSpec(g, center, depth);
  }
}

module EgoNetwork {
  import opened Graphs
  import opened Paths
  import opened Distances
  import opened Ego

  /** `add_edge` applied to each edge in turn; `None` once one of them panics. */
  function AddEdges(sub: Option<Graph>, es: seq<Edge>): (r: Option<Graph>)
    decreases |es|
  {
    if es == [] || sub.None? then sub
    else AddEdges(sub.value.TryAddEdge(es[0].0, es[0].1), es[1..])
  }

  /** On a graph with no nodes the first `add_edge` panics, and nothing else happens. */
  lemma AddEdgesEmpty(es: seq<Edge>)
    ensures AddEdges(Some(Graph(0, [])), es).None? <==> es != []
    ensures es == [] ==> AddEdges(Some(Graph(0, [])), es) == Some(Graph(0, []))
  {
  }

  /**
   * `extract_ego_network` as written: the discovered edges go to
   * `add_edge` on `DiGraph::new()`, which has no nodes; `None` is the panic.
   */
  method ExtractEgoNetwork(g: Graph, center: nat, depth: nat) returns (subgraph: Option<Graph>)
    requires g.Valid()
    ensures subgraph == AddEdges(Some(Graph(0, [])), EgoEdges(g, center, depth))
    ensures subgraph.None? <==> EgoEdges(g, center, depth) != []
    ensures subgraph.None? <==>
      depth > 0 && exists i :: 0 <= i < |g.edges| && g.edges[i].0 == center && g.edges[i].1 != center
    ensures depth == 0 ==> subgraph == Some(Graph(0, []))
  {
    var emitted := EgoSearchEdges(g, center, depth);
    EgoSubgraph(g, center, depth);
    EgoEdgesNonEmpty(g, center, depth);
    subgraph := Some(Graph(0, []));
    var k := 0;
    while k < |emitted| && subgraph.Some?
      invariant 0 <= k <= |emitted|
      invariant AddEdges(subgraph, emitted[k..]) == AddEdges(Some(Graph(0, [])), emitted)
      decreases |emitted| - k
    {
      assert emitted[k..][1..] == emitted[k + 1..];
      subgraph := subgraph.value.TryAddEdge(emitted[k].0, emitted[k].1);
      k := k + 1;
    }
    assert k < |emitted| ==> AddEdges(subgraph, emitted[k..]) == subgraph;
    assert k == |emitted| ==> emitted[k..] == [];
    AddEdgesEmpty(emitted);
  }

  /** A center with one out-neighbour and depth 1: the first `add_edge` panics. */
  lemma EgoPanics()
    ensures EgoEdges(Graph(2, [(0, 1)]), 0, 1) == [(0, 1)]
    ensures AddEdges(Some(Graph(0, [])), EgoEdges(Graph(2, [(0, 1)]), 0, 1)) == None
  {
    var g := Graph(2, [(0, 1)]);
    assert Neighbors(g, 0) == [1];
    assert Neighbors(g, 1) == [];
    assert [1][1..] == [] && 1 !in {0};
    assert EgoVisit([1], 0, {0}, [], [], 1) == EgoVisit([], 0, {0} + {1}, [] + [(1, 1)], [] + [(0, 1)], 1);
    assert {0} + {1} == {0, 1} && [] + [(1, 1)] == [(1, 1)] && [] + [(0, 1)] == [(0, 1)];
    EgoMeasure(g, 1, {0}, [(0, 0)], []);
    assert EgoSearch(g, 1, {0}, [(0, 0)], []) == EgoSearch(g, 1, {0, 1}, [(1, 1)], [(0, 1)]);
    assert EgoSearch(g, 1, {0, 1}, [(1, 1)], [(0, 1)]) == EgoSearch(g, 1, {0, 1}, [], [(0, 1)]);
    AddEdgesEmpty([(0, 1)]);
  }

  /**
   * The evidently intended `extract_ego_network`: the subgraph keeps the
   * node indices of `graph` (one `add_node` per node before the search),
   * so every discovered edge can be added.
   */
  method ExtractEgoNetworkFixed(g: Graph, center: nat, depth: nat) returns (subgraph: Graph)
    requires g.Valid()
    ensures subgraph.n == g.n && subgraph.edges == EgoEdges(g, center, depth)
    ensures subgraph.Valid() && forall e :: e in subgraph.edges ==> e in g.edges
    ensures depth == 0 ==> subgraph.edges == []
    ensures forall v :: v in Within(g, center, depth) <==> v == center || v in TargetsOf(subgraph.edges)
  {
    var emitted := EgoSearchEdges(g, center, depth);
    EgoSubgraph(g, center, depth);
    EgoCoverage(g, center, depth);
    subgraph := Graph(0, []);
    while subgraph.n < g.n
      invariant subgraph == Graph(subgraph.n, []) && subgraph.n <= g.n
      decreases g.n - subgraph.n
    {
      subgraph := subgraph.AddNode();
    }
    for k := 0 to |emitted|
      invariant subgraph == Graph(g.n, emitted[..k])
    {
      assert emitted[k] in emitted;
      assert emitted[..k + 1] == emitted[..k] + [emitted[k]];
      subgraph := subgraph.AddEdge(emitted[k].0, emitted[k].1);
    }
    assert emitted[..|emitted|] == emitted;
  }
}
