# Social-network graph statistics, modelled in Dafny

The program reads a directed graph from an edge list, one `a b` pair per line, into a petgraph
`DiGraph<(), ()>`. It then computes:

- every breadth-first distance from every node;
- the diameter;
- a pruned graph without the nodes of high out-degree;
- a depth-bounded ego network around a center;
- the subgraph induced by a random node sample;
- the histogram of a list of distances.

This project models that core in Dafny and proves what each operation computes.

The graph is a value `Graph(n, edges)`. Node indices are `0 .. n-1` and `edges[i]` is the edge with
edge index `i`. The petgraph operations the program calls are functions on it:
`add_node`, `add_edge` (with its panic as `None`), swap-last `remove_node`, `neighbors` and the
out-edge count.

Where the source mutates local state in a loop, the model keeps the loop. That covers the
breadth-first searches, the map of distances, the collected distance list, the running maximum,
the removal loop and the `add_edge` loop. Each such method is proved against a function of its
inputs, and those functions carry the properties. For the searches these are ghost functions. For
the loader, the removal loop and the `add_edge` loop they are the compiled functions `Load`,
`RemoveAll` and `AddEdges`.

Files and modules:

- `graph.dfy` (`Graphs`): the graph store and petgraph's documented behaviour.
- `paths.dfy` (`Paths`): the reference semantics of distance. `Within(g, s, k)` is the set of
  nodes reachable in at most k hops, and `Dist` is the least such k.
- `loader.dfy` (`Loader`): `load_graph` over the lines of its file, the whitespace split and
  `usize` parsing. It also holds a corrected loader with a label map.
- `distances.dfy` (`Distances`): `compute_distances`, its breadth-first search and
  `graph_diameter`.
- `pruning.dfy` (`Pruning`): `remove_high_degree_nodes`, with a corrected removal order.
- `ego.dfy` (`Ego`, `EgoNetwork`): `extract_ego_network`, with a corrected subgraph
  construction.
- `sampling.dfy` (`Sampling`): `random_subgraph`. The random choice is a parameter.
- `histogram.dfy` (`Histogram`): the binning step of `plot_histogram`.
- `scenarios.dfy` (`PathExample`): the unit tests' path file `0 1`, `1 2`, `2 3`, `3 4`.

The model follows the code in these points, which are easy to misread:

- `compute_distances` keeps each source's own distance 0 in the list; self-distances are not
  left out. See `Distances.AllDistancesZeros`.
- The node count of a loaded graph is not the number of distinct labels (Finding 1).
- `random_subgraph` with a sample size above the node count is not an error.
  `choose_multiple` returns all nodes and the result is the whole graph. See
  `Sampling.RandomSubgraphSize` and `Sampling.WholeSample`.
- With depth 0, `extract_ego_network` returns a graph with no nodes at all, not a single-node
  graph. See `EgoNetwork.ExtractEgoNetwork`.

## Model

| member | source | states |
|---|---|---|
| Graphs.Graph.TryAddEdge | main.rs:29 | `add_edge(a, b)` succeeds exactly when both endpoints are existing nodes; it then appends the edge (a, b) and keeps the node count. `None` is petgraph's panic. |
| Graphs.Targets | main.rs:48 | The out-neighbours of u are exactly the targets of the edges that leave u, one per edge at most. |
| Graphs.TargetsCount | main.rs:48 | u has target v exactly as often as the edge (u, v) occurs, so parallel edges are all kept. |
| Graphs.RemoveNodeContract | main.rs:69 | `remove_node(a)` on an existing node leaves one node fewer and a valid graph with no more edges. Every edge (u, v) not touching `a` survives exactly as often as before, renamed by the swap of the last node into slot `a`. |
| Graphs.RemoveNodeOutDegree | main.rs:65-69 | After `remove_node`, no node has more out-edges than the node it was before the removal. |
| Loader.Words | main.rs:18 | `split_whitespace` yields only non-empty tokens without whitespace. |
| Loader.WordsSkip | main.rs:18 | An empty line has no tokens, and whitespace before the first token is skipped. |
| Loader.WordsSingle | main.rs:18 | A word with no whitespace is one token. |
| Loader.WordsSplit | main.rs:18 | A token ends at the first whitespace character after it, and the rest of the line is split on its own. |
| Loader.WordsSolid | main.rs:18 | Concatenated, the tokens are the line with its whitespace removed, so nothing but whitespace is dropped or reordered. |
| Loader.ParseUsize | main.rs:19 | A token that parses denotes a value no larger than `usize::MAX`. |
| Loader.ParseShow | main.rs:19 | Every value up to `usize::MAX` parses back from its decimal form, with or without a leading `+`. |
| Loader.ParseRejects | main.rs:19 | A `-` sign, a doubled `+` and a value above `usize::MAX` do not parse. |
| Loader.ParseAll | main.rs:17-20 | `filter_map(parse().ok())` keeps at most as many numbers as tokens, each a `usize`. |
| Loader.ParseAllCount | main.rs:17-20 | It keeps exactly one number per token that parses. |
| Loader.ParseAllAppend | main.rs:17-20 | Parsing a concatenation of token lists concatenates their parsed numbers, in order. |
| Loader.ParseAllOne | main.rs:17-20 | A single token gives its value when it parses and nothing otherwise. |
| Loader.FindNodeSpec | main.rs:26-27 | `node_indices().find(n.index() == label)` finds a node exactly when the label is below the node count, and the node it finds is the label itself. |
| Loader.ResolveSpec | main.rs:26-27 | `get_or_insert_with(add_node)` reuses an index below the node count. Otherwise it adds one node, numbered with the old count. |
| Loader.AddLineEffect | main.rs:15-30 | A line adds exactly one edge when exactly two of its tokens parse, and changes nothing otherwise. It adds at most two nodes and keeps the earlier edges. |
| Loader.AddLineEndpoints | main.rs:22-29 | The edge of an accepted line `a b` joins index a, or a new node when a is not below the count, to index b, or a new node when b is not below the updated count. |
| Loader.LoadGraph | main.rs:10-34 | The loop over the lines builds `Load(lines)`: a valid graph with one edge per accepted line. |
| Loader.LoadShape | main.rs:10-34 | The loaded graph is valid, has one edge per accepted line and at most two nodes per accepted line. |
| Loader.TwoWords | main.rs:18 | Two tokens joined by a space split into those two tokens. |
| Loader.PairLine | main.rs:17-22 | The line `a b` carries exactly the two numbers a and b. |
| Loader.LoadPath | main.rs:10-34 | The file `0 1`, ..., `k-1 k` loads as k + 1 nodes and the edges i -> i + 1, in order. |
| Loader.LoadTestFile | main.rs:210-221 | The unit tests' file loads as 5 nodes and 4 edges. |
| Loader.LoadConflatesLabels | main.rs:26-27 | As written, the one-line file `a 0` with a > 0 loads as the self-loop 0 -> 0 on one node (Finding 1). |
| Loader.Intern | main.rs:26-27 | Interning a label maps it to the node index it returns. |
| Loader.LoadLabelledFaithful | main.rs:10-34 | The corrected loader maps the labels seen one-to-one onto the node indices. The node count is the number of distinct labels, and edge i joins the nodes of the labels on accepted line i. |
| Loader.LoadLabelledKeepsLabels | main.rs:26-27 | The corrected loader loads `a 0` as two nodes and the edge between them. |
| Distances.VisitNeighbors | main.rs:48-53 | The inner loop computes `Visit`: each neighbour without a distance gets the current distance plus one and joins the back of the queue. |
| Distances.VisitMap | main.rs:48-53 | After a round, the recorded nodes are the old ones plus the neighbours. Old distances are unchanged and new nodes get distance d. |
| Distances.VisitQueue | main.rs:48-53 | A round appends to the queue exactly the neighbours not yet recorded, each at its first occurrence. |
| Distances.FreshComplete | main.rs:48-53 | No neighbour without a distance is missed and none is queued twice. |
| Distances.SearchStep | main.rs:45-54 | One round of the search keeps the frontier invariant: the source at 0, every entry reached within its distance, the queue in breadth-first order and every dequeued node relaxed. |
| Distances.SearchMeasure | main.rs:45-54 | Each round strictly lowers twice the unseen-node count plus the queue length, so the loop ends. |
| Distances.SearchFinishes | main.rs:45-54 | A search started in the invariant ends with the source at 0, every entry placed and every recorded node relaxed. |
| Distances.SearchDistances | main.rs:40-54 | The search from s records exactly the nodes reachable from s, each at its shortest-path hop count. |
| Distances.ShortestPathLengths | main.rs:40-54 | The method's final map has key v exactly when v is reachable from the source, with value the shortest distance. |
| Distances.Values | main.rs:56 | The listed values are exactly the values the map holds for nodes. |
| Distances.ValuesDistances | main.rs:56 | The values of the search's map are the distances to the reachable nodes, in node order. |
| Distances.ComputeDistances | main.rs:36-60 | The loop over all sources collects `AllDistances`, one search's values per node, in node order. |
| Distances.SearchKeys | main.rs:56 | The search's map has only node keys, so every value it holds reaches the list. |
| Distances.AllDistancesZeros | main.rs:43 | The collected list holds exactly one 0 per node, the distance of each source to itself. |
| Distances.AllDistancesLength | main.rs:36-60 | The list has at least one entry per node. |
| Distances.AllDistancesMembers | main.rs:36-60 | A value is in the list exactly when it is the shortest distance from some node to some node reachable from it. |
| Distances.AllDistancesBound | main.rs:36-60 | No collected distance exceeds n - 1. |
| Distances.MaxOf | main.rs:77 | `values().max()` returns `None` exactly for no values, and otherwise a largest value. |
| Distances.SourceMax | main.rs:76-77 | The largest value of one search's map is the eccentricity of its source. |
| Distances.LargestStep | main.rs:78 | `max_distance.max(max)` extends the largest distance from sources 0 .. k-1 to 0 .. k. |
| Distances.GraphDiameter | main.rs:73-82 | `graph_diameter` returns the largest shortest-path distance between a node and a node reachable from it, and 0 for an empty graph. |
| Distances.DiameterUnique | main.rs:73-82 | That value is determined by the graph. |
| Distances.DiameterOfDistances | main.rs:36-82 | On a non-empty graph, the diameter is in the list `compute_distances` collects and bounds every entry of it. |
| Distances.DiameterBound | main.rs:73-82 | The diameter of a non-empty graph is at most n - 1. |
| Distances.DiameterZero | main.rs:73-82 | The diameter is 0 exactly when every edge is a self-loop. |
| Paths.PredecessorOnPreviousLevel | main.rs:45-54 | Every node at distance d > 0 from the source is the target of an edge from a node at distance d - 1. |
| Paths.DistBound | main.rs:45-54 | A reachable node is at most n - 1 hops away. |
| Paths.DistZero | main.rs:43 | A distance is 0 exactly for the source itself. |
| Pruning.HighDegreeSpec | main.rs:63-66 | A node is flagged exactly when its out-edge count on the unpruned graph exceeds the threshold; the flags ascend. |
| Pruning.RemoveHighDegreeNodes | main.rs:62-71 | The loop applies `remove_node` to each flagged index in turn, ascending. |
| Pruning.RemoveAllShrinks | main.rs:68-70 | Removals keep the graph valid and never add a node or an edge. |
| Pruning.PruneNothing | main.rs:62-71 | A threshold no out-degree exceeds flags nothing and leaves the graph unchanged. |
| Pruning.RepresentsStart | main.rs:62-71 | Before any removal, the graph represents itself with every index its own origin. |
| Pruning.PruneRepresents | main.rs:68-70 | In any removal order, the result is what is left of the graph under the tracked origins, with every edge count between survivors intact. |
| Pruning.PruneStale | main.rs:62-71 | As written, on 0 -> 1, 2 -> 1 with threshold 0, flagged node 2 survives with its out-edge (Finding 2). |
| Pruning.RemoveHighDegreeNodesDescending | main.rs:62-71 | The corrected loop removes the flagged indices highest first. |
| Pruning.DescendingOrigins | main.rs:68-70 | Removing indices in strictly descending order, each still naming its node, removes exactly those nodes. |
| Pruning.FlaggedOrigins | main.rs:62-71 | Highest first, the survivors are exactly the nodes within the threshold, and their number is n minus the number flagged. |
| Pruning.PruneDescendingCorrect | main.rs:62-71 | The corrected pruning leaves exactly the nodes with out-degree at most the threshold, every edge count between them intact, and n minus the flagged count nodes. |
| Ego.EgoVisitNeighbors | main.rs:94-99 | The inner loop computes `EgoVisit`: each neighbour that `visited.insert` accepts is queued one level deeper and emitted as the edge from `current`. |
| Ego.EgoSearchEdges | main.rs:85-101 | The outer loop emits `EgoEdges`, the edges `extract_ego_network` passes to `add_edge`, in order. |
| Ego.EgoMeasure | main.rs:92-101 | Each expanded round lowers twice the unvisited-node count plus the queue length. |
| Ego.TreeSearch | main.rs:89-101 | The search keeps the tree invariant: one edge per newly visited node, none to the center, none twice, each from an already visited node. |
| Ego.ReachSearch | main.rs:89-101 | Every emitted edge is an edge of the graph from within depth - 1 of the center to within depth. |
| Ego.CompleteSearch | main.rs:89-101 | The search keeps the completeness invariant: every visited node has the level it was queued at, the node queue is in breadth-first order, and every node that left the queue below the depth bound has all its out-neighbours visited at most one level further. |
| Ego.EgoComplete | main.rs:89-101 | Every node within depth hops of the center is visited. |
| Ego.EgoEdgesSpec | main.rs:89-101 | The emitted edges are graph edges from within depth - 1. Their targets are distinct, never the center, and each edge leaves the center or an earlier target. There is one edge fewer than visited nodes, the visited nodes are exactly those within depth, and depth 0 emits nothing. |
| Ego.EgoEdgesNonEmpty | main.rs:89-101 | Some edge is emitted exactly when depth > 0 and the center has an out-edge to another node. |
| Ego.EgoCoverage | main.rs:89-101 | The center and the targets of the emitted edges are exactly the nodes within depth hops of the center. |
| Ego.EgoSubgraph | main.rs:89-101 | The emitted edges join nodes of the graph, and depth 0 emits none. |
| EgoNetwork.AddEdgesEmpty | main.rs:85 | On `DiGraph::new()`, which has no nodes, the first `add_edge` panics. With no edges the empty graph comes back. |
| EgoNetwork.ExtractEgoNetwork | main.rs:84-104 | As written, `extract_ego_network` panics exactly when the search discovers a node, that is exactly when depth > 0 and the center has an out-edge to another node. Otherwise it returns the graph with no nodes, in particular for depth 0 (Finding 3). |
| EgoNetwork.EgoPanics | main.rs:84-104 | On the graph 0 -> 1, with center 0 and depth 1, the edge (0, 1) is emitted and `add_edge` panics. |
| EgoNetwork.ExtractEgoNetworkFixed | main.rs:84-104 | The corrected extraction keeps the parent's node indices and holds exactly the discovered edges, all of them edges of the parent. The graph is valid, depth 0 gives no edges, and the center and the edges' targets are exactly the nodes within depth hops of the center. |
| Sampling.Kept | main.rs:115-116 | `filter_map` keeps only sampled nodes of the graph, at most n of them. |
| Sampling.KeptMembers | main.rs:115-116 | A node is kept exactly when it is a node of the graph and in the sample. |
| Sampling.KeptAscending | main.rs:115-116 | The kept nodes are in strictly ascending index order, so the new numbering keeps the old order. |
| Sampling.RandomSubgraphInduced | main.rs:106-119 | The result is valid and keeps exactly the sampled nodes, in ascending order. Renamed back to the old indices, its edges are exactly the edges with both endpoints sampled, in edge order. |
| Sampling.InducedMembers | main.rs:115-117 | An edge is induced exactly when it is an edge of the graph with both endpoints sampled. |
| Sampling.RandomSubgraphSize | main.rs:108-113 | With a sample from `choose_multiple`, the result has min(k, n) nodes. |
| Sampling.EmptySample | main.rs:106-119 | A sample size of 0 gives the empty graph. |
| Sampling.WholeSample | main.rs:106-119 | A sample size of at least n gives back the whole graph. |
| Histogram.MinOf | main.rs:122 | `iter().min()` returns `None` exactly for no data, and otherwise a smallest value. |
| Histogram.Count | main.rs:126 | The count of a bin is its number of occurrences in the data. |
| Histogram.BinsSpec | main.rs:124-129 | The bins run from lo to hi in order, each with its occurrence count. |
| Histogram.HistogramSpec | main.rs:122-129 | On non-empty data there is one bin per integer from the smallest to the largest value, ascending, each with its count. The counts add up to the data length. |
| Histogram.EmptyHistogram | main.rs:122-129 | With no data the defaults give the two empty bins 0 and 1. |
| PathExample.PathWithin | main.rs:45-54 | On the path 0 -> ... -> k, the nodes within d hops of 0 are exactly 0 .. min(d, k). |
| PathExample.PathDiameter | main.rs:73-82 | The diameter of the path 0 -> ... -> k is k. |
| PathExample.TestFileDistances | main.rs:225-234 | On the unit tests' file, the distance list has at least 5 entries, none above 4, and contains 4, which is the diameter. |

## Left out

- File reading, the plotting of the histogram, the console output and `main` are not modelled.
  `load_graph` takes the file's lines as its input, and only the binning step of
  `plot_histogram` is modelled.
- The random number generator of `random_subgraph` is a parameter. The sample is any sequence
  `choose_multiple` may return: min(k, n) distinct node indices. Uniformity is not modelled.
- `dijkstra` with unit costs in `graph_diameter` is modelled by the same breadth-first search
  as `compute_distances`, which finds the same hop counts. Its priority-queue internals are not
  modelled.
- `HashMap::values()` yields values in an unspecified order. The model lists them in ascending
  key order, and each statement about the distance list holds up to that order.
- `graph.neighbors(u)` is taken in edge-index order. petgraph yields the most recent edge
  first. The distances, diameter and pruning do not depend on the order. The order of the ego
  edges does, and so does the choice of which edge reaches a node first.
- `Graphs.RemoveNodeContract`: states the edges after `remove_node` as a multiset, without the
  order in which petgraph's edge swapping leaves them.
- `&mut` parameters and local `mut` graphs are values passed in and returned. Rust's exclusive
  borrow rules out aliasing.
- `usize` arithmetic cannot overflow in the model. Distances and counts are bounded by the node
  and edge counts, so `current_distance + 1` cannot overflow on any graph that fits in memory.
- The `expect` panics on I/O errors are not modelled.
- `DiGraph` uses `u32` indices by default. `add_node` and `add_edge` panic instead of creating
  index 2^32 - 1. A graph therefore holds at most 2^32 - 1 nodes and 2^32 - 1 edges, and
  `load_graph` panics on a file that needs more, for instance one with 2^32 accepted lines.
  The model's node count and edge list are unbounded.

## Findings

| source | as written | input that shows it | evidently intended | confidence | as-written member | corrected member |
|---|---|---|---|---|---|---|
| main.rs:26-27 | A label is looked up as a node index, so a label already below the node count is taken as that node, whatever label named it. | The one-line file `5 0`: label 5 becomes node 0, then label 0 finds node 0, giving one node and the self-loop 0 -> 0. | Each distinct label gets its own node: a label map, with edges between the labels' nodes. | high, not executed | Loader.LoadConflatesLabels | Loader.LoadLabelledFaithful |
| main.rs:68-70 | The flagged indices are computed once and then removed in ascending order. Each `remove_node` moves the last node into the freed slot, so later indices name other nodes or none. | `0 -> 1`, `2 -> 1` with threshold 0: removing 0 moves node 2 to index 0, `remove_node(2)` is a no-op, and node 2 survives with out-degree 1. | Exactly the nodes whose out-degree exceeds the threshold are removed, for instance by removing highest index first. | high, not executed | Pruning.PruneStale | Pruning.PruneDescendingCorrect |
| main.rs:85-97 | The discovered edges are added to `DiGraph::new()`, which has no nodes, and `add_edge` panics on a missing endpoint. | The graph 0 -> 1 with center 0 and depth 1 discovers (0, 1), and the first `add_edge` panics. | The ego network holds the discovered edges over the parent's node indices. | high, not executed | EgoNetwork.EgoPanics | EgoNetwork.ExtractEgoNetworkFixed |
