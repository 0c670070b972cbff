# Edmonds-Karp maximum flow, modelled in Dafny

This project models the maximum-flow engine of `task_1/task_1.py`: the
breadth-first search `bfs` (lines 53-77), which looks for a path of positive
residual capacity from a source to a sink and records predecessors in a
`parent` table, and `edmonds_karp` (lines 80-120), which starts from the zero
flow and repeatedly finds such a path, walks it back from the sink to get its
bottleneck, pushes that bottleneck along it (adding it on each edge and
subtracting it on the reverse edge) and adds it to the running total, until
the search fails.

The model keeps the program's imperative form:

- the capacity matrix is a read-only `seq<seq<int>>`;
- the flow matrix is an `array2<int>` updated in place;
- `parent` and `visited` are arrays;
- the deque is a local sequence, with `popleft` taking the head.

Python integers are unbounded and so are Dafny's `int`, so no width is
modelled.

Three modules:

- `Network` (`network.dfy`) defines the specification the methods are proved
  against:
  - residual capacity, residual and augmenting paths;
  - flows, meaning antisymmetric flow matrices within capacity that conserve
    flow at every node but the source and the sink;
  - the bottleneck of a path, and what pushing an amount along a path does to
    a flow matrix.
- `Cuts` (`cuts.dfy`) proves the max-flow/min-cut argument: every flow's value
  equals what it carries across any source/sink cut, and a flow that leaves
  no residual path saturates the cut of the nodes its residual graph reaches.
- `EdmondsKarp` (`edmonds_karp.dfy`) holds the methods:
  - `Bfs` and its inner loop `ScanNeighbours`;
  - `PathFlow` (the bottleneck walk, lines 93-104) and `PushFlow` (the update
    walk, lines 106-112);
  - `AugmentAlongPath`, which is one round of the outer loop;
  - `EdmondsKarp`, which is the whole algorithm.

The parent table is created once per query (line 88) and never cleared
between searches, so a search can leave entries from earlier searches in it.
The model keeps this. `Bfs` is proved to return a path that the parent chain
retraces from the sink anyway, because every node a search reaches gets its
entry rewritten before the chain is followed.

## Model

| member | source | states |
|---|---|---|
| `EdmondsKarp.EdmondsKarp` | task_1/task_1.py:80-120 | The flow matrix is newly allocated for the query. Starting from the zero flow, the result is a flow. It stays within every capacity, is antisymmetric and is conserved at every node but the source and the sink. The returned total is the source's net outflow and, when the source is not the sink, the sink's net inflow. It is between 0 and the capacity out of the source. No augmenting path is left. No flow is worth more, and some cut has exactly this value as its capacity. If the source is the sink, or the capacities give no path, the total is 0 and the flow matrix is all zeros. Termination follows from the total rising by at least 1 per round while staying bounded. |
| `EdmondsKarp.Bfs` | task_1/task_1.py:53-77 | If it returns true, following `parent` back from the sink retraces a simple path from the source to the sink over edges of positive residual capacity. The path has at most as many nodes as the graph, even with stale entries in `parent`. If it returns false, no residual walk from the source reaches the sink (or the source is the sink). It changes only `parent`, never the source's entry, and every entry it changes names a residual predecessor. It terminates. |
| `EdmondsKarp.ScanNeighbours` | task_1/task_1.py:63-76 | One pass of the `for neighbor` loop ends with every residual successor of the dequeued node visited, unless it stopped at the sink. The new queue is the old queue with nodes appended at its end. No node is unmarked. Every node it newly marks gets the dequeued node as its parent and is enqueued, except the sink, whose marking returns at once. Every other parent entry is unchanged. It keeps the search tree: every visited node's recorded parent is visited, one level shallower and joined to it by a residual edge. Every visited node off the queue has all its residual successors visited. The unvisited count falls by the number enqueued. |
| `EdmondsKarp.SearchStarts` | task_1/task_1.py:58-60 | The search starts with only the source visited and queued, which is a valid search state. |
| `EdmondsKarp.Dequeue` | task_1/task_1.py:62-63 | Taking the head off the queue keeps the search state. The nodes that may still have unvisited residual successors are the head and the rest of the queue. |
| `EdmondsKarp.VisitStep` | task_1/task_1.py:66-76 | Marking a residual successor visited and recording its parent keeps the search tree, with or without enqueueing it. It keeps the closure of the nodes off the queue, extends the scanned range by one, and lowers the unvisited count by one. |
| `EdmondsKarp.RecordVisit` | task_1/task_1.py:72-76 | Setting a node's parent to the dequeued node and marking it keeps the scan's record of changes: the queue grows only at its end, nothing is unmarked, each newly marked node has the dequeued node as parent and is enqueued, except the sink when the scan stops there, and no other parent entry changes. |
| `EdmondsKarp.SkipStep` | task_1/task_1.py:66-71 | Passing over a visited node or a saturated edge extends the scanned range by one. |
| `EdmondsKarp.VisitKeepsState` | task_1/task_1.py:72-73 | Recording `current` as the new node's parent keeps every visited node's chain back to the source intact and the untouched entries unchanged. |
| `EdmondsKarp.VisitKeepsClosed` | task_1/task_1.py:73-76 | Visiting and enqueueing a node keeps every visited node that is not pending closed under residual edges. |
| `EdmondsKarp.MarkVisited` | task_1/task_1.py:73 | Marking an unvisited node leaves exactly one fewer unvisited node, which bounds the search. |
| `EdmondsKarp.TreeChainIsPath` | task_1/task_1.py:97-98 | Following `parent` back from a visited node reaches the source after exactly its depth in steps, along residual edges, with node k of the chain at depth k. |
| `EdmondsKarp.ChainDistinct` | task_1/task_1.py:97-98 | The nodes of such a chain are pairwise distinct. |
| `EdmondsKarp.TreeChainAugments` | task_1/task_1.py:74-75 | When the sink is reached, its parent chain is a simple augmenting path with at most N nodes, that is at most N-1 steps. |
| `EdmondsKarp.SearchExhausted` | task_1/task_1.py:62-77 | When the queue runs dry without the sink, no residual walk from the source reaches the sink. |
| `EdmondsKarp.PathFlow` | task_1/task_1.py:93-104 | The walk from the sink back to the source, with the running minimum starting unbounded, yields the path's bottleneck. That value is strictly positive, at most the residual capacity of every edge on the path, and equal to one of them. |
| `EdmondsKarp.PushFlow` | task_1/task_1.py:106-112 | The second walk leaves the flow matrix equal to the old one with the amount added on every edge of the path and subtracted on every reverse edge. |
| `EdmondsKarp.AugmentAlongPath` | task_1/task_1.py:93-115 | One round of the outer loop keeps the matrix a flow within capacity. It raises the source's net outflow (and lowers the sink's) by the positive bottleneck, which stays within the capacity out of the source. |
| `Network.ZeroMatrix` | task_1/task_1.py:87 | The initial flow matrix is N by N and all zeros. |
| `Network.ZeroIsFlow` | task_1/task_1.py:87-89 | The zero matrix is a flow for non-negative capacities, and every node's net outflow is 0, so `max_flow = 0` matches it. |
| `Network.BottleneckAtMost` | task_1/task_1.py:97-104 | The bottleneck is at most the residual capacity of each edge of the path. |
| `Network.BottleneckAttained` | task_1/task_1.py:97-104 | The bottleneck equals the residual capacity of some edge of the path. |
| `Network.BottleneckIsMinimum` | task_1/task_1.py:97-104 | The bottleneck is the minimum residual capacity over the path. It is strictly positive on a residual path. |
| `Network.EdgeOfBottleneck` | task_1/task_1.py:99-103 | Any consecutive pair of the path has residual capacity at least the bottleneck. |
| `Network.DistinctBound` | task_1/task_1.py:97-104 | A path of distinct nodes below N has at most N nodes, so the backward walk takes at most N-1 steps. |
| `Network.RemoveLargest` | task_1/task_1.py:97-104 | Dropping node N-1 from a simple path below N leaves a simple path below N-1, one node shorter. |
| `Network.ClosedSetTraps` | task_1/task_1.py:62-77 | A set of visited nodes closed under residual edges contains every node a residual walk from inside it reaches. |
| `Network.NetPeel` | task_1/task_1.py:108-112 | Pushing along a path is pushing over its first edge (and the reverse) and then along the rest. |
| `Network.NetAntisymmetric` | task_1/task_1.py:110-111 | What pushing along a path adds to (u, v) is minus what it adds to (v, u), so antisymmetry is kept. |
| `Network.EdgeOfStartsOnPath` | task_1/task_1.py:108-112 | Only pairs that start on the path are edges of it. |
| `Network.NetAtMostPushed` | task_1/task_1.py:110-111 | On a simple path, a non-negative push adds at most that amount to an edge of the path and at most 0 to any other pair, so capacities are kept. |
| `Network.ExcessTelescopes` | task_1/task_1.py:108-112 | The net amount a push along a path takes out of a node is the amount at the first node, minus the amount at the last node, and 0 elsewhere. |
| `Network.NetSumOfShortPath` | task_1/task_1.py:108-112 | A path of fewer than two nodes pushes nothing. |
| `Network.NetSumPeel` | task_1/task_1.py:108-112 | Over the first k columns, what a push adds to row w is what the rest of the path adds. Add the amount if the first edge leaves w, and subtract it if the first edge enters w. Both count only when the edge's other end is a column below k. |
| `Network.NetSumIsExcess` | task_1/task_1.py:108-112 | Summed over a whole row, the changes from a push are the node's excess on the path. |
| `Network.AugmentRowSum` | task_1/task_1.py:108-112 | After a push, each row prefix sum is the old one plus the row's summed change. |
| `Network.SumToMono` | task_1/task_1.py:115 | Row sums are monotone in the entries. |
| `Network.SumToZero` | task_1/task_1.py:87 | An all-zero row sums to 0. |
| `Network.FlowValueBounded` | task_1/task_1.py:115 | A flow's value (the source's net outflow) is at most the capacity out of the source. |
| `Network.AugmentKeepsFlow` | task_1/task_1.py:106-115 | Pushing at most the bottleneck along an augmenting path turns a flow into a flow: antisymmetric, within capacity and conserved at the intermediate nodes. The source's net outflow rises by the amount and the sink's falls by it. |
| `Network.MatrixExt` | task_1/task_1.py:106-112 | Two N-by-N matrices that agree at every entry are equal. |
| `Cuts.PartSplit` | task_1/task_1.py:83 | A row's sum splits into its source-side and sink-side parts. |
| `Cuts.SideSplit` | task_1/task_1.py:83 | The source side's total outflow splits into what stays inside it and what crosses the cut. |
| `Cuts.BlockWiden` | task_1/task_1.py:83 | Widening the inside sum by one column adds that column's source-side entries. |
| `Cuts.ColumnMirror` | task_1/task_1.py:83 | For an antisymmetric matrix, a column read over the source side is the negated source-side part of the matching row. |
| `Cuts.InsideVanishes` | task_1/task_1.py:83 | Flow between nodes on the same side of a cut sums to zero. |
| `Cuts.SideOutflowOfSource` | task_1/task_1.py:83 | With conservation, the source side's total outflow is the source's outflow. |
| `Cuts.PartMono` | task_1/task_1.py:83 | Sums over the sink-side columns are monotone in the entries. |
| `Cuts.BlockMono` | task_1/task_1.py:83 | What crosses a cut is monotone in the crossing entries. |
| `Cuts.FlowValueCrossesCut` | task_1/task_1.py:83 | A flow's value equals what it carries across any cut separating the source from the sink. |
| `Cuts.WeakDuality` | task_1/task_1.py:83 | No flow is worth more than the capacity of any source/sink cut. |
| `Cuts.NothingCrosses` | task_1/task_1.py:83 | With every node on the source side, nothing crosses. |
| `Cuts.NoSinkSide` | task_1/task_1.py:83 | With every node on the source side, a row's sink-side part is 0. |
| `Cuts.SameEndsWorthNothing` | task_1/task_1.py:83 | When the source is the sink, every flow is worth 0, so 0 is the maximum. |
| `Cuts.ReachExtends` | task_1/task_1.py:64-71 | A residual edge out of a node reachable from the source leads to a reachable node. |
| `Cuts.ResidualCut` | task_1/task_1.py:77 | When no residual walk joins the source to the sink, the nodes reachable from the source form a cut, and the flow fills every edge leaving it to capacity. |
| `Cuts.NoAugmentingPathIsMaximum` | task_1/task_1.py:83 | A flow that leaves no residual path from the source to the sink has the value of some cut's capacity, and is worth at least as much as every other flow: the "maximum flow" the program reports. |

## Left out

- Building the graph with networkx, drawing it with matplotlib, building the capacity matrix, and the driver that queries every terminal and shop and prints a pandas table (the rest of `task_1/task_1.py`). These are input, output and presentation around the algorithm and are not part of this model.
- `float("inf")` as the start of the running minimum in step 1 is modelled by an `unbounded` flag that makes the first edge set the minimum, which is what `min(inf, r)` does.
- The Python lists of lists are fixed-size arrays here. The code never changes their length.
- The inner `for` loop of `bfs` and the three steps of the outer loop of `edmonds_karp` are written as separate methods (`ScanNeighbours`, `PathFlow`, `PushFlow`, `AugmentAlongPath`). They do the same updates in the same order.
- `EdmondsKarp.EdmondsKarp` requires non-negative capacities. The graph's capacities are non-negative, and a negative entry would make the zero flow exceed capacity.
- `EdmondsKarp.Bfs`: the `visited` table is local to the search and is not returned. The claim that `parent` changes only for newly reached nodes is therefore stated as: the source's entry is unchanged, and every changed entry names a residual predecessor.
- That breadth-first search finds shortest augmenting paths, and the resulting O(V·E²) bound on the number of rounds, are not proved. Termination is proved instead from the flow value rising by at least 1 per round and being bounded by the capacity out of the source.
