# Maximum flow by Edmonds-Karp, modelled in Dafny

This project models the `FlowNetwork` class of the maximum-flow solver in both
of its versions: `src/flow_network.py` (current) and the top-level
`flow_network.py` (earlier). A network has a dense `vertices x vertices`
integer capacity matrix that starts at zero. `add_edge` fills it one cell at a
time and checks its guards first. `maximum_flow` keeps a flow matrix and asks
`_find_augmenting_path` for a source-to-sink path in the residual matrix
`capacity - flow`. That search is breadth first: neighbours are scanned in
increasing index order and a `predecessor` array records the first discovery.
When the sink is found, `_gen_path` rebuilds the path and the bottleneck is
pushed along it. The loop stops when no path is left. The current version
signals that with `None`; the earlier one raises `PathError`.

The model keeps the source's imperative form:

- `FlowNetwork.FlowNetwork` and `LegacyFlowNetwork.FlowNetwork` are classes
  whose `capacity` is an `array2<int>`. `AddEdge` writes one cell in place.
  `MaximumFlow` updates a fresh `array2<int>` flow matrix in a loop.
- The breadth-first search (`BreadthFirst.Explore` and
  `BreadthFirst.ScanNeighbours`) fills a `predecessor` array in nested loops.
  The queue is a sequence that is popped at the front and appended at the back.
- `GenPath` appends to a list in a loop, then reverses it. Each version has
  its own loop shape.
- The flow update (`FlowUpdate.PushAlong`) adds and subtracts the bottleneck
  in place along the path.

Every method is specified by value-level functions on `seq<seq<int>>`
snapshots of its arrays: `Cells`, `Residual`, `Claimed`, `Enqueued`,
`Augment`. The properties are proved about those functions. The proved results
are:

- Edge insertion keeps the network well formed: capacities are non-negative,
  the sink row and source column stay zero, and there is no antiparallel pair.
- The search answers an augmenting path with its bottleneck when one exists,
  and "none" exactly when the sink is unreachable in the residual graph.
- `_gen_path` returns the unique tree path from the source to the sink.
- Every augmentation keeps a flow a flow: skew symmetric, within capacity and
  conserved away from the terminals. It raises the value by the bottleneck.
- On return, the source sends and the sink receives exactly `max_flow`, and the
  sink is unreachable.
- The returned flow is exactly the zero matrix with every augmentation the
  search handed back pushed in turn, and `max_flow` is the sum of their
  bottlenecks. In particular a network whose sink is unreachable from the
  start gets the zero flow and the value 0.
- Via the max-flow min-cut argument in module `Cuts`, `max_flow` equals the
  capacity of a source/sink cut, so no flow has a larger value.

Modules:

| file | module | contents |
|---|---|---|
| matrices.dfy | `Outcomes`, `Matrices` | option/result types; matrices as values, array snapshots, row and column sums |
| network.dfy | `Network` | constructor checks, edge insertion as written and as intended, well-formedness |
| residual.dfy | `ResidualGraph` | residual matrix, walks, reachability, augmenting paths, bottleneck |
| search_tree.dfy | `SearchTree` | the predecessor array as a search tree, tree paths, the search invariant |
| bfs.dfy | `BreadthFirst` | the breadth-first search loops and their lemmas |
| flows.dfy | `Flows` | flows, pushing along a path, preservation lemmas |
| flow_update.dfy | `FlowUpdate` | the in-place update loop of `maximum_flow` |
| cuts.dfy | `Cuts` | cut capacities and max-flow min-cut |
| flow_network.dfy | `FlowNetwork` | the class of src/flow_network.py |
| legacy_flow_network.dfy | `LegacyFlowNetwork` | the class of flow_network.py |

## Model

| member | source | states |
|---|---|---|
| Network.CheckTopology | src/flow_network.py:20-22 | the arguments are accepted exactly when source and sink are in `[0, vertices)` and distinct; an out-of-range source is the first error reported |
| Network.NumpyIndex | src/flow_network.py:39-44 | numpy accepts an index exactly when `-n <= i < n`, and the cell it reaches is `i` or `i + n` |
| Network.AddEdgeAsWritten | src/flow_network.py:33-44 | as written, an edge is accepted exactly when `cap > 0`, the raw `src` is not the sink, the raw `dst` is not the source, numpy accepts both indices, and both wrapped cells are zero; the wrapped cell then gets `cap` |
| Network.AddEdgeChecked | src/flow_network.py:35-44 | an edge is accepted exactly when `cap > 0`, `src` is not the sink, `dst` is not the source, both indices are in range, and `capacity[src][dst]` and `capacity[dst][src]` are zero; then the new matrix is the old one with only `(src, dst)` set to `cap` |
| Network.AddEdgeCheckedKeepsWellFormed | src/flow_network.py:37-44 | an accepted edge keeps capacities non-negative, the sink row and the source column zero, and no pair of distinct vertices positive in both directions; `(src, dst)` becomes `cap` and every other cell is unchanged |
| Network.AddEdgeCheckedAgreesOnNaturalIndices | src/flow_network.py:33-44 | for non-negative indices the corrected insertion gives exactly the result of the code as written |
| Network.NegativeIndexGivesSinkAnOutgoingEdge | src/flow_network.py:37-44 | on 3 vertices with source 0 and sink 2, `add_edge(-1, 1, 5)` passes every guard as written and sets `capacity[2][1] = 5`, which breaks well-formedness; the corrected insertion refuses it |
| Network.ZeroWellFormed | src/flow_network.py:31 | the all-zero capacity matrix is well formed |
| Matrices.Zero | src/flow_network.py:31 | `np.zeros((vertices, vertices))`: a `vertices x vertices` matrix whose every cell is zero |
| Matrices.RowSum | test/test_flow.py:38-39 | `np.sum(flow[v, :])`, the net outflow of `v`; it has no contract of its own, and what is proved about it is in `Matrices.RowSumAfterAdd`, `Flows.AugmentRowSum` and `Flows.FlowValueBounded` |
| Matrices.ColSum | test/test_flow.py:40-41 | `np.sum(flow[:, v])`, the inflow of `v`; it has no contract of its own, and `Flows.SinkInflow` proves the sink's equals the flow's value |
| Matrices.RowSumAfterAdd | src/flow_network.py:58-59 | adding `e` to one cell adds `e` to the sum of that cell's row and leaves every other row's sum unchanged |
| ResidualGraph.Residual | src/flow_network.py:75 | `self.capacity - flow`: same shape, and every cell is the capacity minus the flow at that cell |
| ResidualGraph.Bottleneck | src/flow_network.py:90-91 | the result is at most the residual of every step of the path and equal to one of them (the minimum); it is positive when every step is |
| ResidualGraph.BottleneckUnique | src/flow_network.py:90-91 | a value is at most every step's residual and equal to one of them exactly when it is `Bottleneck` of the path: the minimum is unique |
| ResidualGraph.WalkStaysInClosedSet | src/flow_network.py:78-94 | a residual walk that starts in a set no positive residual edge leaves ends in that set |
| ResidualGraph.ClosedSetBlocksSink | src/flow_network.py:78-94 | if a closed set holds the source but not the sink, the sink is unreachable |
| SearchTree.TreePathUnique | src/flow_network.py:62-70 | two tree paths from the source to the same vertex are equal |
| SearchTree.TreePathSuffix | src/flow_network.py:62-70 | a tree path no longer than another tree path between the same ends equals it |
| SearchTree.TreePathIsAugmenting | src/flow_network.py:86-92 | when every tree edge has positive residual, the tree path is an augmenting path: simple, source to sink, every step positive |
| SearchTree.Reverse | src/flow_network.py:69 | `list.reverse()`: same length, entry `i` is entry `len - 1 - i` of the input |
| SearchTree.ChainReversedIsTreePath | src/flow_network.py:64-69 | a chain that starts at the sink, follows predecessors with strictly falling discovery rank, and stops where the predecessor is the source becomes the tree path once the source is appended and the list reversed |
| SearchTree.ExhaustedSearchBlocksSink | src/flow_network.py:78-94 | once every discovered vertex is scanned, the queue is empty and the sink is undiscovered, the sink is unreachable in the residual graph |
| SearchTree.ScannedAfterNeighbours | src/flow_network.py:86-87 | a discovered vertex whose residual neighbours are all discovered joins the scanned vertices |
| SearchTree.DiscoverKeepsInvariant | src/flow_network.py:86-93 | setting `predecessor[vert] = current` for an undiscovered `vert` with positive residual, and enqueuing it, keeps the search invariant: the predecessors form a tree whose edges have positive residual, ranks are below the counter, the queue holds discovered vertices, and scanned vertices stay scanned; `vert` is the only newly discovered vertex |
| BreadthFirst.Enqueued | src/flow_network.py:80-93 | the queue after scanning `current` up to position `k`; it has no contract of its own, and `EnqueuedExtends`, `EnqueuedMembers` and `EnqueuedAscending` state that the old queue is kept and that exactly the qualifying vertices are appended, each once, in increasing order |
| BreadthFirst.EnqueuedExtends | src/flow_network.py:93 | scanning one vertex only appends to the queue |
| BreadthFirst.EnqueuedMembers | src/flow_network.py:80-93 | the vertices a scan appends are exactly those below the scan position that were undiscovered and have positive residual from the scanned vertex |
| BreadthFirst.EnqueuedAscending | src/flow_network.py:80-93 | the scan appends those vertices each once, in strictly increasing index order |
| BreadthFirst.Claimed | src/flow_network.py:80-87 | the predecessor array after scanning `current` up to position `k`, of unchanged length; its entries are stated by `ClaimedAt`, `ClaimedStep` and `ClaimedKeepsSet` |
| BreadthFirst.ClaimedAt | src/flow_network.py:80-87 | after a scan, a vertex's predecessor is the scanned vertex if the vertex qualified, and otherwise unchanged |
| BreadthFirst.ClaimedStep | src/flow_network.py:86-87 | scanning one more vertex sets its predecessor exactly when it qualifies; the entry is still the original one when the scan reaches it |
| BreadthFirst.ClaimedKeepsSet | src/flow_network.py:80-87 | a predecessor that is already set never changes, and any entry that changes was `-1` and qualified |
| BreadthFirst.ScanFinished | src/flow_network.py:79-93 | after a full scan, the scanned vertex's neighbours are all discovered and every discovered vertex is scanned or queued; the undiscovered set does not grow; if it stays the same, the queue is unchanged |
| BreadthFirst.Dequeue | src/flow_network.py:79 | `popleft` keeps the search invariant, and the vertex it returns is discovered and in range |
| BreadthFirst.ScanStep | src/flow_network.py:86-93 | one step of the scan keeps the search invariant |
| BreadthFirst.ScanKeepsInvariant | src/flow_network.py:80-93 | the scan up to any position keeps the search invariant, with the claimed vertices queued and ranked in scan order |
| BreadthFirst.ScanReachedSink | src/flow_network.py:86-92 | a scan that stops on discovering the sink leaves a search tree whose edges all have positive residual |
| BreadthFirst.ScanCompleted | src/flow_network.py:79-93 | a scan that runs through every vertex keeps the search invariant with the scanned vertex added to the scanned set |
| BreadthFirst.VisitNext | src/flow_network.py:78-93 | one step of the outer loop keeps the search invariant whichever way the scan ends, and either discovers a vertex or shortens the queue |
| BreadthFirst.StartKeepsInvariant | src/flow_network.py:76-77 | the initial state (only the source queued, every predecessor `-1`) satisfies the search invariant |
| BreadthFirst.ScanNeighbours | src/flow_network.py:80-93 | the inner loop leaves `predecessor` equal to `Claimed` and the queue equal to `Enqueued`, up to and including the sink when it is discovered and over every vertex otherwise; it reports the sink exactly when its predecessor became set |
| BreadthFirst.Explore | src/flow_network.py:75-94 | when the search reports the sink, the predecessors form a tree of positive residual edges that holds the sink; when it reports nothing, the sink is unreachable |
| Flows.ZeroIsFlow | src/flow_network.py:49 | the all-zero matrix is a flow of value 0 |
| Flows.Push | src/flow_network.py:58-59 | `flow[src, dst] += d; flow[dst, src] -= d`: for distinct ends the forward cell rises by `d` and the backward cell falls by `d`; a self-loop cell is unchanged; every other cell is unchanged |
| Flows.Augment | src/flow_network.py:57-59 | `Push` on each consecutive pair of the path, first pair first; a square matrix stays square, and its effect is stated by `AugmentSkewSymmetric`, `AugmentUntouched`, `AugmentRowSum` and `AugmentWithinCapacity` |
| Flows.PushSkewSymmetric | src/flow_network.py:58-59 | `flow[src, dst] += d; flow[dst, src] -= d` keeps a skew-symmetric matrix skew symmetric |
| Flows.AugmentSkewSymmetric | src/flow_network.py:57-59 | pushing along a whole path keeps skew symmetry |
| Flows.AugmentUntouched | src/flow_network.py:57-59 | pushing along a path leaves a cell unchanged unless both of its ends lie on the path |
| Flows.AugmentRowSum | src/flow_network.py:57-59 | pushing `d` along a path adds `d` to the net outflow of its first vertex, takes `d` from its last, and changes no other vertex's |
| Flows.AugmentWithinCapacity | src/flow_network.py:57-59 | pushing at most the residual of every step of a simple path keeps the flow within capacity |
| Flows.AugmentKeepsFlow | src/flow_network.py:56-59 | one augmentation turns a flow of value `v` into a flow of value `v + d` |
| Flows.AnswerKeepsFlow | src/flow_network.py:50-59 | pushing the bottleneck of a path the search answered on a flow's residual graph turns a flow of value `v` into a flow of value `v` plus that bottleneck |
| Flows.AugmentAll | src/flow_network.py:48-59 | the flow matrix after pushing each augmentation of a sequence in turn, starting from a given matrix; a square matrix stays square |
| Flows.RunExtends | src/flow_network.py:50-59 | a run (a sequence of augmentations, each one an answer of the search on the flow the earlier ones left) extended by the next answer is a run; its flow is the old one augmented by that answer, and its total grows by the answer's bottleneck |
| Flows.RunStartsReachable | src/flow_network.py:49-50 | a run that pushed anything started from a zero flow whose residual graph connects the source to the sink |
| Flows.SinkInflow | test/test_flow.py:40-41 | the sink's column sum equals the flow's value |
| Flows.FlowValueBounded | src/flow_network.py:50 | a flow's value is at most the sum of the source's capacity row, which bounds the loop |
| FlowUpdate.PushStep | src/flow_network.py:58-59 | the two in-place writes turn the array's contents into `Push` of them |
| FlowUpdate.PushAlong | src/flow_network.py:57-59 | the in-place loop turns the flow array's contents into `Augment` of the old contents along the path |
| FlowUpdate.AugmentFlow | src/flow_network.py:56-59 | the running total grows by the bottleneck, the flow array becomes the old contents augmented along the path and stays a flow of the new total, and the total stays within the source's capacity row; the run so far is extended by the answer, and the array and the total are still its flow and its sum |
| Cuts.BlockByColumnsNoRows | test/test_flow.py:33 | a column-wise cut sum over no rows is zero |
| Cuts.BlockByColumnsStep | test/test_flow.py:33 | adding a row to a column-wise cut sum adds that row's part |
| Cuts.SumOrderSwaps | test/test_flow.py:33 | summing a block of a matrix row by row or column by column gives the same total |
| Cuts.ColPartSkew | test/test_flow.py:34-35 | in a skew-symmetric matrix a column part is the negated row part |
| Cuts.BlockByColumnsSkew | test/test_flow.py:34-35 | in a skew-symmetric matrix the column-wise sum of a block is the negated row-wise sum of its transpose |
| Cuts.InnerFlowCancels | test/test_flow.py:34-35 | a skew-symmetric flow moves a net total of zero among the vertices of any set |
| Cuts.PartSplit | test/test_flow.py:42-44 | a row sum splits into the part inside a set and the part outside it |
| Cuts.OutflowSplit | test/test_flow.py:42-44 | the net outflow of a set is what stays inside plus what crosses the cut |
| Cuts.OutflowOfFlow | test/test_flow.py:38-44 | in a set holding the source but not the sink, only the source contributes net outflow, namely the flow's value |
| Cuts.FlowAcrossCut | test/test_flow.py:38-44 | every cut separating the source from the sink carries exactly the flow's value |
| Cuts.PartMonotone | test/test_flow.py:36-37 | a part of a row sum is monotone in the entries it adds |
| Cuts.CutMonotone | test/test_flow.py:36-37 | a cut sum is monotone in the entries that cross the cut |
| Cuts.FlowBoundedByCut | test/test_flow.py:33 | no flow's value exceeds the capacity of any cut separating the source from the sink |
| Cuts.WalkExtends | src/flow_network.py:86-87 | a residual walk to `u` extended by a positive residual edge out of `u` is a walk to the new end |
| Cuts.MaxFlowMinCut | test/test_flow.py:33 | a flow whose residual graph no longer connects the source to the sink has the value of some cut's capacity, and no flow has a larger value |
| FlowNetwork.FlowNetwork.constructor | src/flow_network.py:18-31 | the fields are set to the arguments and the capacity matrix is fresh, all zero and well formed |
| FlowNetwork.FlowNetwork.Create | src/flow_network.py:18-31 | construction fails exactly when an assertion fails, with that assertion's error; otherwise it gives a fresh all-zero network |
| FlowNetwork.FlowNetwork.AddEdge | src/flow_network.py:33-44 | reports the first failing guard, or writes exactly the cell `(src, dst)`; the capacity matrix stays well formed |
| FlowNetwork.FlowNetwork.GenPath | src/flow_network.py:62-70 | on a search tree that holds the sink, the result is the tree path: it starts at the source, ends at the sink, has distinct vertices, and each vertex's predecessor is the one before it |
| FlowNetwork.FlowNetwork.FindAugmentingPath | src/flow_network.py:72-94 | for a flow matrix of the network's shape, the result is an augmenting path with its bottleneck (which is positive), or `None` exactly when the sink is unreachable in `capacity - flow` |
| FlowNetwork.FlowNetwork.MaximumFlow | src/flow_network.py:46-60 | the flow is exactly the zero matrix augmented by a run (each augmentation the search's answer on the flow before it, in order), and `max_flow` is the sum of their bottlenecks; when the sink is unreachable from the start, nothing is pushed, the flow is zero and `max_flow` is 0; the result is a flow (skew symmetric, within capacity, conserved away from the terminals) whose source row and sink column both sum to `max_flow`; the sink is unreachable in its residual graph; `max_flow` equals the capacity of a cut, and no flow has a larger value |
| LegacyFlowNetwork.FlowNetwork.constructor | flow_network.py:14-22 | the fields are set to the arguments and the capacity matrix is fresh, all zero and well formed |
| LegacyFlowNetwork.FlowNetwork.Create | flow_network.py:14-22 | construction fails exactly when an assertion fails, with that assertion's error; otherwise it gives a fresh all-zero network |
| LegacyFlowNetwork.FlowNetwork.AddEdge | flow_network.py:24-34 | reports the first failing guard, or writes exactly the cell `(src, dst)`; the capacity matrix stays well formed |
| LegacyFlowNetwork.FlowNetwork.GenPath | flow_network.py:36-45 | the loop that starts from an empty list gives the same tree path from the source to the sink |
| LegacyFlowNetwork.FlowNetwork.FindAugmentingPath | flow_network.py:50-72 | for a flow matrix of the network's shape, a success carries an augmenting path with its bottleneck (which is positive); `PathError` is raised exactly when the sink is unreachable |
| LegacyFlowNetwork.FlowNetwork.MaximumFlow | flow_network.py:74-86 | the `while True` loop stops on `PathError`; the flow is exactly the zero matrix augmented by the run of answers the search gave, and `max_flow` is the sum of their bottlenecks, so an unreachable sink gives the zero flow and 0; the result is a flow whose source row and sink column sum to `max_flow`, with the sink unreachable, and with the value of a cut, so no flow is larger |

## Left out

- Logging (`logger.info` in src/flow_network.py) has no effect on the result.
- File parsing, the command line and printing are not part of this model:
  DIMACS reading in parse.py and max_flow.py, and main.py.
- numpy integers are fixed width. The model uses unbounded `int` and does not
  model overflow of capacities or flow values.
- Failed assertions and numpy's `IndexError` are modelled as error results
  (`Result`, `Outcome`) rather than exceptions. `PathError` is a `Failure`.
- The classes use the corrected edge insertion (`Network.AddEdgeChecked`). It
  refuses every index outside `[0, vertices)`, including the negative indices
  numpy would wrap; see Findings. The code as written is
  `Network.AddEdgeAsWritten`.
- The residual matrix `capacity - flow` is a new numpy array that is only
  read. It is therefore a value (`ResidualGraph.Residual`), not an array.
- Both versions run the same breadth-first search and the same update loop,
  so those are modelled once (`BreadthFirst`, `FlowUpdate`) and called from
  both classes. The constructor and `add_edge` are repeated in each class,
  as in the two source files.
- FlowNetwork.FlowNetwork.GenPath: specified only for predecessor arrays that
  form a search tree holding the sink, which is what the search hands it. On
  other arrays the source's loop need not terminate.
- LegacyFlowNetwork.FlowNetwork.GenPath: specified only for predecessor
  arrays that form a search tree holding the sink, for the same reason.
- The discovery ranks that make the predecessor chain well founded are ghost
  state. They exist only for the proofs.
- BreadthFirst.Explore: does not prove that the path found is a shortest one.
  That is the Edmonds-Karp property behind its polynomial bound. Termination of
  `maximum_flow` is proved from the bound `sum(capacity[source])` instead.
- Self-loops: `add_edge(v, v, c)` for a vertex that is neither source nor sink
  passes every guard in the code and is accepted. Well-formedness therefore
  rules out antiparallel pairs only for distinct vertices.

## Findings

| source | as written | input that shows it | evidently intended | confidence | as-written member | corrected member |
|---|---|---|---|---|---|---|
| src/flow_network.py:37-44 | the guards compare the raw `src` and `dst` with the sink and the source, but numpy wraps a negative index to `index + vertices` when the cell is read and written (flow_network.py:28-34 has the same guards) | 3 vertices, source 0, sink 2: `add_edge(-1, 1, 5)` passes every guard and sets `capacity[2][1] = 5`, an outgoing edge of the sink | indices outside `[0, vertices)` are refused, so the sink never gets outgoing capacity and the source never incoming | high, not executed | Network.NegativeIndexGivesSinkAnOutgoingEdge | Network.AddEdgeCheckedKeepsWellFormed |
