# ReadCluster: bounded breadth-first growth of read clusters

This project models the cluster-growing core of the SGA assembler's `sga cluster`
step, `ReadCluster` in `src/Algorithm/ReadCluster.cpp`. A cluster is grown from
one or more seed reads by a breadth-first search over the implicit overlap graph
of an FM-index. The search stops when the frontier is exhausted, or it gives up
entirely when the frontier and the output together exceed a size bound.

The object keeps three fields, modelled as the fields of the class
`ReadClusterModel.ReadCluster`:

- `queue`: the FIFO frontier (`m_queue`), a `seq<ClusterNode>`;
- `outCluster`: the accumulated output (`m_outCluster`), a `seq<ClusterNode>`;
- `usedIndex`: the canonical interval lower bounds already introduced
  (`m_usedIndex`), a `set<int>`.

The overlap engine and the FM-index queries (`alignReadDuplicate`,
`findInterval`, `updateInterval`, `overlapRead`, and the overlap blocks'
`getCanonicalInterval`, `getFullString` and `isTargetRev`) are not modelled.
They are the fields of an `Overlapper` value: uninterpreted total functions
that the object holds as a constant, as the source holds `m_pOverlapper`.

Files:

- `cluster_types.dfy` (`ClusterTypes`): intervals, cluster nodes, overlap blocks,
  the overlap engine, the node order and node equality of the output pass.
- `cluster_search.dfy` (`ClusterSearch`): the search as functions over the value
  of the three fields (`Expand` for the loop over one block list, `Step` for one
  iteration, `RunFrom` for all of `run`) and the properties the search keeps.
- `cluster_output.dfy` (`ClusterOutput`): the sort and de-duplication pass of
  `getOutput`, done in place on an array, and what its result is.
- `read_cluster.dfy` (`ReadClusterModel`): the class with `AddSeed`, `Run` and
  `GetOutput`. Each method's contract ties it to the functions above.
- `cluster_example.dfy` (`ClusterExample`): a chain of reads A, B, C, D, computed
  through the model with two size bounds.

Errors that make the source print a message and call `exit` are modelled as
the `Fatal` outcome of `Result`. `SeedIsSubstring` is a strict-mode substring
seed. `SeedNotInIndex` is a strict-mode seed whose interval is invalid.

Assumptions:

- `ClusterNode::compare` and `ClusterNode::equal` are declared in
  `ReadCluster.h`, which is not part of this model. They are taken to be
  the lexicographic order on `(lower, upper)` and interval equality. This
  follows the comment at `ReadCluster.cpp:130-131` (`Less` and `Same`).
- An interval is valid when `lower <= upper` (`BWTInterval` is not part of this
  model).
- The node returned for a skipped lenient-mode seed is built by the default
  constructor of `ClusterNode`, which is not part of this model. The source sets
  only its interval, `(0, -1)`, and that is all `AddSeed` promises about it. The
  model returns `SentinelNode`, which has an empty sequence and forward
  orientation.

Where duplicates come from: the comment at `ReadCluster.cpp:130-131` says
duplicate intervals in the output arise from a simple cycle in the subgraph.
The used set rules that out. From fresh seeds, a run's output has pairwise
distinct lower bounds (`RunKeepsConsistent`), so the output pass drops nothing
(`DistinctOutputLosesNothing`). A repeated lower bound arises when a seed is
added whose lower bound is already in the used set, because `addSeed` does not
consult the used set. This covers the same seed added twice
(`RepeatedSeedIsDuplicated`), a read that an earlier run already reached
(`ReseededReadIsDuplicated`), and two seeds that share a lower bound. When the
two nodes have equal intervals, the output pass removes the copy
(`OutputPassDropsRepeatedSeed`). The code is correct; only the comment's
explanation differs.

## Model

| member | source | states |
|---|---|---|
| `ClusterTypes.LessIsStrictWeakOrder` | src/Algorithm/ReadCluster.cpp:130-137 | The assumed node order is irreflexive, asymmetric and transitive. Two nodes are unordered exactly when their intervals are equal, which is the equality `unique` uses. |
| `ClusterSearch.Expand` | src/Algorithm/ReadCluster.cpp:106-123 | The loop over one block list leaves the output alone. It only appends to the frontier, at most one node per block. The used set grows by exactly the blocks' canonical lower bounds. |
| `ClusterSearch.ExpandAddsFreshNodes` | src/Algorithm/ReadCluster.cpp:109-122 | Deduplication guard: the appended nodes have pairwise distinct lower bounds, even when a lower bound repeats within the list. None of them was used before. Each appended node is `NodeOf` one of the blocks (canonical interval, `isTargetRev`, `getFullString(parent)`), stated as `FromBlocks`. The used set grows by exactly their lower bounds. |
| `ClusterSearch.ExpandIsFirstDiscovery` | src/Algorithm/ReadCluster.cpp:106-123 | The appended nodes are exactly `FreshNodes`, the front-to-back reading of the block list. New nodes follow list order. When several blocks share a lower bound, the first of them gives the node and the rest are ignored. |
| `ClusterSearch.Step` | src/Algorithm/ReadCluster.cpp:93-121 | One non-aborting iteration moves the front of the frontier to the back of the output. The rest of the frontier stays in order, ahead of the new nodes. Output followed by frontier only grows at its end. The used set gains the lower bounds of the dequeued node's blocks. |
| `ClusterSearch.RunFrom` | src/Algorithm/ReadCluster.cpp:81-125 | `run` always ends with an empty frontier and never shrinks the used set. An aborted run ends with an empty output. A completed run's output starts with the old output followed by the old frontier, in FIFO order. A completed run that had a non-empty frontier leaves at most `max` nodes. An empty frontier leaves everything unchanged. |
| `ClusterSearch.AbortDiscardsEverything` | src/Algorithm/ReadCluster.cpp:85-90 | If the frontier is non-empty and frontier plus output exceed `max`, `run` aborts. It clears both and leaves the used set as it was. |
| `ClusterSearch.StepKeepsConsistent` | src/Algorithm/ReadCluster.cpp:93-122 | One iteration keeps the invariant `Consistent`. The lower bounds of output plus frontier stay pairwise distinct and are exactly the used set. |
| `ClusterSearch.RunKeepsConsistent` | src/Algorithm/ReadCluster.cpp:83-124 | From a consistent state, the output of `run` has pairwise distinct lower bounds, so at most one node per interval. A completed run leaves the state consistent. |
| `ClusterSearch.RunExploresNeighbours` | src/Algorithm/ReadCluster.cpp:99-123 | After a completed run, every overlap of every node moved to the output in that run has its lower bound in the used set. |
| `ClusterSearch.RunOutputIsDerived` | src/Algorithm/ReadCluster.cpp:93-124 | In a completed run, every node appended to output and frontier is discovered from an earlier node. It is `NodeOf` one of that node's overlap blocks, with that node's sequence as parent. |
| `ClusterSearch.CompletedRunIsClosed` | src/Algorithm/ReadCluster.cpp:83-124 | Start from seeds only and complete the run. The output then begins with the seeds, and every later node is discovered from an earlier output node. The used set is exactly the output's lower bounds, and every overlap of every output node has its lower bound among the output's lower bounds. So, identified by lower bound, the cluster is the component reachable from the seeds. |
| `ClusterOutput.InsertionSort` | src/Algorithm/ReadCluster.cpp:133 | The in-place sort leaves the array in non-descending interval order and is a permutation of the input. |
| `ClusterOutput.InsertLast` | src/Algorithm/ReadCluster.cpp:133 | One insertion step of the sort: with the first `i` nodes sorted, the first `i + 1` end sorted, and the array is a permutation of what it was. |
| `ClusterOutput.Unique` | src/Algorithm/ReadCluster.cpp:135-139 | In-place unique plus erase keeps a prefix. The prefix is exactly `GroupHeads` of the input: the first node of each run of consecutive equal intervals, in order, as `std::unique` keeps. On a sorted input the prefix is also a sorted, duplicate-free rendering (`IsSortedUnique`). |
| `ClusterOutput.GroupHeadsAreFirst` | src/Algorithm/ReadCluster.cpp:135-137 | Every node `GroupHeadsUpTo` keeps is the first of its run: it is at index 0, or its interval differs from its predecessor's. |
| `ClusterOutput.GroupHeadsPrefix` | src/Algorithm/ReadCluster.cpp:135-137 | In a sorted list, the group heads of every non-empty prefix are strictly sorted and taken from the list. They cover every interval of the prefix and end with a node of its last interval. |
| `ClusterOutput.GroupHeadsSortedUnique` | src/Algorithm/ReadCluster.cpp:133-139 | The group heads of a sorted list are a sorted, duplicate-free rendering of it (`IsSortedUnique`). |
| `ClusterOutput.SortUnique` | src/Algorithm/ReadCluster.cpp:132-140 | The result of sort, unique and erase on a copy is a sorted, duplicate-free rendering of the accumulator (`IsSortedUnique`). |
| `ClusterOutput.SortedSameIntervals` | src/Algorithm/ReadCluster.cpp:130-139 | Two strictly sorted node lists that cover the same intervals have the same length and list the same intervals in the same order. |
| `ClusterOutput.CoveredIntervals` | src/Algorithm/ReadCluster.cpp:130-140 | The output pass neither loses nor invents an interval: its result covers exactly the accumulator's intervals. |
| `ClusterOutput.SortUniqueIntervalsDetermined` | src/Algorithm/ReadCluster.cpp:130-140 | The interval sequence of `getOutput` depends only on the set of intervals accumulated. Neither the order of the accumulator nor which equal-interval node the unstable sort keeps matters. |
| `ClusterOutput.DistinctOutputLosesNothing` | src/Algorithm/ReadCluster.cpp:130-140 | If the accumulator's lower bounds are pairwise distinct, as a consistent run leaves them, the output pass drops nothing. The result holds exactly the accumulated nodes and has the same length. |
| `ReadClusterModel.SeedKeepsConsistent` | src/Algorithm/ReadCluster.cpp:70-76 | Enqueueing a seed whose lower bound is not yet used, and marking it used, keeps the state consistent. |
| `ReadClusterModel.ReadCluster.constructor` | src/Algorithm/ReadCluster.cpp:13-17 | A new object keeps the overlapper and minimum overlap. It starts with an empty frontier, output and used set, which is a consistent state. |
| `ReadClusterModel.ReadCluster.AddSeed` | src/Algorithm/ReadCluster.cpp:21-77 | A seed is fatal exactly in strict mode when it is a substring or its interval is invalid; a substring seed gives `SeedIsSubstring`. A lenient substring seed returns a node with the invalid interval `(0,-1)` and changes nothing. Otherwise the seed returns `{sequence, updateInterval(findInterval(sequence), '$'), false}`. That node goes to the back of the frontier, its lower bound is added to the used set, and the output is untouched; this includes a lenient seed with an invalid interval. A fresh seed keeps the state consistent. |
| `ReadClusterModel.ReadCluster.Run` | src/Algorithm/ReadCluster.cpp:81-125 | The new fields are exactly `RunFrom` of the old ones. The frontier ends empty and the used set only grows. From a consistent state the output has distinct lower bounds. |
| `ReadClusterModel.ReadCluster.ClearQueue` | src/Algorithm/ReadCluster.cpp:87-88 | The abort path pops the frontier until it is empty and leaves output and used set alone. |
| `ReadClusterModel.ReadCluster.VisitOverlaps` | src/Algorithm/ReadCluster.cpp:107-123 | The loop over the dequeued node's blocks changes the fields exactly as `Expand` does. |
| `ReadClusterModel.ReadCluster.GetOutput` | src/Algorithm/ReadCluster.cpp:128-141 | Returns a sorted, duplicate-free rendering of `outCluster` and does not modify the object. |
| `ClusterExample.ChainClusterCompletes` | src/Algorithm/ReadCluster.cpp:81-125 | Chain A-40-B-35-C-10-D, minimum overlap 30, seed A, bound 10: the run completes with output [A, B, C]. |
| `ClusterExample.ChainClusterAborts` | src/Algorithm/ReadCluster.cpp:85-90 | The same chain with bound 2 aborts with an empty output. The used set still holds A, B and C. |
| `ClusterExample.RepeatedSeedIsDuplicated` | src/Algorithm/ReadCluster.cpp:70-76 | Seed A added twice, with no overlap kept: the run completes with A twice in the output, so its lower bounds are not distinct. |
| `ClusterExample.OutputPassDropsRepeatedSeed` | src/Algorithm/ReadCluster.cpp:130-140 | For that accumulator `[A, A]`, the only sorted, duplicate-free rendering is `[A]`. |
| `ClusterExample.ReseededReadIsDuplicated` | src/Algorithm/ReadCluster.cpp:70-124 | After the completed chain run, read B is seeded once more, though its lower bound is used. The next run outputs `[A, B, C, B]`, whose lower bounds are not distinct. |

## Left out

- The overlap engine and FM-index (`alignReadDuplicate`, `getBWT`,
  `BWTAlgorithms::findInterval`/`updateInterval`, `overlapRead`, the internals of
  `OverlapBlock`) are uninterpreted functions in `Overlapper`. The block list
  that `alignReadDuplicate` fills in `addSeed` is discarded by the source and is
  not modelled.
- Diagnostics on `std::cerr` and the process exits are not modelled. A fatal seed
  returns `Fatal`, and the model leaves the object unchanged, where the source ends the process.
- Integer widths are not modelled: interval bounds are `int64_t` and `max` and the
  sizes are `size_t`. Neither can overflow at realistic sizes, so both are unbounded here.
- `ClusterOutput.InsertionSort`: `std::sort` is modelled by an insertion sort. The
  contract holds for any sort: non-descending order and a permutation. `Unique`
  keeps the first node of each run of equal intervals. The unstable sort leaves
  open which node of a run comes first, however. So `getOutput` is specified by
  `IsSortedUnique`, which admits any node of the run, and the model does not
  fix a tie-break the source leaves open.
- `src/Algorithm/ClusterProcess.h` holds only declarations (`ClusterResult`,
  `ClusterProcess`, `ClusterPostProcess`). Their bodies, including the minimum
  cluster size filter, the counters, the marking of reads in the shared
  `BitVector` and the output writing, are not part of this model.
- Parallel execution and the shared marker `BitVector` are not modelled: each
  `ReadCluster` is sequential and owns its fields.
- `ClusterOutput.SortUniqueIntervalsDetermined`: this does not prove that the
  output is independent of the order in which the overlap engine lists blocks.
  The lemma assumes both accumulators hold the same intervals. When two blocks
  share a lower bound but differ in upper bound, the first of them in list order
  decides the node's interval (`ExpandIsFirstDiscovery`). Swapping them changes
  the accumulated interval. The source does not guarantee that blocks with one
  lower bound share an interval, so the model cannot promise more.
- The used set is not cleared on abort; the model follows the code here, although
  the set is meant to be scoped to one cluster. `addSeed` does not consult the
  used set either. So a seed whose lower bound is already used is enqueued again:
  the same seed twice, a read an earlier run reached, or two seeds sharing a
  lower bound. The output pass removes the extra node only when its interval is
  equal to the first one's. `Consistent` and the lemmas that rely on it assume
  fresh seeds.
