# Delivery dispatch core, modelled in Dafny

This project models the core of a small C++ delivery-dispatch library. The library has
these parts:

- a chained hash table (`HashTable<K, V>`) that stores locations, deliveries and vehicles by id;
- a binary-heap priority queue of deliveries, ordered by `DeliveryCompare`: higher priority
  first, and the earlier deadline on equal priority;
- merge sort by deadline and a lower-bound search over deadlines;
- a directed road network: edges can be added, reweighted and removed, and the network
  offers Dijkstra, Bellman-Ford, BFS, DFS, Kruskal's MST and a DFS-based topological order;
- a route optimizer: a greedy nearest-destination route, a route cost in hops, and
  round-robin partitioning of deliveries among vehicles;
- a point quadtree with capacity 4 per leaf, radius queries and nearest-point search;
- the scheduler. It queues deliveries, then drains the queue: each pending delivery goes to
  the nearest available vehicle that can carry it, and that vehicle's route is planned again.

Each source file is one module:

- `types.dfy` (Types): the shared records.
- `delivery.dfy` (DeliveryOrder): the queue order.
- `hash_table.dfy` (HashTables): a class over an array of chains with a ghost abstract map.
- `priority_queue.dfy` (PriorityQueues): a class whose heap is a sequence field.
- `utils.dfy` (Utils): in-place merge sort over an array, and lower bound as a function.
- `road_network.dfy` (RoadNetworks): a class whose adjacency is a map field.
- `route_optimizer.dfy` (RouteOptimizer)
- `quadtree.dfy` (QuadTrees): the tree as a value, and a class that owns the root.
- `scheduler.dfy` (Scheduling): a class over the three stores and the queue.

Methods that change state are stated against a ghost abstract state:

- `HashTable.Contents` is its abstract map;
- the queue's abstract state is its heap;
- `RoadNetwork.adj` is its adjacency map;
- `QuadTree.inserted` is the sequence of points inserted so far.

Loops in the source are loops in the model. Each is proved against a specification function
whose properties are proved as lemmas.

## How the model reads the code

The model follows the code as written:

- **Dijkstra never relaxes.** `dijkstra` reads a missing entry of `dist` with `operator[]`,
  and that read inserts the entry 0 (src/road_network.cpp:41). With non-negative weights no
  edge relaxes, so the search ends with no predecessors. `dist` holds `start` at 0, and also,
  when `start` is not the goal, every target of its edges at 0.
  - When `start == goal`, the result is the path `[start]`.
  - Otherwise the result is the empty path. `adj.at(start)` throws first when `start` has
    no adjacency list (`RoadNetwork.DijkstraSearch`, `RoadNetwork.Dijkstra`).
- **Greedy routes repeat the start.** `greedy_route` sees a non-empty subpath only to a
  destination equal to the current node, and that subpath costs 0.
  - The route it returns is `start` followed by one copy of `start` for each time the
    destinations list it (`RouteOptimizer.GreedyRoute`, with all six of its properties).
  - When `start` is -1, the sentinel `next == -1` stops the loop at once.
- **Route cost wraps.** In `route_cost`, each leg between different nodes has an empty
  subpath, so the `size_t` value `subpath.size() - 1` wraps to 2^64 - 1. The model sums
  these `size_t` values: 2^64 - 1 per move (`RouteOptimizer.RouteHopsAsWritten`). A leg from
  a node with no adjacency list throws.
  - The source adds each value to a `double`. The nearest double to 2^64 - 1 is 2^64, so
    the returned cost is 2^64 per move, which is exact below 2^53 moves. The model does not
    represent that rounding.
- **The scheduler overwrites a vehicle's list with node ids.** Line 59 of
  `process_deliveries` replaces `assigned_deliveries`, which is a list of delivery ids, with
  the greedy route, which is a list of node ids, all equal to the vehicle's position
  (`Scheduling.RouteOnly`).
  - On the next turn, line 58 looks those node ids up as delivery ids. A missing one is a
    `bad_optional_access`, which the model reports as `ok == false`.
- **Kruskal's find inserts missing entries.** `find` in `kruskal_mst` reads `parent` with
  `operator[]`. A node that has no adjacency list gets the entry `parent[x] = 0`, and node 0
  is then inserted as its own parent (`RoadNetworks.Find`).
  - So such a node joins 0's tree without an edge being chosen. An edge is kept exactly when
    the two finds return different roots (`RoadNetworks.Unite`). Its ends are then not yet
    linked by the chosen pairs, but the converse fails.
  - Example: with `adj = {1: [(7, 1), (8, 2)]}`, the edge (1, 7) is kept. Nodes 7 and 8 both
    join 0's tree, so the finds for (1, 8) return the same root. That edge is skipped,
    although 8 is not linked to 1 by the chosen pairs.
  - Each kept pair makes one more node a non-root, so there are fewer pairs than nodes
    (`RoadNetworks.RoadNetwork.KruskalMst`).
- **The topological order lists only search roots.** `topological_sort` pushes only the
  nodes from which a new DFS started, not every node. The result is the search roots in
  reverse:
  - the roots are distinct;
  - together they reach every node;
  - no later root reaches an earlier one (`RoadNetwork.TopologicalSort`).
- **Exceptions become values.** An exception the code can throw becomes an `Option` result
  or an `ok` flag:
  - `out_of_range` from `adj.at`;
  - the empty-queue `runtime_error`;
  - `bad_optional_access`;
  - the `length_error` of a negative vector size.
- **Range errors are left to the caller.** Undefined behaviour on an index out of range (a
  `vector<bool>` or `vector<double>` indexed by a node id) is a precondition.
- **Merge sort on an empty vector.** `merge_sort` calls `merge_sort_helper(arr, 0, -1)`:
  `size() - 1` converts back to the `int` -1, and the helper returns at once
  (`Utils.MergeSortHelper`).
- **Merging reads a snapshot.** `merge` reads `arr` only before it writes back, so its two
  reading loops run over a snapshot of the array (`Utils.MergeRuns`), and the copy back
  writes the array (`Utils.CopyBack`).
- **Rehashing uses an exact threshold.** `insert` grows the table when `num_elements > 0.7 *
  size`. The model states this test exactly, as `10 * n > 7 * size`.

## Model

| member | source | states |
|---|---|---|
| DeliveryOrder.HigherPriorityFirst | src/delivery.cpp:3-4 | of two deliveries with different priorities, the higher priority comes first and not the other way round |
| DeliveryOrder.EarlierDeadlineBreaksTies | src/delivery.cpp:4-5 | on equal priority, the earlier deadline comes first and not the other way round |
| DeliveryOrder.EqualKeysAreUnordered | src/delivery.cpp:3-6 | deliveries with equal priority and deadline are unordered either way |
| DeliveryOrder.BeforeIsStrictWeakOrder | src/delivery.cpp:3-6 | the comparator is irreflexive, asymmetric and transitive, and incomparability is transitive: a strict weak order, as std containers require |
| HashTables.Slot | src/hash_table.cpp:84-86 | a key's bucket index is always below the number of buckets |
| HashTables.Lookup | src/hash_table.cpp:27-34 | scanning a chain finds nothing exactly when no pair has the key, and a value it finds is paired with the key in the chain |
| HashTables.LookupAt | src/hash_table.cpp:30-31 | in a chain with distinct keys, looking up the key at position i yields the value at i |
| HashTables.LookupAppend | src/hash_table.cpp:21-22 | appending a pair changes the lookup only of its key, and only when that key was missing |
| HashTables.LookupOverwrite | src/hash_table.cpp:14-20 | overwriting a pair's value keeps keys distinct and changes the lookup of that key only |
| HashTables.LookupErase | src/hash_table.cpp:50-55 | erasing a pair keeps keys distinct and makes its key missing, other lookups unchanged |
| HashTables.ReplaceBucket | src/hash_table.cpp:12-24 | replacing one bucket by a chain that answers that bucket's keys as the new map does keeps the table representing the new map |
| HashTables.OverwriteKeepsRepresentation | src/hash_table.cpp:14-20 | overwriting a stored value represents the map updated at that key |
| HashTables.AppendKeepsRepresentation | src/hash_table.cpp:21-22 | appending a missing key to its bucket represents the map extended with it |
| HashTables.StoredPair | src/hash_table.cpp:30-31 | every stored pair sits in its key's bucket, belongs to the map, and is the first pair with its key in the chain |
| HashTables.EraseKeepsRepresentation | src/hash_table.cpp:50-55 | erasing a stored pair represents the map without its key |
| HashTables.MoveOne | src/hash_table.cpp:76-78 | moving the next pair into the new table adds a key not moved before |
| HashTables.NextBucket | src/hash_table.cpp:75-79 | finishing a bucket has moved exactly the keys of the buckets before the next one |
| HashTables.MovedAll | src/hash_table.cpp:75-80 | after every bucket, the moved pairs are exactly the old map |
| HashTables.HashTable.constructor | src/hash_table.cpp:8-9 | a new table with the given positive number of buckets and hash function is empty |
| HashTables.HashTable.WithDefaultSize | include/hash_table.hpp:16 | the default table has 101 buckets and is empty |
| HashTables.HashTable.GetIndex | src/hash_table.cpp:84-86 | the index is the key's hash modulo the bucket count |
| HashTables.HashTable.Insert | src/hash_table.cpp:12-24 | the map becomes old map[k := v]; an existing key keeps the count and the buckets; a new key adds one, and when the count exceeds 0.7 of the buckets the table grows to 2n+1 fresh buckets |
| HashTables.HashTable.Find | src/hash_table.cpp:27-34 | the result is the key's value in the map, or nothing when the key is missing |
| HashTables.HashTable.Remove | src/hash_table.cpp:47-58 | reports removal exactly when the key was present; the map loses the key and the count drops by one exactly then |
| HashTables.HashTable.Size | src/hash_table.cpp:61-63 | the number of stored keys |
| HashTables.HashTable.Empty | src/hash_table.cpp:66-68 | true exactly when the map is empty |
| HashTables.HashTable.Rehash | src/hash_table.cpp:71-81 | the table moves to 2n+1 fresh buckets and still represents the same map and count |
| HashTables.HashTable.MoveAll | src/hash_table.cpp:73-80 | rehashing every chain into the empty new buckets makes them represent the whole map |
| HashTables.HashTable.MoveBucket | src/hash_table.cpp:76-78 | moving one chain adds exactly its pairs to what the new buckets represent |
| PriorityQueues.RootIsFirst | src/priority_queue.cpp:52-55 | in a heap-ordered sequence no element comes before the root |
| PriorityQueues.SiftUpStep | src/priority_queue.cpp:8-10 | swapping a misplaced element with its parent moves the only out-of-order spot to the parent |
| PriorityQueues.SiftDownStep | src/priority_queue.cpp:21-28 | swapping a misplaced element with its preferred child moves the only out-of-order spot to that child |
| PriorityQueues.SiftDownDone | src/priority_queue.cpp:29-31 | when neither child comes before the element, the whole sequence is heap-ordered |
| PriorityQueues.MoveLastToFront | src/priority_queue.cpp:44-46 | moving the last element to the root and dropping the last slot removes exactly the old root |
| PriorityQueues.PriorityQueue.constructor | include/priority_queue.hpp:20 | a new queue is empty and heap-ordered |
| PriorityQueues.PriorityQueue.HeapifyUp | src/priority_queue.cpp:5-15 | restores heap order when only one element may precede its parent, permuting nothing in or out |
| PriorityQueues.PriorityQueue.HeapifyDown | src/priority_queue.cpp:18-33 | restores heap order when only one element may follow a child, permuting nothing in or out |
| PriorityQueues.PriorityQueue.Push | src/priority_queue.cpp:36-39 | the queue gains exactly the item and stays heap-ordered |
| PriorityQueues.PriorityQueue.Pop | src/priority_queue.cpp:42-49 | an empty queue yields nothing and is unchanged (the throw); otherwise the old root is returned, removed exactly once, and no remaining element comes before it |
| PriorityQueues.PriorityQueue.Top | src/priority_queue.cpp:52-55 | nothing exactly when empty (the throw); otherwise the root, before which no element comes |
| PriorityQueues.PriorityQueue.Empty | src/priority_queue.cpp:58-60 | true exactly when the heap holds nothing |
| PriorityQueues.PriorityQueue.Size | src/priority_queue.cpp:63-65 | the number of queued items |
| PriorityQueues.DrainStep | src/priority_queue.cpp:42-49 | popping an element that nothing still queued precedes extends an in-order drain by that element |
| PriorityQueues.PushAllPopAll | src/priority_queue.cpp:36-49 | pushing items and popping until empty yields a permutation of them in which no later element comes before an earlier one |
| Utils.Merged | src/utils.cpp:12-20 | merging two sequences by deadline, taking the left on ties, keeps their total length |
| Utils.MergeSorted | src/utils.cpp:24-30 | top-down merge sort keeps the length |
| Utils.MergedLeft | src/utils.cpp:13-14 | when the left head's deadline is no later, the merge starts with it |
| Utils.MergedRight | src/utils.cpp:15 | when the right head's deadline is earlier, the merge starts with it |
| Utils.MergedPermutes | src/utils.cpp:9-22 | a merge is a permutation of its two inputs |
| Utils.SortedTail | src/utils.cpp:12-18 | the tail of a deadline-sorted sequence is sorted, and its head has the least deadline |
| Utils.SortedCons | src/utils.cpp:12-18 | prefixing an element no later than the head keeps a sequence sorted |
| Utils.MergedSorted | src/utils.cpp:9-22 | merging two sorted sequences yields a sorted one, starting with the earlier head |
| Utils.DueAtConcat | src/utils.cpp:9-22 | the deliveries due at one time in a concatenation are those of each part, in order |
| Utils.DueAtNone | src/utils.cpp:9-22 | nothing is due at a time before all deadlines |
| Utils.MergedStable | src/utils.cpp:13-15 | a merge keeps the relative order of deliveries with equal deadlines, left run first (stability) |
| Utils.StableLeft | src/utils.cpp:13-14 | taking the left head keeps the merge stable |
| Utils.StableRight | src/utils.cpp:15 | taking the right head keeps the merge stable when the left run is sorted |
| Utils.DueAtCons | src/utils.cpp:9-22 | the deliveries due at a time in x followed by s are x when x is due, then those due in s |
| Utils.MergeSortedCorrect | src/utils.cpp:24-34 | merge sort yields a sorted permutation of its input that is stable: for every deadline, the deliveries due then keep their input order |
| Utils.Splice | src/utils.cpp:21 | replacing a range of a sequence changes its length by the difference of the two range lengths |
| Utils.Merge | src/utils.cpp:9-22 | the array becomes the old one with the two adjacent sorted runs replaced by their merge |
| Utils.MergeRuns | src/utils.cpp:10-20 | the temporary array is exactly the merge of the two runs |
| Utils.MergeFromMerged | src/utils.cpp:12-20 | the merge loop's remaining work from positions i and j is the merge of the remaining runs |
| Utils.MergeHeads | src/utils.cpp:12-18 | the first loop stops when one run is used up, having written the first part of the merge |
| Utils.CopyRun | src/utils.cpp:19-20 | copying a run's tail appends exactly that tail to the temporary array |
| Utils.CopyBack | src/utils.cpp:21 | the array's range from `left` is overwritten with the temporary array, the rest unchanged |
| Utils.SortedRange | src/utils.cpp:24-30 | sorting a range keeps the array's length |
| Utils.MergedRange | src/utils.cpp:9-22 | merging a range keeps the array's length |
| Utils.MergeSortHelper | src/utils.cpp:24-30 | a non-empty range is replaced by the merge sort of its contents; an empty one leaves the array unchanged |
| Utils.SortRuns | src/utils.cpp:26-29 | sorting both halves and merging them sorts the whole range |
| Utils.SortSteps | src/utils.cpp:26-29 | the three steps compose to the sort of the range |
| Utils.RunsOf | src/utils.cpp:26-29 | the sort of a range is the merge of the sorts of its two halves, split at the midpoint |
| Utils.MergeSort | src/utils.cpp:32-34 | the array becomes the merge sort of its old contents (sorted, permuted, stable by `MergeSortedCorrect`) |
| Utils.LowerBoundIn | src/utils.cpp:36-40 | binary search within a bracket finds the point before which every deadline is earlier than tp and from which none is |
| Utils.FindByDeadline | src/utils.cpp:36-40 | the lower-bound index: every delivery before it is due earlier than tp, every one from it on no earlier |
| Utils.SortedIsPartitioned | src/utils.cpp:36-40 | a deadline-sorted sequence meets lower_bound's partition requirement for every time |
| RoadNetworks.FirstTo | src/road_network.cpp:9-12 | the index of the first edge to a node, or the length when there is none |
| RoadNetworks.ReweightedChangesOneWeight | src/road_network.cpp:7-14 | reweighting changes only the weight of the first edge to the node, keeps every target and base weight, and changes nothing when no edge goes there |
| RoadNetworks.WithoutFirstRemovesOne | src/road_network.cpp:16-25 | removal drops exactly the first edge to the node, or nothing when none goes there |
| RoadNetworks.RemoveUndoesAdd | src/road_network.cpp:3-5 | removing an edge to a node that had none undoes adding it |
| RoadNetworks.FirstToAppend | src/road_network.cpp:3-5 | an added edge to a new target is the first edge to that target |
| RoadNetworks.PopMin | src/road_network.cpp:36 | the popped pair has the least (cost, node) in the queue, which loses that one pair |
| RoadNetworks.Reverse | src/road_network.cpp:55 | the reversed sequence has element i at position length-1-i |
| RoadNetworks.ReachSelf | src/road_network.cpp:74-96 | every node reaches itself |
| RoadNetworks.ReachStep | src/road_network.cpp:80-83 | reachability extends along an edge |
| RoadNetworks.ReachPrepend | src/road_network.cpp:91-93 | a node reaches what its edge targets reach |
| RoadNetworks.ExpandedGrows | src/road_network.cpp:74-96 | a node whose targets are all marked stays so as marks grow |
| RoadNetworks.ReachedFromMore | src/road_network.cpp:125-129 | adding a root keeps every node reached |
| RoadNetworks.NewRoot | src/road_network.cpp:126-128 | a DFS from an unmarked node records it as a root that reaches everything newly marked |
| RoadNetworks.RootsReversed | src/road_network.cpp:131 | the reversed roots are distinct, exist, reach every node, and none reaches an earlier one |
| RoadNetworks.ReversedApart | src/road_network.cpp:131 | reversing keeps roots distinct and turns "no earlier root reaches a later" into "no later reaches an earlier" |
| RoadNetworks.ReversedCovers | src/road_network.cpp:131 | the reversed roots exist and together reach every node |
| RoadNetworks.SearchMarksReach | src/road_network.cpp:74-96 | after a search from s, a node is marked exactly when it was marked before or s reaches it |
| RoadNetworks.Root | src/road_network.cpp:109-111 | following parents ends at a self-parented node |
| RoadNetworks.CompressKeepsRoot | src/road_network.cpp:110 | path compression keeps every node's root |
| RoadNetworks.AddEntryKeepsRoot | src/road_network.cpp:110 | a new parent entry keeps the roots of the existing nodes |
| RoadNetworks.AddEntry | src/road_network.cpp:110 | a new entry pointing to itself or an older node keeps the forest and the old roots |
| RoadNetworks.Compress | src/road_network.cpp:110 | compressing a node to its root keeps the forest and every root |
| RoadNetworks.LinkRoots | src/road_network.cpp:115 | linking root pu under pv moves exactly pu's tree to root pv |
| RoadNetworks.LinkedShareRoot | src/road_network.cpp:112-118 | nodes joined through chosen edges share a root |
| RoadNetworks.InsertTriple | src/road_network.cpp:105 | inserting into a sorted edge list keeps it sorted and adds exactly one triple |
| RoadNetworks.FirstBelowAll | src/road_network.cpp:105 | an element no greater than a sorted list's head is no greater than all of it |
| RoadNetworks.SortedTriplesTail | src/road_network.cpp:105 | the tail of a sorted edge list is sorted |
| RoadNetworks.ConsTriples | src/road_network.cpp:105 | the head followed by the sorted insertion is sorted and adds the element |
| RoadNetworks.HeadBelowInsertion | src/road_network.cpp:105 | a head below the inserted element stays below the insertion into the tail |
| RoadNetworks.ClosedMarksContainReach | src/road_network.cpp:74-96 | in a marking closed under edges, everything a marked node reaches is marked |
| RoadNetworks.AfterChildSearch | src/road_network.cpp:91-93 | the recursive call keeps the invariants of the DFS from the parent |
| RoadNetworks.SearchKeepsClosed | src/road_network.cpp:125-129 | a completed DFS keeps the marking closed under edges |
| RoadNetworks.FewerUnmarked | src/road_network.cpp:81-83 | marking more nodes lowers the number of unmarked ones (both searches end) |
| RoadNetworks.ReachStaysInKeys | src/road_network.cpp:80 | when every target has a list, everything reachable has a list (no `at` throws) |
| RoadNetworks.WalkExtend | src/road_network.cpp:65-66 | a walk extended by an edge ends at its target and costs its weight more |
| RoadNetworks.WalkPrefix | src/road_network.cpp:65-66 | a walk without its last edge is a walk ending at that edge's source |
| RoadNetworks.Relaxed | src/road_network.cpp:65-67 | relaxing keeps the distance vector's length |
| RoadNetworks.RelaxBounds | src/road_network.cpp:64-68 | relaxing one edge keeps the pass's bound on walks and adds that edge |
| RoadNetworks.NodeRelaxed | src/road_network.cpp:63-69 | relaxing all of a node's edges completes it for the pass |
| RoadNetworks.RelaxWitnessed | src/road_network.cpp:65-67 | a lowered distance is the cost of an actual walk |
| RoadNetworks.RoadNetwork.constructor | include/road_network.hpp:15-17 | a new network has no adjacency lists |
| RoadNetworks.RoadNetwork.AddEdge | src/road_network.cpp:3-5 | the edge, with equal weight and base weight, is appended to the source's list (created when missing), nothing else changes |
| RoadNetworks.RoadNetwork.UpdateEdgeWeight | src/road_network.cpp:7-14 | the source's list becomes the reweighted one (created empty when missing), nothing else changes |
| RoadNetworks.RoadNetwork.RemoveEdge | src/road_network.cpp:16-25 | reports removal exactly when an edge to the target exists; the first such edge is erased, nothing else changes |
| RoadNetworks.RoadNetwork.DijkstraSearch | src/road_network.cpp:29-47 | succeeds exactly when start is the goal or has a list; no predecessors; the distances end at 0 for start and, when start is not the goal, for exactly the targets of its edges |
| RoadNetworks.Targets | src/road_network.cpp:40-41 | every edge's target is included, and nothing else |
| RoadNetworks.TargetsStep | src/road_network.cpp:40-41 | scanning one more edge adds its target |
| RoadNetworks.RoadNetwork.Reconstruct | src/road_network.cpp:49-56 | the path is [start] when start is the goal, empty when the goal has no predecessor, and otherwise an edge path from start to goal |
| RoadNetworks.RoadNetwork.Dijkstra | src/road_network.cpp:27-57 | the result is `DijkstraResult` (nothing for the throw, the trivial or empty path), and any non-empty path runs from start to goal along edges |
| RoadNetworks.RoadNetwork.BellmanFord | src/road_network.cpp:59-72 | every finite distance is the cost of an actual walk from start, and no walk of fewer than n edges is cheaper than its end's distance |
| RoadNetworks.RoadNetwork.RelaxRound | src/road_network.cpp:63-69 | one pass keeps every distance witnessed and extends the bound to walks one edge longer |
| RoadNetworks.RoadNetwork.RelaxEdgesOf | src/road_network.cpp:64-68 | relaxing one node's edges keeps the distances witnessed and completes that node |
| RoadNetworks.RoadNetwork.Bfs | src/road_network.cpp:74-87 | marks only grow; start becomes marked with all its targets; whatever is newly marked is reachable from start, and every newly marked node has its targets marked |
| RoadNetworks.RoadNetwork.ExpandInBfs | src/road_network.cpp:80-85 | scanning one node's edges marks all its targets, queues exactly the newly marked ones, all reachable |
| RoadNetworks.RoadNetwork.Dfs | src/road_network.cpp:89-96 | marks only grow; the node becomes marked with all its targets; whatever is newly marked is reachable from it, and has its targets marked |
| RoadNetworks.RoadNetwork.TopologicalSort | src/road_network.cpp:122-132 | the order lists distinct nodes that have lists, together reaching every node, none reaching an earlier one |
| RoadNetworks.RoadNetwork.AddRoot | src/road_network.cpp:126-128 | a DFS from an unmarked node keeps the marking closed and records it as a new root |
| RoadNetworks.RoadNetwork.CollectEdges | src/road_network.cpp:99-104 | every edge appears as a (weight, source, target) triple, and every triple is an edge (as sets: multiplicities are not counted) |
| RoadNetworks.RoadNetwork.KruskalMst | src/road_network.cpp:98-120 | every pair is an edge, no pair joins two nodes already linked by the pairs before it (the pairs form a forest), and there are fewer pairs than union-find nodes (`KruskalNodes`) |
| RoadNetworks.RoadNetwork.InitialParents | src/road_network.cpp:107-108 | every node with a list is its own parent, and no other node has an entry |
| RoadNetworks.Unite | src/road_network.cpp:113-117 | the edge is added exactly when the two finds return different roots, and then its ends were not yet linked; the roots still match the chosen pairs; entries are only added, for the ends and for 0; each added pair makes one more non-root |
| RoadNetworks.KeepShared | src/road_network.cpp:113 | finds that keep every root keep the chosen pairs' ends sharing roots |
| RoadNetworks.Link | src/road_network.cpp:115-116 | linking two different roots keeps the chosen pairs, now with the new one, sharing roots |
| RoadNetworks.SortEdges | src/road_network.cpp:105 | the sorted edge list is a permutation, ascending as tuples |
| RoadNetworks.Find | src/road_network.cpp:109-111 | returns the root of x (`FoundRoot`), compresses without changing any root, inserts x (and 0, when x was missing) as `operator[]` does, and never makes a non-root a root |
| RoadNetworks.FindKeepsFound | src/road_network.cpp:113 | the first find leaves what the second find returns unchanged |
| RoadNetworks.FewerNonRoots | src/road_network.cpp:107-117 | when some node is a non-root, there are fewer non-roots than nodes |
| RoadNetworks.LinkNonRoots | src/road_network.cpp:115-116 | linking two different roots keeps the keys and adds exactly one non-root |
| RoadNetworks.TwoFindsKeys | src/road_network.cpp:113 | the two finds add entries only for the ends and for 0 |
| RoadNetworks.KeysStayIn | src/road_network.cpp:112-118 | one step of the edge loop keeps the entries within the union-find nodes |
| RoadNetworks.EdgeEndsAreNodes | src/road_network.cpp:99-104 | both ends of every edge are union-find nodes |
| RoadNetworks.ForestGrows | src/road_network.cpp:112-118 | one step of the edge loop keeps every pair an edge and the pairs a forest |
| RouteOptimizer.PathWeightNonNegative | src/route_optimizer.cpp:19-31 | with non-negative weights a path's summed cost is non-negative, and 0 for a single node |
| RouteOptimizer.LegsAsWritten | src/route_optimizer.cpp:16-17 | a destination yields a cost exactly when it equals the current node, that cost is 0, and the lookup throws exactly for another destination from a node with no list |
| RouteOptimizer.SubpathCost | src/route_optimizer.cpp:19-31 | the cost loop sums the weight of the first edge for each hop, skipping missing hops |
| RouteOptimizer.ChooseNext | src/route_optimizer.cpp:11-38 | the scan throws or chooses the first strictly cheapest destination with a path, as `ScanOutcome` states |
| RouteOptimizer.ScanAsWritten | src/route_optimizer.cpp:15-38 | the scan throws exactly when the current node has no list and some destination differs; a chosen destination is the current node |
| RouteOptimizer.GreedyRoute | src/route_optimizer.cpp:5-48 | fails exactly when start has no list and some destination differs from it; else the route is start repeated once plus once per listing of start, within the destinations |
| RouteOptimizer.StrikeOff | src/route_optimizer.cpp:42-43 | moving the chosen destination from the remaining list to the path keeps their joint multiset |
| RouteOptimizer.AllStart | src/route_optimizer.cpp:42 | a sequence of one repeated node counts its length of that node and none of any other |
| RouteOptimizer.RouteCost | src/route_optimizer.cpp:50-57 | the loop computes `RouteHops`: nothing on a throw, else the summed hop counts |
| RouteOptimizer.NoneStaysNone | src/route_optimizer.cpp:52-55 | once a leg throws, the whole route costs nothing |
| RouteOptimizer.RouteHopsAsWritten | src/route_optimizer.cpp:50-57 | the cost throws exactly when a move starts at a node without a list, and otherwise the summed `size_t` hop counts are 2^64-1 times the number of moves |
| RouteOptimizer.InsertByDest | src/route_optimizer.cpp:61-63 | inserting into a list sorted by destination keeps it sorted and adds exactly the element |
| RouteOptimizer.HeadBelowDest | src/route_optimizer.cpp:61-63 | a head below the inserted element stays below the insertion into the tail |
| RouteOptimizer.SortByDest | src/route_optimizer.cpp:60-63 | the result is a permutation sorted by destination id |
| RouteOptimizer.DealtSize | src/route_optimizer.cpp:64-67 | list c receives n div k deliveries, plus one when c is below n mod k |
| RouteOptimizer.DealtBalanced | src/route_optimizer.cpp:64-67 | an earlier list has the same number of deliveries as a later one, or one more |
| RouteOptimizer.SizesBelowStep | src/route_optimizer.cpp:65-66 | dealing one more delivery adds one to the list it goes to |
| RouteOptimizer.DealtExactlyOnce | src/route_optimizer.cpp:64-67 | the lists' sizes add up to the number of deliveries |
| RouteOptimizer.DealtPlaces | src/route_optimizer.cpp:65-66 | delivery j lands in list j mod k at position j div k |
| RouteOptimizer.PartitionDeliveries | src/route_optimizer.cpp:59-69 | fails exactly on a negative count (the length error); else numVehicles lists, list c holding the sorted deliveries' ids dealt round-robin to c |
| QuadTrees.BoundaryIncluded | src/quadtree.cpp:6-8 | a rectangle contains its corners and nothing outside its bounds |
| QuadTrees.QuadrantsCover | src/quadtree.cpp:14-30 | a point is in a rectangle exactly when it is in one of its four quadrants |
| QuadTrees.WithChild | src/quadtree.cpp:41-43 | replacing one child changes that child only |
| QuadTrees.StoredChildren | src/quadtree.cpp:52-63 | a split node stores its own points, then those of its children in order |
| QuadTrees.BagOfStored | src/quadtree.cpp:52-63 | the points a node holds are those its traversal visits |
| QuadTrees.SplitFormed | src/quadtree.cpp:14-30 | a split node is well formed exactly when it holds no points and its children are quadrants, well formed |
| QuadTrees.StoredInside | src/quadtree.cpp:32-46 | every stored point lies in its node's rectangle |
| QuadTrees.FirstIn | src/quadtree.cpp:41-43 | the first child containing the point, or 4 when none does |
| QuadTrees.FirstContaining | src/quadtree.cpp:41-43 | the loop finds that first child |
| QuadTrees.SomeChildContains | src/quadtree.cpp:41-43 | some child contains a point of a well-formed split node |
| QuadTrees.ReplaceChild | src/quadtree.cpp:42 | a child that gains points adds them to its parent |
| QuadTrees.FormedReplaced | src/quadtree.cpp:42 | replacing a child by a well-formed node for its quadrant keeps the children well formed |
| QuadTrees.FirstQuadrant | src/quadtree.cpp:25-29 | the first quadrant containing the point, or 4 when none does; a point of the rectangle always has one |
| QuadTrees.FirstInQuadrant | src/quadtree.cpp:41-43 | in well-formed children the first containing child is the first containing quadrant |
| QuadTrees.InQuadrantSnoc | src/quadtree.cpp:25-29 | one more point is handed to its first quadrant only |
| QuadTrees.InQuadrantPrefix | src/quadtree.cpp:25-29 | a prefix of the points hands no more of them to a quadrant than all of them do |
| QuadTrees.InQuadrantMembers | src/quadtree.cpp:25-29 | every point handed to quadrant j is one of the points and has j as its first quadrant |
| QuadTrees.DescendOne | src/quadtree.cpp:41-43 | the target leaf and depth of a split node are those of its first containing child, one level down |
| QuadTrees.HandedStep | src/quadtree.cpp:25-29 | giving the next point to its first quadrant keeps every child holding exactly the points handed to it |
| QuadTrees.LeavesStep | src/quadtree.cpp:25-29 | appending the next point to its first quadrant's leaf keeps every child the leaf of the points handed to it, in order |
| QuadTrees.RoomLeft | src/quadtree.cpp:25-29 | while the points spread out, the child receiving the next point is a leaf with room |
| QuadTrees.HandedMembers | src/quadtree.cpp:25-29 | a child holds only points whose first quadrant it is |
| QuadTrees.InsertAt | src/quadtree.cpp:32-46 | a point outside is ignored; else it is added (appended in a leaf under capacity, given to the first containing child of a split node, the leaf split at capacity) and the tree stays well formed; it succeeds when the fuel covers the descent and the target leaf has room, or covers one more level and the split spreads the leaf's points |
| QuadTrees.Subdivide | src/quadtree.cpp:14-30 | the leaf becomes a split node with quadrant children; child j holds exactly the points whose first containing quadrant is j; when those groups fit, it succeeds and child j is the leaf of that group in order |
| QuadTrees.Reinsert | src/quadtree.cpp:25-29 | the point goes to its first containing child, which gains it, while the other children are unchanged; the children stay well formed; a leaf with room simply appends it |
| QuadTrees.WithinConcat | src/quadtree.cpp:54-57 | the points within the radius of a concatenation are those of each part |
| QuadTrees.WithinCounts | src/quadtree.cpp:56 | each point within the radius is kept as many times as stored, every other point dropped |
| QuadTrees.QueryPoints | src/quadtree.cpp:54-57 | the loop appends the node's points within the radius, in order |
| QuadTrees.Query | src/quadtree.cpp:52-63 | the result gains the node's points within the radius, in traversal order |
| QuadTrees.ScanConcat | src/quadtree.cpp:73-85 | scanning a concatenation scans the second part from where the first left off |
| QuadTrees.ScanFindsFirstNearest | src/quadtree.cpp:71-87 | the scan finds nothing exactly for no points, else the first point at least squared distance |
| QuadTrees.Nearest | src/quadtree.cpp:71-87 | the recursion scans the node's points in traversal order |
| QuadTrees.QuadTree.constructor | src/quadtree.cpp:10-12 | a new tree is an empty leaf over the rectangle |
| QuadTrees.QuadTree.Insert | src/quadtree.cpp:48-50 | a point inside the bounds is recorded as inserted, one outside changes nothing; the tree stays well formed; it succeeds under the same fuel and room conditions as `InsertAt` |
| QuadTrees.QuadTree.QueryRadius | src/quadtree.cpp:65-69 | each inserted point within the radius is returned as many times as inserted, and no other point |
| QuadTrees.QuadTree.FindNearest | src/quadtree.cpp:89-92 | nothing exactly when no point was inserted; else an inserted point at least distance, the first in traversal order |
| Types.PickKey | src/road_network.cpp:125 | some key of the map, the iteration order being unspecified |
| Scheduling.ChoiceAmong | src/scheduler.cpp:19-31 | a chosen id lies below the bound and names an available vehicle |
| Scheduling.ChoiceIsFirstNearest | src/scheduler.cpp:15-34 | the scan chooses nothing exactly when no id below the bound is an available vehicle, and otherwise the first nearest one, with its distance |
| Scheduling.RescanKeeps | src/scheduler.cpp:19-20 | rescanning an id already tried changes nothing, so the repeated outer loop gives the same choice |
| Scheduling.CommitKeepsLoads | src/scheduler.cpp:39-44 | a guarded commit keeps every vehicle's load within its capacity |
| Scheduling.VehiclesAfter | src/scheduler.cpp:36-46 | assign_delivery keeps the vehicle store's ids |
| Scheduling.ReplannedKeeps | src/scheduler.cpp:57-59 | a successful replan keeps the ids and every other vehicle, changes only the list, which becomes a non-empty node-id route, and keeps loads within capacity |
| Scheduling.NoneAvailable | src/scheduler.cpp:15-34 | with no available vehicle below id 1000, the scan chooses nothing from any position |
| Scheduling.ProcessedSnoc | src/scheduler.cpp:49-61 | after turns that went through, one more turn is `TurnOutcome` from the stores they left |
| Scheduling.IdleProcessed | src/scheduler.cpp:49-61 | with no available vehicle below id 1000, any sequence of turns goes through and leaves both stores unchanged |
| Scheduling.NewRecordsFit | include/types.hpp:19-39 | a new vehicle starts available with an empty list, keeps loads within capacity, and a new delivery starts pending and unassigned; it can then be assigned exactly when its weight fits the capacity |
| Scheduling.SameLoadKeepsLoads | src/scheduler.cpp:59 | replacing only a vehicle's list keeps loads within capacity |
| Scheduling.LowIdsHolds | src/scheduler.cpp:70-73 | a delivery is collected exactly when it is stored under an id below 100 |
| Scheduling.LowIdsSize | src/scheduler.cpp:70-73 | one delivery is collected per stored id below 100 |
| Scheduling.Scheduler.constructor | src/scheduler.cpp:7-8 | the new scheduler uses the given network and location store, with empty delivery and vehicle stores and queue |
| Scheduling.Scheduler.AddDelivery | src/scheduler.cpp:10-13 | the queue gains the delivery and the delivery store maps its id to it; the store's table is the old one or a fresh one |
| Scheduling.Scheduler.FindNearestVehicle | src/scheduler.cpp:15-34 | nothing exactly when no id below 1000 is an available vehicle, else the first nearest one |
| Scheduling.Scheduler.AssignDelivery | src/scheduler.cpp:36-46 | when both exist and the load fits, the delivery is assigned and the vehicle takes it (id appended, weight added, unavailable); otherwise nothing changes; loads stay within capacity |
| Scheduling.Scheduler.PutDelivery | src/scheduler.cpp:40-41 | a write through the found delivery changes only its record |
| Scheduling.Scheduler.PutVehicle | src/scheduler.cpp:42-44 | a write through the found vehicle changes only its record |
| Scheduling.Scheduler.Dispatch | src/scheduler.cpp:51-60 | a delivery not pending or with an unknown source is skipped, with both stores unchanged; otherwise it is offered from its source location, with the stores ending as `Offered` states; together, `ok` and the stores are `TurnOutcome` |
| Scheduling.Scheduler.Offer | src/scheduler.cpp:54-60 | with no available vehicle nothing changes; else the first nearest vehicle is asked under the guard, and `ok` holds exactly when its replan succeeds, the stores being then the replanned ones and otherwise those assign_delivery left |
| Scheduling.Scheduler.Take | src/scheduler.cpp:56-59 | the delivery store is assign_delivery's result; `ok` holds exactly when the replan succeeds, and the vehicle store is then the replanned one and otherwise assign_delivery's |
| Scheduling.Scheduler.Destinations | src/scheduler.cpp:57-58 | fails exactly when a listed id has no stored delivery, else the destinations in list order |
| Scheduling.Scheduler.Replan | src/scheduler.cpp:57-59 | `ok` holds exactly when every listed id is stored and the route can be planned; then the store is `Replanned` (only the vehicle's list changes, to a non-empty route of its position's node id repeated); a failure changes nothing |
| Scheduling.Scheduler.PopNext | src/scheduler.cpp:50 | pops the first delivery, extending the in-order drain |
| Scheduling.Scheduler.Turn | src/scheduler.cpp:49-61 | one turn pops the first delivery and dispatches it: skipped with the stores unchanged, or offered with the stores as `Offered` states, so `ok` and the stores are `TurnOutcome`; loads stay within capacity |
| Scheduling.Scheduler.ProcessDeliveries | src/scheduler.cpp:48-62 | the deliveries are taken in queue order, each no earlier than the one before; `ok` and both final stores are `Processed` over the popped order (the turns in sequence, stopping at the first throw); the queue ends empty unless a turn throws; loads stay within capacity; with no available vehicle nothing throws, the queue empties and both stores are unchanged |
| Scheduling.Scheduler.UpdateTraffic | src/scheduler.cpp:64-66 | exactly the network's reweighting |
| Scheduling.Scheduler.SortedDeliveries | src/scheduler.cpp:68-78 | a deadline-sorted permutation of the deliveries stored under ids below 100 |

## Left out

- Floating point. Coordinates, loads and capacities are `real`, and edge weights and path
  costs are integers. Infinity is a separate value (`Inf` in Bellman-Ford, `None` in the
  running minima). Rounding and NaN are not modelled.
- Distance comparisons use the squared distance, which orders points as `hypot` does. The
  `distance` helper (src/utils.cpp:5-7) is not modelled: it calls `hypot`.
- Hashing: `std::hash<int>` is the identity widened to `size_t` (`Scheduling.IdHash`). Other
  hash functions are a parameter of the table.
- Iteration order of `unordered_map`. Where the code iterates over `adj`, the model may take
  any order (`Types.PickKey`), so its contracts hold for every order.
- Pointers. `Vehicle*` and `Location*` are modelled as keys into their stores or as values.
  Identity and aliasing between copies are not modelled.
- HashTables.HashTable.constructor: requires at least one bucket. With zero buckets,
  `get_index` takes a remainder by 0, which is undefined behaviour.
- HashTables.HashTable.Insert: the growth test is the exact comparison `10 * n > 7 * size`;
  the product `size * 0.7` in doubles could round the other way when `7 * size` is a
  multiple of 10.
- PriorityQueue is specialised to deliveries and `DeliveryCompare`, its only instantiation
  (src/priority_queue.cpp:84).
- `update_priority` (src/priority_queue.cpp:68-75) is not modelled. Its loop has no effect,
  and the `make_heap` that follows only reorders a queue that the model keeps heap-ordered
  at every step.
- RoadNetworks.RoadNetwork.Dijkstra: requires non-negative weights. The search as written
  would relax negative edges, and its results are not modelled for them.
- RouteOptimizer.GreedyRoute, RouteOptimizer.RouteCost, Scheduling.Scheduler.Dispatch,
  Scheduling.Scheduler.Offer, Scheduling.Scheduler.Take, Scheduling.Scheduler.Replan,
  Scheduling.Scheduler.Turn, Scheduling.Scheduler.ProcessDeliveries: each inherits the
  requirement of non-negative weights (`NonNegative`) from the Dijkstra search they call.
  Routing over negative weights is not modelled.
- RouteOptimizer.RouteHopsAsWritten: states the sum of the `size_t` values, 2^64 - 1 per
  move. The `double` that route_cost returns rounds each of them to 2^64, which the model
  does not represent, because floating point is not modelled.
- RoadNetworks.RoadNetwork.BellmanFord: requires node ids below the number of lists, as the
  `vector<double>` indexing needs. The number of passes is the number of lists minus one.
  With an empty network, `size() - 1` wraps in the source; the model excludes that case
  through `start < |adj|`.
- RoadNetworks.RoadNetwork.Bfs, RoadNetworks.RoadNetwork.Dfs: require every reachable node
  to have a list and an index within `visited`. Otherwise `at` throws or the vector is read
  out of range.
- RoadNetworks.RoadNetwork.TopologicalSort: requires node ids below the number of lists and
  every edge target to have a list, as `visited` and `dfs` need.
- RoadNetworks.RoadNetwork.KruskalMst: states that every pair is an edge, that the pairs
  form a forest, and that there are fewer pairs than union-find nodes. It does not state the
  order of the pairs, or which of several equal-weight edges is chosen. Both follow from
  `std::sort` on tuples, which the model's insertion sort matches only up to equal tuples.
  - It does not promise a spanning forest. Nodes without a list join 0's tree without an
    edge, so an edge between unlinked nodes can be skipped.
  - When some edge target has no list, the union-find nodes include node 0 even if no edge
    touches it. The bound is then one looser than the number of edge endpoints minus one.
- RoadNetworks.Unite: keeps an edge exactly when the finds return different roots. It states
  "not yet linked" only in that direction, since the converse is false as written.
- Scheduling.Scheduler.SortedDeliveries, RouteOptimizer.PartitionDeliveries: `std::sort` is
  not stable, so the order of equal keys is unspecified. The model sorts by insertion and
  states only sortedness and permutation.
- RouteOptimizer.PartitionDeliveries: requires no deliveries when there are no vehicles,
  because `i % 0` is undefined behaviour.
- QuadTrees.InsertAt: takes a fuel bound on the depth of splitting. With too little fuel the
  insertion reports failure. Success is promised in two cases:
  - the fuel covers the descent to the target leaf (`DepthFor`) and that leaf has room;
  - the fuel covers one more level and the split spreads the leaf's points, at most
    Capacity to a quadrant (`Spread`).
  Success after a cascade of several splits, for crowded points, is not promised. A leaf
  holding five copies of one point is split without end in the source: every split sends
  all five into the same child, so the recursion has no bound.
- QuadTrees.QuadTree.Insert: takes the same fuel bound and reports `false` when it runs out.
  It promises success under the same two conditions as `QuadTrees.InsertAt`.
- Scheduling.Scheduler.ProcessDeliveries: states `ok` and the final stores through the
  specification `Processed` over the popped order. The popped order itself is stated only as
  an in-order drain of the queue (`Drained`), not as one fixed sequence, because the order of
  equal deliveries depends on the heap.
- The scheduler's quadtree `qt` and its initialiser are not modelled.
- The following are declared in the headers but never defined: `add_vehicle`,
  `add_location_to_quadtree`, `update_vehicle_availability`, `get_vehicle_db`, `get_adj`.
  - The model reads `get_adj()` as the adjacency map.
  - Vehicles enter the store through `Scheduling.Scheduler.PutVehicle`.
- Headers and implementation disagree in places: `find` returns `optional<V*>`, while the
  scheduler uses the result as if it held the value. The model reads a find as the stored
  value, and a write through it as a store into the table.
- File input and output (src/file_io.cpp) and the program's entry point (src/main.cpp) are
  not part of this model.
