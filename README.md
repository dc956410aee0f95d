# Shortest paths over a binary min-heap

This project models the core of a small C program. The program computes single-source shortest paths over an undirected weighted graph with Dijkstra's algorithm and prints the cheapest path to every node. The core has two parts:

- `pq.c` is a priority queue of `(value, priority)` entries. It keeps them in a dynamic array arranged as a binary min-heap: the parent of slot `i` is `(i - 1) / 2`, and its children are `2i + 1` and `2i + 2`. A lower priority value comes out first.
  - Insertion appends an entry and bubbles it up.
  - Removal moves the last entry to the root, shrinks the array, and bubbles the new root down. It swaps with the strictly smaller child, and the left child wins a tie.
- `dijkstra.c` does four things:
  - it builds adjacency lists, prepending each edge to its source's list and adding every input edge in both directions;
  - it runs Dijkstra's algorithm with lazy decrease-key: an improved distance pushes a fresh queue entry, and a popped entry for a node that is already visited is skipped;
  - it fills `dist` (`INT_MAX` for "unreached") and `prev` (`-1` for "no predecessor");
  - it reconstructs paths by following `prev` back to the start.

The Dafny model has three modules:

- `PriorityQueue` (`pq.dfy`) models the heap.
  - The class `PQ` has a `heap: seq<Entry<V>>` field standing for the dynamic array. Its methods update that field in place, and `BubbleUp` and `BubbleDown` are the C `while` loops, with their invariants.
  - The heap order is stated pairwise, parent against child (`IsHeap`). The two "heap except at slot k" predicates describe the states the two sift loops pass through.
  - Every operation states its new contents as a multiset of entries, its new size, and that the heap order is kept.
  - The client method `InsertThenDrain` proves the ordering law: insert a batch, then remove until empty, and the entries come back as a permutation, in non-decreasing priority.
- `Graph` (`graph.dfy`) models the graph.
  - The adjacency lists are an `array<seq<Edge>>` that `AddEdge` and `ReadGraph` update.
  - The ghost function `Build` gives the lists that result from a sequence of input links. Lemmas prove that the result is symmetric, that every link is present in both directions, and that nothing else is present.
- `ShortestPaths` (`dijkstra.dfy`) models the engine.
  - `Dijkstra` works on the arrays `dist`, `prev` and `visited` and on a `PQ<int>`. Its main loop is split into three methods: `ProcessNext` (one pop), `RelaxEdges` (the edge loop) and `RelaxEdge` (one relaxation).
  - The loop invariant `Inv` is stated per node (`NodeInv`) and per queue entry (`EntryInv`) over a ghost `State`. `State` adds proof-only bookkeeping: the set of unvisited nodes, the order in which nodes were settled, the priority of the last settled entry, the node `u` whose edges are being relaxed (-1 between pops), and the number `done` of its edges already relaxed.
  - On termination `Dijkstra` guarantees `PathTree`:
    - the start has distance 0 and no predecessor;
    - any other node has a predecessor exactly when its distance is finite;
    - a node has a finite distance exactly when some walk reaches it from the start;
    - the reconstructed path of a reached node is a walk from the start whose cost is its distance;
    - an unreached node has no path;
    - when no edge costs less than zero, no walk is cheaper than the computed distance.
  - Together these say that, with non-negative costs, `dist` holds the least path costs and `prev` the corresponding shortest-path tree.

Distances are the datatype `Dist = Inf | Fin(d)`, where `Inf` stands for `INT_MAX`. The guard `dist[u] != INT_MAX && dist[u] + cost < dist[v]` becomes `dist[u].Fin? && Below(dist[u].d + cost, dist[v])`. Node indices travel through the queue as plain `int` values rather than as heap-allocated boxes.

Dijkstra's algorithm assumes non-negative edge costs, but the C code accepts any integer cost and never checks. So `Dijkstra` accepts any costs, and all of `PathTree` holds for every graph except the optimality conjunct. That conjunct is proved only when every edge cost is non-negative.

## Model

| member | source | states |
|---|---|---|
| PriorityQueue.RootIsMinimum | pq.c:206-212 | In a heap, the root's priority is no greater than the priority in any slot, by induction up the parent chain. |
| PriorityQueue.RootIsMinimumOfContents | pq.c:226-232 | In a non-empty heap, the root's priority is no greater than that of any entry in the queue's multiset. |
| PriorityQueue.SiftUpStep | pq.c:53-60 | Swapping slot k with a parent of larger priority moves the only heap defect from k to the parent. |
| PriorityQueue.SiftUpDone | pq.c:48-56 | Bubble-up may stop at the root, or where the parent's priority is no greater: the whole array is then a heap. |
| PriorityQueue.SiftDownStep | pq.c:78-112 | Swapping slot k with its smallest child, when that child is strictly smaller, moves the only heap defect to the child. |
| PriorityQueue.SiftDownDone | pq.c:102-105 | Bubble-down may stop when no child is strictly smaller: the whole array is then a heap. |
| PriorityQueue.RemoveRootStep | pq.c:253-259 | Moving the last entry to the root and dropping the last slot leaves exactly the old entries minus the old root, with the only defect at the root. |
| PriorityQueue.PQ.constructor | pq.c:120-126 | A new queue is empty and satisfies the heap order. |
| PriorityQueue.PQ.IsEmpty | pq.c:160-164 | True exactly when the queue holds no entries. |
| PriorityQueue.PQ.BubbleUp | pq.c:46-62 | Starting from a heap whose only defect is at `index`, the loop leaves a full heap of the same size and the same multiset of entries. |
| PriorityQueue.PQ.BubbleDown | pq.c:73-114 | Starting from a heap whose only defect is below `index`, the loop (strict comparisons, left child first) leaves a full heap of the same size and the same multiset of entries. |
| PriorityQueue.PQ.Insert | pq.c:183-192 | The size grows by exactly one, the contents gain exactly `(value, priority)`, and the heap order is kept. |
| PriorityQueue.PQ.First | pq.c:206-212 | On a non-empty queue, returns the root's value; the root's priority is no greater than any in the queue, and nothing changes. |
| PriorityQueue.PQ.FirstPriority | pq.c:226-232 | On a non-empty queue, returns the root's priority, which is no greater than any priority in the queue; nothing changes. |
| PriorityQueue.PQ.RemoveFirst | pq.c:247-271 | On a non-empty queue, returns the value of the old root, an entry of least priority. The size drops by exactly one, the contents lose exactly that entry, and the heap order is kept. |
| PriorityQueue.DrainStep | pq.c:234-246 | Appending a least entry of the queue to the already-removed entries keeps them sorted and no greater than anything left, and loses no entry. |
| PriorityQueue.InsertAll | pq.c:183-192 | Inserting a sequence of entries into an empty queue leaves exactly their multiset, in heap order. |
| PriorityQueue.InsertThenDrain | pq.c:166-171 | Inserting entries and removing the first until empty returns a permutation of them in non-decreasing priority. |
| Graph.AddEdge | dijkstra.c:39-47 | `(dest, cost)` becomes the head of `src`'s list with the old list as its tail; every other list is unchanged. |
| Graph.Build | dijkstra.c:69-75 | The adjacency lists after the links are added in order, each in both directions; there is one list per node. |
| Graph.ReadGraph | dijkstra.c:60-77 | The loops leave an array that equals `Build` of the links: all lists start empty and each link is added in both directions. |
| Graph.BuildHasLink | dijkstra.c:69-75 | Every input link `(src, dest, cost)` appears as `(dest, cost)` in `src`'s list and as `(src, cost)` in `dest`'s list. |
| Graph.BuildOnlyLinks | dijkstra.c:69-75 | Every adjacency entry comes from some input link, in one direction or the other. |
| Graph.BuildSymmetric | dijkstra.c:72-74 | `(v, cost)` is in `u`'s list exactly when `(u, cost)` is in `v`'s list. |
| Graph.BuildWellFormed | dijkstra.c:69-75 | Links whose ends are within range give lists whose destinations are all node indices. |
| Graph.BuildNonNegative | dijkstra.c:69-75 | Links with non-negative costs give a graph with no negative edge cost. |
| ShortestPaths.PathWithin | dijkstra.c:187-202 | A found path starts at `start`, ends at `v`, and each node in it is the predecessor of the next. |
| ShortestPaths.PrintPath | dijkstra.c:187-202 | `v == start` gives `[start]`. A missing link from `v != start` gives no path. Otherwise the path runs from `start` to `v` along `prev` links. |
| ShortestPaths.InitEstablishes | dijkstra.c:120-141 | After initialisation (`dist` all `Inf` except `Fin(0)` at the start, `prev` all -1, nothing visited, only `(start, 0)` queued), the loop invariant holds. |
| ShortestPaths.PopSettled | dijkstra.c:146-153 | Discarding a popped entry of an already-visited node keeps the invariant, with `dist` and `prev` untouched. |
| ShortestPaths.PopUnsettled | dijkstra.c:146-154 | A least entry popped for an unvisited node carries exactly that node's distance, and marking the node visited keeps the invariant. |
| ShortestPaths.Settle | dijkstra.c:154 | Settling the popped node marks it visited and removes it from the unvisited nodes. |
| ShortestPaths.Relax | dijkstra.c:161-168 | An improving relaxation towards an unvisited node keeps the invariant. It sets the new distance and `u` as the predecessor, and queues a fresh entry. |
| ShortestPaths.RelaxNode | dijkstra.c:161-164 | After an improving relaxation, each single node still satisfies its part of the invariant. |
| ShortestPaths.NoRelax | dijkstra.c:158-171 | Skipping an edge whose guard fails keeps the invariant. |
| ShortestPaths.Expanded | dijkstra.c:157-171 | Once all edges of `u` are relaxed, the invariant between pops holds again. |
| ShortestPaths.SettledWalk | dijkstra.c:143-172 | When distances are closed under the edges, every walk from the start ends at a reached node. With non-negative costs, that node's distance is no greater than the walk's cost. |
| ShortestPaths.SettledPath | dijkstra.c:187-202 | Following `prev` from a reached node finds a path within its settling rank, and that path is a walk whose cost is the node's distance. |
| ShortestPaths.FinalState | dijkstra.c:143-172 | With the queue empty, the start has distance 0 and no predecessor, any other node has a predecessor exactly when reached, the distances are closed under the edges, and predecessor links are traced. |
| ShortestPaths.TracedPaths | dijkstra.c:187-202 | Every reached node is reachable, and its reconstructed path is a walk from the start costing its distance. |
| ShortestPaths.ClosedBounds | dijkstra.c:104-115 | Every reachable node is reached. With non-negative costs, no walk to a node is cheaper than its distance. |
| ShortestPaths.TreeFromFinal | dijkstra.c:104-115 | Closed, traced final distances and predecessors satisfy `PathTree`. |
| ShortestPaths.Finished | dijkstra.c:143-176 | When the main loop exits, `dist` and `prev` satisfy `PathTree`. |
| ShortestPaths.RelaxEdge | dijkstra.c:160-169 | Keeps the invariant. Only the edge's target may change: under the guard it gets `dist[u] + cost` and predecessor `u`, and one entry is queued; otherwise nothing changes. Distances only go down (`OnlyLowered`). |
| ShortestPaths.RelaxEdges | dijkstra.c:157-171 | Relaxing every edge of the settled node, in list order, restores the invariant between pops. Settled nodes keep `dist` and `prev`; any other node keeps both or gets a strictly smaller finite distance with predecessor `u`. |
| ShortestPaths.LoweredOnce | dijkstra.c:161-164 | Giving one unvisited node a strictly smaller distance and predecessor `u` satisfies `OnlyLowered`: settled nodes are untouched and distances only go down. |
| ShortestPaths.LoweredTwice | dijkstra.c:158-171 | Two successive rounds of lowering from the same node `u`, sparing the same settled nodes, compose into one such round. |
| ShortestPaths.LoweredFewerSettled | dijkstra.c:150-156 | Lowering that spares every visited node, `u` included, also spares the nodes that were visited before `u` was marked. |
| ShortestPaths.ProcessNext | dijkstra.c:143-172 | One pop keeps the invariant. A stale entry changes nothing. A fresh pop makes exactly the popped node `u` visited. Nodes visited before keep `dist` and `prev`, and any other node keeps both or gets a strictly smaller distance with predecessor `u`. Either a node leaves the unvisited set or the queue shrinks. |
| ShortestPaths.Dijkstra | dijkstra.c:116-176 | Terminates. Afterwards `dist` and `prev` satisfy `PathTree`: start at 0 with no predecessor, finite exactly for reachable nodes, paths that are walks costing the distance, and least costs when costs are non-negative. |

## Left out

- `main`, reading the graph file and the start node, and printing results (dijkstra.c:215-268). `ReadGraph` takes the node count and a sequence of links in place of the file.
- `pq_free`, `free_graph`, `malloc`/`free` and the allocation `assert`s: they only manage storage.
- The dynamic array's own implementation, which is not part of this model. It is taken to support append, read, write and remove-last, as the `heap` sequence field does.
- The boxing of node indices as `int *` for the queue: the queue holds plain `int` values.
- C `int` arithmetic. Distances, costs and priorities are unbounded integers, and `Inf` is a separate marker. So the model does not capture:
  - overflow of `dist[u] + e->cost`;
  - a genuine distance equal to `INT_MAX` being mistaken for "unreached".
- Graph.ReadGraph: requires every link's ends to be node indices. The C code writes out of bounds otherwise, so there is no behaviour to model.
- ShortestPaths.PrintPath: the printed text is not modelled, only the node sequence it prints.
  - A broken chain of links (a node other than the start whose chain ends in -1) is modelled as no path at all. The C code would print "No path" followed by the rest of the chain.
  - The recursion follows at most `|prev|` links. This is enough for the `prev` arrays `Dijkstra` produces, where every chain reaches the start (proved in `SettledPath`).
- ShortestPaths.Dijkstra: optimality of the distances (`LowerBound`) is proved only for graphs with no negative edge cost. The code does not check costs, and with negative costs the greedy settling is unsound.
- Which of several equal-cost shortest paths `prev` records is not specified beyond `PathTree`.
