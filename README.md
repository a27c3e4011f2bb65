# Path searches over a city graph

This project models the algorithmic core of a small Python repository. The
repository loads a road map from JSON (`{city: {neighbour: distance}}`) and
searches it for routes in three ways:

- **Symmetrisation** (`dfs_search.py`, lines 18-24). A deep copy of the loaded map gains the reverse
  entry `graph_dict[neighbor][node] = distance` for every declared entry. The graph becomes undirected.
- **Depth-first search** `dfs` (`dfs_search.py`, lines 79-107). It uses an explicit stack, a visited set
  and a predecessor map. The path is rebuilt by walking the predecessors back to the start.
- **Breadth-first search** `bfs_path` (`bfs_search.py`, lines 14-51). It uses a FIFO queue of
  `(node, path)` pairs and checks each neighbour against the goal as it is met.
- **Uniform-cost search** `busca_custo_uniforme` (`UCS.py`, lines 7-27). It uses a `heapq` frontier of
  `(cost, node, path)` tuples and a set of settled nodes.

The modules:

| file | module | contents |
|---|---|---|
| `wrappers.dfy` | `Wrappers` | `Option` |
| `graph.dfy` | `Graphs` | the adjacency map, dictionaries as association lists (`Lookup`, `Put`), edges, walks, path weights, closed sets, and `Unvisited`: the neighbours a loop over a neighbour list adds to a visited set, in listed order |
| `order.dfy` | `Ordering` | Python's comparison of strings and lists, proved a strict total order |
| `symmetrise.dfy` | `Symmetrisation` | the symmetrisation loop, and a fold that specifies it |
| `dfs.dfy` | `DepthFirst` | `dfs` |
| `bfs.dfy` | `BreadthFirst` | `bfs_path` |
| `ucs.dfy` | `UniformCost` | `busca_custo_uniforme`, with the heap as a sequence and `heappop` as "remove the least tuple" |

A graph is a `map<Node, seq<(Node, Weight)>>`:

- A node is a string.
- A distance is a `nat`.
- Each neighbour list is an association list in the dictionary's iteration order.
- All three searches read neighbours in that order.
- None of them depends on the order of the outer keys.

The loaded JSON document itself is an ordered `seq<(Node, seq<(Node, Weight)>)>`. Its key order decides
where symmetrisation appends the reverse entries. The searches are methods with `while` loops, like the
source. Ghost state supports the proofs: a depth map for the predecessor tree, settled distances for
uniform-cost search, and a finite node set bounding each loop.

## Model

| member | source | states |
|---|---|---|
| Graphs.Lookup | dfs_search.py:24 | a dictionary lookup finds a value exactly when some entry has the key, and the value it finds is listed for that key |
| Graphs.Put | dfs_search.py:24 | after `d[k] = w` the key `k` maps to `w` and every other key maps to what it did before |
| Graphs.PutKeys | dfs_search.py:24 | assigning to a dictionary keeps its keys in order; a new key goes at the end |
| Graphs.PutDistinct | dfs_search.py:24 | assigning to a dictionary keeps its keys distinct |
| Graphs.UnvisitedElements | dfs_search.py:102-105 | the nodes a neighbour loop adds (`Unvisited`, one per listed neighbour not yet visited, in listed order) are exactly the listed neighbours not visited before the loop, each once |
| Graphs.UnvisitedCovers | dfs_search.py:102-105 | once the loop has added them, every listed neighbour is visited |
| Graphs.ListedIsEdge | UCS.py:23 | every neighbour `NeighboursOf` lists is an edge; `NeighboursOf` is `grafo.get(atual, {})`, so a node that is not a key has none |
| Graphs.ListedDistance | UCS.py:23 | in a dictionary, the distance iteration yields for a neighbour is the one lookup finds |
| Graphs.ReachableStep | dfs_search.py:103-106 | a neighbour of a reachable node is reachable |
| Graphs.ExtendWalk | UCS.py:25 | `path + [neighbour]` along an edge is a walk, and its weight is the old weight plus the edge's distance |
| Graphs.PrefixWeight | UCS.py:25 | distances are non-negative, so a prefix of a walk weighs no more than the walk |
| Graphs.ClosedHoldsReachable | dfs_search.py:87-107 | a node set that holds the start and is closed under edges holds every reachable node (why an exhausted search means "no path") |
| Symmetrisation.Copy | dfs_search.py:18 | the deep copy has exactly the declared edges, each at its declared distance |
| Symmetrisation.AddReverseKeys | dfs_search.py:22-23 | one reverse write (`AddReverse`) adds `neighbor` as a key when it is missing, and no other key |
| Symmetrisation.AddReverseEffect | dfs_search.py:22-24 | one reverse write sets the edge `neighbor -> node` to `distance` and changes no other edge |
| Symmetrisation.ReverseNeighbours | dfs_search.py:21-24 | the inner loop computes `ReverseEntries`: the reverse writes for one node's neighbours, in listed order |
| Symmetrisation.ReverseEntriesEdges | dfs_search.py:21-24 | after the inner loop, `p -> node` has the distance `node` declares for `p`, for every listed `p`; every other edge is unchanged |
| Symmetrisation.ReverseEntriesKeys | dfs_search.py:21-23 | the inner loop adds exactly the listed neighbours as keys |
| Symmetrisation.ReverseEntriesWellFormed | dfs_search.py:21-24 | the inner loop keeps every neighbour list free of repeated keys |
| Symmetrisation.ReverseDocEdges | dfs_search.py:20-24 | after the outer loop (`ReverseDoc`), `p -> q` has the distance `q` declares for `p` when `q` declares one; otherwise it is what it was before |
| Symmetrisation.ReverseDocKeys | dfs_search.py:20-23 | the outer loop adds exactly the nodes named as neighbours as keys |
| Symmetrisation.ReverseDocKeepsOrder | dfs_search.py:20-24 | the outer loop keeps every existing key, and its neighbours stay first in its list, in their order |
| Symmetrisation.Symmetrised | dfs_search.py:18-24 | the copy followed by the reverse writes has as keys exactly the nodes the document names |
| Symmetrisation.SymmetrisedGraph | dfs_search.py:18-24 | the result has distinct keys in every neighbour list and a key for every named node; the distance of `a -> b` is `b`'s declared distance to `a` when `b` declares `a`, else `a`'s declared distance to `b` |
| Symmetrisation.Symmetrise | dfs_search.py:18-24 | the nested loop computes the fold `Symmetrised`; the result therefore has the keys, distinct neighbour keys and distances `SymmetrisedGraph` describes |
| Symmetrisation.SymmetrisedEdges | dfs_search.py:20-24 | the reverse write wins over the copied entry; every distance of the result is the one described for `SymmetrisedGraph` |
| Symmetrisation.SymmetrisedWellFormed | dfs_search.py:18-24 | every neighbour list of the result has distinct keys |
| Symmetrisation.ReverseEntryPresent | dfs_search.py:20-24 | for every declared entry `node -> neighbor` with distance `d`, the result has `neighbor -> node` with distance `d` |
| Symmetrisation.SymmetrisedUndirected | dfs_search.py:20-24 | there is an edge `a -> b` exactly when there is an edge `b -> a`, and exactly when the document declares the pair either way |
| Symmetrisation.SymmetrisedConsistent | dfs_search.py:20-24 | distances come out symmetric when the document never gives a pair two different distances |
| Symmetrisation.SymmetrisedKeepsOrder | dfs_search.py:18-24 | a key's declared neighbours remain first in its list, in declared order; reverse entries are only appended |
| Ordering.LexLess | UCS.py:14 | in Python's sequence `<` a proper prefix comes first and nothing precedes the empty sequence |
| Ordering.LexIrreflexive | UCS.py:14 | Python's sequence comparison over a strict total order is irreflexive |
| Ordering.LexTransitive | UCS.py:14 | and transitive |
| Ordering.LexTotal | UCS.py:14 | and total on distinct sequences |
| Ordering.LexAsymmetric | UCS.py:14 | and never holds both ways, nor between equal sequences |
| Ordering.StrLess | UCS.py:14 | string `<` never holds both ways, nor between equal strings |
| Ordering.StrOrder | UCS.py:14 | comparison of node labels is a strict total order |
| Ordering.ListLess | UCS.py:14 | list-of-strings `<` never holds both ways, nor between equal lists |
| Ordering.ListOrder | UCS.py:14 | comparison of paths (lists of labels) is a strict total order |
| DepthFirst.Reversed | dfs_search.py:95 | `s[::-1]` has the same length and lists `s` back to front |
| DepthFirst.TreeGrows | dfs_search.py:103-106 | recording the popped node as predecessor of a fresh neighbour keeps the predecessor map a tree rooted at the start along graph edges |
| DepthFirst.ChainIsWalk | dfs_search.py:90-95 | the predecessor chain from the target back to the node without predecessor, reversed, is a repeat-free walk from the start to the target in which each node's predecessor is the node before it |
| DepthFirst.PathBack | dfs_search.py:90-95 | following predecessors from the target back to `None` and reversing gives a repeat-free walk from the start to the target in which each node's recorded predecessor is the node before it, so the path is exactly the reversed predecessor chain |
| DepthFirst.PushKeeps | dfs_search.py:103-106 | pushing an unvisited neighbour keeps the search invariant (predecessor tree, stack entries visited and distinct, visited nodes reachable, push log repeat-free) and settles one more node of a finite set |
| DepthFirst.CurrentExpanded | dfs_search.py:102-106 | once the loop has added the unvisited neighbours, every neighbour of the popped node is visited, so the node is fully expanded |
| DepthFirst.PushUnvisited | dfs_search.py:97-106 | the loop appends to the stack exactly the neighbours not visited before it, in listed order, each once (`Unvisited`); it adds them to `visited`, records the popped node as their predecessor and keeps every earlier predecessor; the search invariant holds with the popped node expanded |
| DepthFirst.DfsStarts | dfs_search.py:82-85 | only `start` visited and stacked, with no predecessor, satisfies the search invariant |
| DepthFirst.PopKeeps | dfs_search.py:88 | popping the top of the stack leaves that node visited, off the stack and not yet expanded; a node with no entry in the graph counts as expanded at once |
| DepthFirst.PushedReachable | dfs_search.py:103-106 | every pushed node is reachable from the start, and none is pushed twice |
| DepthFirst.DfsExhausted | dfs_search.py:107 | when the stack runs dry every reachable node has been pushed and the target is unreachable |
| DepthFirst.Dfs | dfs_search.py:79-107 | `dfs(g, s, s)` is `[s]`; a returned path is a walk from `start` to `target` with no repeated node; `None` exactly when the target is unreachable; the nodes pushed are reachable, none twice, and on `None` they are all the reachable nodes |
| BreadthFirst.ExtensionsAt | bfs_search.py:49 | the entries appended for new nodes `ns` are `(n, path + [n])`, one per node, in order |
| BreadthFirst.ShortestExtends | bfs_search.py:45-49 | when every unvisited node lies beyond the current level, `path + [n]` to an unvisited neighbour `n` is a shortest, repeat-free walk (so the early return at line 46 is a shortest path) |
| BreadthFirst.EnqueueKeepsPaths | bfs_search.py:47-49 | a newly enqueued `(neighbor, path + [neighbor])` carries a shortest, repeat-free walk to `neighbor` |
| BreadthFirst.EnqueueKeepsExpanded | bfs_search.py:47-49 | enqueuing keeps every already queued node in the queue and puts the new one in |
| BreadthFirst.EnqueueKeepsLayers | bfs_search.py:49 | a path one node longer than the current level keeps queue path lengths sorted and within two adjacent levels |
| BreadthFirst.EnqueueKeeps | bfs_search.py:47-49 | enqueuing an unvisited neighbour keeps the scan invariant and shrinks the set of unseen nodes |
| BreadthFirst.ReachedAtLevel | bfs_search.py:41-49 | once every queued path is one level longer, every node at that distance is visited |
| BreadthFirst.LevelAdvance | bfs_search.py:41-49 | once every queued path is one level longer, unvisited nodes lie further away than that level |
| BreadthFirst.ScanComplete | bfs_search.py:44-49 | after the neighbour loop has visited every neighbour, the popped node is fully expanded, has no edge to the goal, and the queue invariant holds again |
| BreadthFirst.ScanNeighbours | bfs_search.py:44-49 | returns `path + [goal]` exactly when the popped node has an edge to the goal, and then it is a shortest walk; otherwise the queue gains `(n, path + [n])` for exactly the neighbours not visited before, in listed order, each once, they join `visited`, and the queue invariant is kept |
| BreadthFirst.BfsStarts | bfs_search.py:37-39 | the queue `[(start, [start])]` with only `start` visited satisfies the queue invariant |
| BreadthFirst.Dequeue | bfs_search.py:42 | `popleft` hands the first entry's node and path to the neighbour loop with the invariant it needs |
| BreadthFirst.BfsExhausted | bfs_search.py:51 | when the queue runs dry every reachable node has been enqueued and the goal is unreachable |
| BreadthFirst.BfsPath | bfs_search.py:14-51 | `None` when either endpoint is missing; `[s]` for `s == s` in the graph; a returned path is a repeat-free walk from start to end with no more nodes than any other; `None` exactly when the end is unreachable; the nodes enqueued are reachable, none twice, and on `None` they are all the reachable nodes |
| UniformCost.EntryLess | UCS.py:14 | a `(cost, node, path)` tuple precedes only tuples of no smaller cost, and never itself |
| UniformCost.EntryOrder | UCS.py:14 | comparison of `(cost, node, path)` tuples is a strict total order |
| UniformCost.ArgMin | UCS.py:14 | picks a queue position whose tuple no other tuple precedes |
| UniformCost.PopMin | UCS.py:14 | `heappop` returns a queued tuple that no other precedes, and leaves exactly the other tuples |
| UniformCost.PopMinUnique | UCS.py:14 | the least tuple is unique, so the popped entry does not depend on the heap's layout |
| UniformCost.PopMembers | UCS.py:14 | after a pop every remaining entry was queued, every other queued entry remains, and the queue is one shorter |
| UniformCost.SearchStarts | UCS.py:8-11 | the initial queue `[(0, start, [start])]` with nothing settled satisfies the search invariant |
| UniformCost.CrossingWeight | UCS.py:21-25 | a walk weighs at least the shortest distance to any node on it plus the distance of the next edge |
| UniformCost.CrossingOffered | UCS.py:21-25 | where a walk from the start first leaves the settled nodes, the queue offers that node for no more than the walk weighs |
| UniformCost.PopIsShortest | UCS.py:13-25 | a least entry for an unsettled node costs no more than any walk from the start to that node |
| UniformCost.GoalPopped | UCS.py:14-17 | the popped goal entry's path is a walk to the goal whose weight is its cost, no walk weighs less, and no node was settled at a higher cost |
| UniformCost.DropKeeps | UCS.py:19-20 | discarding a stale entry for a settled node keeps the invariant and shortens the queue |
| UniformCost.PopLeast | UCS.py:14 | tuples compare by cost first, so the entry `heappop` returns costs no more than any queued entry |
| UniformCost.PushesNoCheaper | UCS.py:23-25 | the loop pushes no entry cheaper than the popped cost, since distances are non-negative |
| UniformCost.PopNext | UCS.py:14 | the next pop costs no less than every earlier pop when it costs no more than what stays queued |
| UniformCost.PushesElements | UCS.py:23-25 | the loop pushes exactly one `(cost + d, n, path + [n])` for each listed unsettled neighbour `(n, d)`, and nothing else |
| UniformCost.NeighbourWalked | UCS.py:25 | the pushed `(cost + distance, neighbour, path + [neighbour])` is a walk whose weight is its cost |
| UniformCost.PushesWalked | UCS.py:23-25 | every entry the loop pushes is a walk from the start whose weight is its cost and is no cheaper than the popped cost; earlier entries stay |
| UniformCost.PushesOffered | UCS.py:23-25 | after the loop, every edge from the popped node to an unsettled neighbour is on offer at the popped cost plus its distance |
| UniformCost.AllPushed | UCS.py:23-25 | once each listed neighbour has been dealt with, every edge to an unsettled neighbour is on offer at the popped cost plus its distance |
| UniformCost.PushNeighbours | UCS.py:23-25 | the heap becomes the old heap followed by `Pushes`: one `(cost + d, n, path + [n])` for each listed unsettled neighbour `(n, d)`, in listed order |
| UniformCost.SettleKeepsQueue | UCS.py:21-25 | after settling and pushing, every entry is a walk no cheaper than the settled cost, and every frontier edge is covered |
| UniformCost.SettleShortest | UCS.py:21 | the cost at which a node is settled is its shortest distance from the start, and some walk attains it |
| UniformCost.SettleInOrder | UCS.py:14-21 | nodes are settled once each, in order of non-decreasing cost |
| UniformCost.SettleKeeps | UCS.py:21-25 | settling the least entry and pushing its neighbours keeps the invariant and settles one more node of a finite set |
| UniformCost.ExhaustedUnreachable | UCS.py:27 | when the queue runs dry every reachable node is settled and the goal is unreachable |
| UniformCost.Settle | UCS.py:21-25 | `visited` gains the popped node, which is settled at the popped cost after all earlier ones; the heap becomes the rest followed by the pushes for its unsettled neighbours; the invariant is kept |
| UniformCost.Step | UCS.py:14-25 | one turn of the loop returns the popped least entry exactly when it is the goal, and then it is a shortest walk; a stale entry is dropped with nothing else changed; otherwise the node is settled and its neighbours pushed, and the popped entry costs no more than any entry the heap then holds, so it joins the log of popped entries in cost order; the invariant holds and the search made progress |
| UniformCost.UniformCostSearch | UCS.py:7-27 | `(s, s)` gives `([s], 0)`; a returned path is a walk from start to goal whose weight is the returned cost, and no walk weighs less; `None` exactly when the goal is unreachable; settled costs are shortest distances, each node settled once, in non-decreasing cost order, none above a returned cost; on `None` every reachable node was settled; the entries popped, stale ones included, are walks weighing their cost, popped in non-decreasing cost, the last of them the returned goal entry |

## Left out

- Reading `grafo.json`, the error handling around it and the `exit` calls are input/output. Each model takes the loaded map as a parameter.
- Plotting (`plot_graph_with_path`, the layouts and matplotlib) is rendering only. It is not part of this model.
- The test-case loops and their printed output are console drivers. This includes the `fim` name at `dfs_search.py:141`, which is undefined; it sits in that console code.
- The construction of `networkx.Graph` is library code. `BfsPath` takes the adjacency map it would build, with its neighbour order, as input. A node that is not a key has no neighbours; a `networkx` graph never has such a node.
- Distances are `nat`, not floating point, and `float("inf")` for "no path" becomes `None`.
- The internal layout of `heapq` (sift-up and sift-down) is not modelled. The heap is a sequence. `heappush` appends, and `heappop` removes the least tuple in Python's order. `UniformCost.PopMinUnique` shows that this least tuple is unique, so it is what `heappop` returns whatever the layout.
- `Symmetrisation.Symmetrise`, `UniformCost.UniformCostSearch`: both require the input to be a dictionary of dictionaries, meaning no repeated key at either level. JSON objects loaded by Python always are.
- Ties in uniform-cost search are broken by Python's tuple order: by node label, then by path. They are not broken by insertion order.
- The ghost results (`pushed`, `enqueued`, `settled`, `order`, `popped`) are proof devices. The source does not return them; the contracts tie them to the searches' stacks, queues and reachability.
- BreadthFirst.BfsPath: does not model the error messages printed at `bfs_search.py:29` and `bfs_search.py:32` when an endpoint is missing; it returns `None` without them, as the source does after printing.
