# Dijkstra's shortest paths over an indexed binary min-heap

This project models HalfMandu/Dijkstras in Dafny. Two parts are modelled:

- the indexed min-heap of `MinHeap.js`. It is an array of `(vert, dist)` nodes, a `size` counter, and the `vertLocs` map from each vertex to its slot.
- the adjacency-list `Graph` and the shortest-path loop `Dijkstra.dijkstras` of `dijkstras.js`, from heap seeding up to the result printing.

The model is a set of immutable values. `MinHeap.Heap(nodes, size, locs)` stands for the heap object. Each heap method becomes a function or a method that returns the new heap. A JavaScript `TypeError` from reading `undefined` becomes an `Err` result: extracting from an empty array, or looking up a vertex with no slot. Distances are `Fin(n)` or `Inf`. `Inf` stands for `Number.MAX_VALUE`, and `Inf + w` stays `Inf`, just as `MAX_VALUE + w` rounds back to `MAX_VALUE`.

Files:

- `types.dfy`: vertices, distances, `Option`, `Result`.
- `min_heap.dfy` (module `MinHeap`): heap validity, `Swap`, `BubbleUp`, `BubbleDown`, `ExtractMin`, `DecreaseKey`, `IsEmpty`.
- `graph.dfy` (module `Graphs`): `AddVertex` and `AddEdge`, walks and their weights, and the theory of shortest distances.
- `dijkstra.dfy` (module `Dijkstra`): seeding, edge relaxation, and the main loop with its correctness proof.
- `examples.dfy` (module `Scenarios`): concrete runs on the graph drawn at the top of `dijkstras.js` and on two small graphs.

The heap is not a general-purpose priority queue:

- `insertHeapNode` appends and never bubbles up. This is sound only because seeding inserts every vertex with the same key. Keys {5, 3, 8, 1, 4} inserted in that order leave 5 at the root, so extraction does not yield 1, 3, 4, 5, 8.
- `decreaseKey` does not check that the new key is lower.

The model follows the code in both respects. It proves that the relaxation loop only ever calls `decreaseKey` with a strictly lower key for a vertex still in the heap.

## Model

| member | source | states |
|---|---|---|
| MinHeap.Parent | MinHeap.js:38 | The root has no parent; any other slot's parent is a smaller slot whose left or right child it is |
| MinHeap.RootIsMin | MinHeap.js:86-88 | In a heap-ordered array, slot 0 holds a distance no larger than that of any slot |
| MinHeap.Empty | MinHeap.js:9-13 | A new heap is valid and holds no vertices |
| MinHeap.InsertValidIff | MinHeap.js:16-22 | Since insert never bubbles up, it keeps a valid heap valid exactly when the vertex is new and its key is not below the key of its parent slot |
| MinHeap.Swap | MinHeap.js:25-33 | Exactly slots i and j are exchanged and every other slot is kept. The vertex from slot i is recorded at j, and the vertex from slot j at i unless it is the same vertex, whatever the slot map held before. No other vertex's slot entry changes. The nodes form the same multiset and index consistency is preserved |
| MinHeap.BubbleUp | MinHeap.js:36-50 | Keeps the multiset of nodes, the length, size and index consistency. It restores heap order when the only possible violation is between the start slot and its parent, and that parent is no greater than the start slot's children. Slots of vertices no longer in the array are untouched. Starting at the root changes nothing |
| MinHeap.Smallest | MinHeap.js:64-74 | Picks the node or one of its children with a distance no larger than any of them. A child is picked only when strictly smaller, and the right child only when strictly smaller than the left, so ties go left |
| MinHeap.BubbleDown | MinHeap.js:53-83 | Keeps the multiset of nodes, the length, size and index consistency. It restores heap order when the only possible violation is between the start slot and its children, and the start slot's parent is no greater than those children. When no child is strictly smaller than the start slot, nothing changes |
| MinHeap.ExtractMin | MinHeap.js:86-95 | Fails exactly on an empty array and otherwise returns the old root with size one less. On a valid heap the root is minimal and its vertex keeps a stale slot 0. With two or more nodes the rest is a valid heap of exactly the other nodes. With one node the array is left unchanged. With two or more nodes, when the node moved to the root is no greater than its children, the result is exactly the popped array with that node's slot set to 0 |
| MinHeap.DecreaseKey | MinHeap.js:98-104 | Fails exactly when the vertex has no in-range slot. Otherwise it replaces one node's key and keeps the length and size. For a present vertex and a key that does not increase, the result is valid, with the vertex at the new key and every other node kept |
| MinHeap.IsEmpty | MinHeap.js:107-109 | Looks at the array length; on a valid heap this agrees with size being 0 |
| Graphs.Empty | dijkstras.js:94-97 | A new graph has no vertices and satisfies the graph invariant |
| Graphs.AddVertex | dijkstras.js:100-109 | A new vertex is appended to the insertion order with an empty edge list and returned. A present vertex yields None and leaves the graph unchanged. The graph invariant is preserved |
| Graphs.AddEdge | dijkstras.js:112-121 | Both endpoints become vertices, in that order if new. The new edge is prepended to the source's list. Every other list is unchanged. Every edge target stays a vertex |
| Graphs.LowerBound | dijkstras.js:71-72 | If no edge can be relaxed and the source is at 0, no walk from the source is lighter than the recorded distance of its end |
| Graphs.FeasibleOptimal | dijkstras.js:67-77 | A relaxation-closed distance map with the source at 0 is a lower bound on every walk |
| Graphs.ShortestUnique | dijkstras.js:37-78 | Two distance maps over the same keys that are both attained by walks and optimal are equal |
| Dijkstra.SeedAll | dijkstras.js:46-49 | Each vertex is inserted at MAX at its insertion-order slot, and the result is a valid heap over exactly the graph's vertices. Every vertex's distance is MAX |
| Dijkstra.Seed | dijkstras.js:46-54 | Seeding as written fails only on an empty graph. Slot 0 gets distance 0 whatever vertex sits there. The source is recorded at slot 0, and every other vertex keeps its insertion slot. The heap is valid and agrees with the distances exactly when the source is the first vertex inserted |
| Dijkstra.SeedFixed | dijkstras.js:46-54 | The corrected seeding fails exactly when the source is not a vertex. Otherwise the heap is valid, agrees with the distances, and holds every vertex, with the source at 0 and all others at MAX. For a first-vertex source it builds the as-written heap |
| Dijkstra.RelaxEdge | dijkstras.js:68-74 | After one edge the edge can no longer be relaxed and distances only decrease. Extracted vertices keep theirs. A change happens only for a vertex still in the heap with a strictly smaller candidate. The loop state is kept |
| Dijkstra.RelaxEdges | dijkstras.js:66-77 | After all out-edges of the extracted vertex, no out-edge of any extracted vertex can be relaxed. Distances only decreased and extracted vertices kept theirs |
| Dijkstra.ExtractNearest | dijkstras.js:60-63 | The extracted vertex was still in the heap, not extracted before, and no nearer than any extracted vertex. The heap shrinks by one and the loop state holds with it moved to the extracted set |
| Dijkstra.Step | dijkstras.js:59-77 | One iteration shrinks the heap by one and extracts a vertex that was still live. It keeps the loop invariant and never raises a distance. Every extracted vertex, the new one included, keeps its distance, so a distance is final once its vertex is extracted |
| Dijkstra.Run | dijkstras.js:37-78 | Every vertex is extracted exactly once, in non-decreasing order of final distance. The final distances are attained by walks and no walk is lighter. A vertex ends at MAX exactly when no walk from the source reaches it |
| Dijkstra.RunTwice | dijkstras.js:37-78 | Two runs from the same source on the same graph give the same distances |
| Scenarios.ExampleRun | dijkstras.js:5-14 | On Graph 1, built by adding its five edges in order, from vertex 1 the distances are {1:0, 2:1, 3:3, 4:6} and the vertices are extracted in the order 1, 2, 3, 4 |
| Scenarios.UnreachableRun | dijkstras.js:46-49 | A vertex with no walk from the source keeps MAX |
| Scenarios.SeedOtherStart | dijkstras.js:52-53 | As written, starting from the last vertex leaves the first vertex at the root with distance 0 while its recorded distance is MAX |
| Scenarios.AsWrittenFromThree | dijkstras.js:46-77 | As written from the last vertex, the run ends at {1:1, 2:MAX, 3:0}. Vertex 2 is reachable by a walk of weight 4, but the decrease meant for vertex 1 lands on vertex 2's node through vertex 1's stale slot |
| Scenarios.OtherStartRun | dijkstras.js:52-53 | With the corrected seeding, the same start yields the true distances {1:1, 2:4, 3:0} |
| Scenarios.DecreaseKeyScenario | MinHeap.js:98-104 | Lowering the last of three keys 10, 20, 30 to 5 brings that vertex to the root |
| Scenarios.InsertWithoutBubbleUp | MinHeap.js:16-22 | Inserting 5, 3, 8, 1, 4 leaves the first key, 5, at the root |
| Scenarios.ExtractLastNode | MinHeap.js:86-109 | Extracting the only node drops size to 0 but leaves the array at length 1, so isEmpty reports false |

## Left out

- `parseFile` (dijkstras.js:154-174) reads a file and coerces strings with `Number()`. This is input plumbing, so the model takes the graph as given.
- The driver, the hard-coded `destinations` report, console output and timing (dijkstras.js:80-86, 192-206) are left out, as is `printGraph` (dijkstras.js:124-130). They are output only.
- The `paths` object (dijkstras.js:42) is never written, so it is left out. The proof keeps its own ghost map of witness walks instead.
- `HeapNode` in dijkstras.js (dijkstras.js:134-141) is a duplicate that is never used. `MinHeap.Node` models the one in MinHeap.js.
- `Edge` is modelled as `Graphs.Edge(target, w)`. `tail` is the target and `dist` is the weight.
- LinkedList.js and Queue.js are not part of this model. An adjacency list is a `seq<Edge>` with the head first, and `insertAt(edge, 0)` is a prepend.
- `graphType` is only printed, so it is left out.
- The `explored` set (dijkstras.js:40, 63, 69-70) is left out. `explored[neighbor]` reads a property of a `Set` object, which is always undefined, so the guard never skips an edge, and nothing else reads the set.
- Weights and distances are natural numbers. The source holds them as floating-point `Number`s, and non-integral or negative weights are not represented. The source does not reject negative weights.
- Nodes are values, not shared objects. The source never keeps a reference to a `HeapNode` across a heap update.
- MinHeap.Insert has no contract of its own, because its body is its whole meaning. MinHeap.InsertValidIff states when it preserves validity.
- Dijkstra.Run requires `start` to be a vertex, and `Dijkstra.SeedFixed` reports any other start as `UnknownVertex`. In the source, a start that is not a vertex on a non-empty graph still runs. The first vertex gets key 0 in the heap but keeps `MAX` in `dists`. Every relaxation offers `MAX + w`, which is never smaller, so `decreaseKey` is never called. Every vertex ends at `MAX`, which is correct since nothing is reachable from a non-vertex, and `dists` gains an extra entry of 0 for `start`. The model does not reproduce that run.

## Findings

| source | as written | input that shows it | evidently intended | confidence | as-written member | corrected member |
|---|---|---|---|---|---|---|
| dijkstras.js:52-53 | Distance 0 is written into slot 0 and `vertLocs[start]` is set to 0, whatever vertex occupies slot 0 | The graph with edges 1→2 of weight 3 and 3→1 of weight 1, started from 3. Vertex 1 sits at the root with distance 0 while `dists[1]` is MAX. Vertex 3's node keeps MAX at slot 2. The run ends at {1:1, 2:MAX, 3:0}, although vertex 2 is at distance 4 | Give the start vertex's own node distance 0, as `decreaseKey(start, 0)` does | not executed | Scenarios.SeedOtherStart, Scenarios.AsWrittenFromThree | Dijkstra.SeedFixed |

`Dijkstra.Seed` models lines 46-54 as written. Its contract shows the seeded heap is consistent exactly when `start` is the first vertex inserted. `Dijkstra.SeedFixed` is the corrected seeding, and `Dijkstra.Run` uses it. For a first-vertex start the two build the same heap. The driver starts from vertex 1. `parseFile` adds vertices only through `addEdge` (dijkstras.js:167-169), so vertex 1 is the first vertex inserted exactly when the first line of the data file that has at least one edge is vertex 1's.
