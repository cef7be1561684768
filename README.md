# graph: a verified model of the vertex/edge protocol and topological sort

This project models the core of the Go package `graph` (LuBingtan/graph) and its helper
package `simplestructure`, and proves properties of that model in Dafny.

- `wrappers.dfy` (`Wrappers`): `Option`. `None` stands for Go's `nil`.
- `vector.dfy` (`SimpleVectors`): the slice-backed `SimpleVector` as a class with a
  `seq<Option<T>>` field. Every method states its new contents exactly.
  - `Find` is a loop proved to return the first match.
  - `Insert` is modelled as written. It copies in the wrong direction; see Findings.
- `queue.dfy`, `stack.dfy` (`SimpleQueues`, `SimpleStacks`): the list-backed FIFO queue and
  LIFO stack, each as a class over a `seq<Option<T>>`, since Go lets a caller push `nil`.
  The pop-until-nil loops of the package's tests are proved to yield the values before the
  first pushed nil, in order (queue) or from the top down (stack). Everything from that nil
  on stays behind, less the nil itself.
- `edge.dfy` (`Edges`): the edge type tag, the caller-side edge value and the link record a
  vertex stores. It also holds the single-endpoint `AbstractEdge` struct with its setters
  and getters.
- `adjacency.dfy` (`Adjacency`): the adjacency protocol as pure functions over one vertex's
  `Side` (incident list, indegree, outdegree).
  - `AdjoinPair` is the whole recursive `Adjoin`, both vertices included.
  - `RemovePair` is the whole ping-pong of `RemoveAdjoin`.
  - The lemmas here are about links, counts and views.
- `vertex.dfy` (`Vertices`): the vertex as a class whose methods update its fields in
  place. `Adjoin` and `RemoveAdjoin` are recursive methods, each proved to have exactly the
  effect of its pure counterpart.
- `graph.dfy` (`Graphs`): the graph as a class holding a name-keyed map of vertex objects.
  - Each operation checks membership by name, then delegates to the vertex.
  - `RemoveVertex` loops over the map in an unspecified order. It is proved to detach the
    vertex from every other vertex. Every other vertex ends with its old list less exactly
    its links to the removed vertex, in the same order.
  - Health is kept as follows. SetEdge keeps it on every call. RemoveVertex, InsertEdge
    and RemoveEdge keep it when called with the stored vertex objects (RemoveEdge with two
    distinct ones). InsertVertex and SetVertex keep it when the vertex they store is itself
    anchored and mirrored with the stored ones. Healthy means three things:
    - every incident list holds only links anchored at its own vertex;
    - any two vertices hold equally many links to each other (mirror symmetry);
    - between two vertices there is at most one link on each side, and the two links' types
      are reversed, forward against backward and undirected against undirected (the typed
      mirror).
- `undirected_graph.dfy`, `directed_graph.dfy`: the two `UndirectedGraph` types.
  - The first refuses non-undirected edges.
  - The second, in `directed_graph.go`, overwrites the caller's edge type instead. It is
    modelled as `ForcedUndirectedGraphs` so that the two Go types sharing a name stay apart.
- `kahn.dfy` (`Kahn`): the graph as `TopoSort` sees it. This is a value with names, cached
  indegrees and the names each vertex's backward/undirected edges lead to. The module holds
  the theory of Kahn's algorithm over that value:
  - the invariant `Progress` between steps;
  - what is released at the end;
  - predecessors come first;
  - a short result if and only if the graph has a cycle. This needs the cached indegrees to
    be exact.
- `shape.dfy` (`Shapes`): that value read off the graph's heap. It also proves that the
  cached indegrees are exact on a sound graph: keyed by name, healthy, closed (every link
  joins two stored vertices) and with counters matching the lists.
- `algorithms.dfy` (`Algorithms`): `TopoSort` and `IsAcyclic` as imperative methods over
  the graph's heap. Each of their loops is a method proved against `Kahn.Progress` or,
  for the first loop (`StartCounters`), against `Kahn.Initial`.

A vertex's id is its name throughout. `graph.go` keys the map by `Id()` and
`directed_graph.go` by `Name()`; `vertex.go` defines only `Name()`.

The comment on `RemoveAdjoin` (graph/vertex.go:165-169) names only the forward and backward
cases. Elsewhere the source counts an undirected link on both sides: `Adjoin` raises both
`indegree` and `outdegree` for it (graph/vertex.go:124-126), and both `EdgesForward` and
`EdgesBackward` list it (graph/vertex.go:231-258). The removal code (graph/vertex.go:184-188)
lowers only `outdegree` for an undirected link, so the counters and the views drift apart.
The model follows the code, and the consequence is stated (`RemoveStepUndirectedLeavesIndegree`
and Findings). For that reason the degree-consistency invariant is proved to survive
`RemoveVertex` only on graphs without undirected links (`AllConsistent`).

## Model

| member | source | states |
|---|---|---|
| SimpleVectors.RemoveAt | simplestructure/vector.go:86 | cutting slot `i` out shortens by one, keeps the prefix, shifts the tail left, and loses exactly `s[i]` from the multiset |
| SimpleVectors.InsertedAt | simplestructure/vector.go:48-58 | the evidently intended insertion: `x` at `i`, the prefix kept, everything from `i` one slot right, multiset grows by exactly `x` |
| SimpleVectors.RemoveUndoesInsert | simplestructure/vector.go:48-88 | removing the slot just inserted gives the original sequence back (round trip) |
| SimpleVectors.InsertAsWrittenShape | simplestructure/vector.go:55-57 | Insert as written grows by one slot but, unless `next` is the end, drops the element at `next` and pads the end with nil |
| SimpleVectors.InsertAsWrittenLosesElements | simplestructure/vector.go:48-58 | inserting 9 at 1 into [1,2,3] gives [1,9,nil,nil], and Remove(1) does not restore [1,2,3] |
| SimpleVectors.SimpleVector.constructor | simplestructure/vector.go:36-39 | a new vector is empty |
| SimpleVectors.SimpleVector.Pushback | simplestructure/vector.go:41-46 | appends exactly one slot at the end |
| SimpleVectors.SimpleVector.Insert | simplestructure/vector.go:48-58 | negative index changes nothing; otherwise the contents become the as-written insertion |
| SimpleVectors.SimpleVector.InsertShifting | simplestructure/vector.go:48-58 | corrected Insert: negative index changes nothing; otherwise a true insertion at `next` |
| SimpleVectors.SimpleVector.Replace | simplestructure/vector.go:60-71 | error exactly when the index is out of range, and then nothing changes; otherwise only slot `index` becomes `v` |
| SimpleVectors.SimpleVector.Remove | simplestructure/vector.go:73-89 | out of range gives nil and no change; otherwise returns the slot and the contents lose exactly that slot |
| SimpleVectors.SimpleVector.Popback | simplestructure/vector.go:91-93 | empty gives nil; otherwise returns the last slot and drops it |
| SimpleVectors.SimpleVector.Popfront | simplestructure/vector.go:95-97 | empty gives nil; otherwise returns the first slot and drops it |
| SimpleVectors.SimpleVector.At | simplestructure/vector.go:99-112 | the slot at an in-range index, nil otherwise |
| SimpleVectors.SimpleVector.Find | simplestructure/vector.go:114-122 | the index of the first slot equal to `v`, or -1 exactly when no slot is |
| SimpleVectors.SimpleVector.Len | simplestructure/vector.go:124-129 | the number of slots |
| SimpleVectors.SimpleVector.Data | simplestructure/vector.go:131-136 | the slots in order |
| SimpleVectors.VectorScenario | simplestructure/vector_test.go:15-33 | push 0..4, Popback gives 4, Popfront gives 0, Remove(3) of three slots gives nil, [1,2,3] remain |
| SimpleQueues.SimpleQueue.constructor | simplestructure/queue.go:27-35 | a new queue is empty |
| SimpleQueues.SimpleQueue.Pushback | simplestructure/queue.go:37-42 | appends at the back |
| SimpleQueues.SimpleQueue.Popfront | simplestructure/queue.go:44-53 | empty gives nil and no change; otherwise the oldest element is removed and returned |
| SimpleQueues.SimpleQueue.Size | simplestructure/queue.go:55-60 | the number of elements |
| Wrappers.FirstNil | simplestructure/queue_test.go:11-17 | the position where a pop-until-nil loop stops: every element before it is present, and the element there is nil |
| Wrappers.UntilNil | simplestructure/queue_test.go:11-17 | the values in front of the first nil, as many as its position, element `i` being the `i`-th slot's value |
| SimpleQueues.Drain | simplestructure/queue_test.go:11-17 | popping until nil yields the values in front of the first nil in pushed order (FIFO); that nil is consumed and everything pushed after it stays queued |
| SimpleQueues.QueueScenario | simplestructure/queue_test.go:5-18 | push 0, 1, 2 then drain: pops 0, 1, 2 and leaves size 0 |
| SimpleQueues.QueueNilScenario | simplestructure/queue.go:37-53 | push 0, nil, 2 then drain: only 0 comes out and size 1 is left, because Popfront hands back the pushed nil |
| SimpleStacks.Reverse | simplestructure/stack.go:37-47 | the order in which a stack gives elements back: same length, element `i` is element `n-1-i` |
| SimpleStacks.SimpleStack.constructor | simplestructure/stack.go:19-27 | a new stack is empty |
| SimpleStacks.SimpleStack.Pushback | simplestructure/stack.go:29-35 | pushes on top |
| SimpleStacks.SimpleStack.Popback | simplestructure/stack.go:37-47 | empty gives nil and no change; otherwise the most recent element is removed and returned |
| SimpleStacks.SimpleStack.Size | simplestructure/stack.go:49-51 | the number of elements |
| SimpleStacks.TopValues | simplestructure/stack_test.go:11-17 | the values above the topmost nil, top first: element `i` is slot `n-1-i`, and the slot below them is nil unless the stack ran out |
| SimpleStacks.TopValuesReversed | simplestructure/stack_test.go:11-17 | popping from the top until nil sees the same values as reading the reversed stack from the front until nil (LIFO) |
| SimpleStacks.Drain | simplestructure/stack_test.go:11-17 | popping until nil yields the values above the topmost nil, most recent first; that nil is consumed and everything below it stays on the stack |
| SimpleStacks.StackScenario | simplestructure/stack_test.go:5-18 | push 0, 1, 2 then drain: pops 2, 1, 0 and leaves size 0 |
| SimpleStacks.StackNilScenario | simplestructure/stack.go:29-47 | push 0, nil, 2 then drain: only 2 comes out and size 1 is left, because Popback hands back the pushed nil |
| Edges.Reversed | graph/vertex.go:114-131 | the mirror type: known types map to known types, with incoming and outgoing swapped (forward and backward exchange, undirected stays) |
| Edges.Edge.Mirror | graph/vertex.go:139-140 | the mirror edge keeps the weight and has incoming and outgoing swapped |
| Edges.AbstractEdge.constructor | graph/edge.go:41-43 | NewEdge: every field at its zero value |
| Edges.AbstractEdge.SetType | graph/edge.go:45-47 | sets the type, other fields unchanged |
| Edges.AbstractEdge.SetWeight | graph/edge.go:49-51 | sets the weight, other fields unchanged |
| Edges.AbstractEdge.SetState | graph/edge.go:53-55 | sets the state, other fields unchanged |
| Edges.AbstractEdge.SetVertex | graph/edge.go:69-71 | sets the vertex, other fields unchanged |
| Edges.AbstractEdge.Type | graph/edge.go:57-59 | returns the stored type |
| Edges.AbstractEdge.Weight | graph/edge.go:61-63 | returns the stored weight |
| Edges.AbstractEdge.State | graph/edge.go:65-67 | returns the stored state |
| Edges.AbstractEdge.Vertex | graph/edge.go:73-75 | returns the stored vertex |
| Edges.EdgeAccessors | graph/edge.go:41-75 | a fresh edge reads back zero values; each getter returns what its setter last stored, whatever the other setters did |
| Adjacency.View | graph/vertex.go:231-258 | a filtered view is no longer than the list and holds only links of the selected types |
| Adjacency.ViewMembers | graph/vertex.go:231-258 | a link is in a view exactly when it is in the list and its type is selected (both directions) |
| Adjacency.FirstTouching | graph/vertex.go:207-214 | the first index of a link touching `u`, or -1 exactly when no link does |
| Adjacency.FirstTouchingCount | graph/vertex.go:199-215 | FindAdjoin's -1 means the number of links touching `u` is zero, and conversely |
| Adjacency.RemoveAtCount | graph/vertex.go:179-181 | removing a link lowers the count toward `u` by one if it touches `u`, and keeps it otherwise |
| Adjacency.RemoveAtView | graph/vertex.go:181-188 | removing a link shrinks a view by one exactly when the view selects its type |
| Adjacency.AttachFacts | graph/vertex.go:115-135 | Adjoin's own step appends exactly one link of the given type and weight toward the other vertex, and raises counts only for the two endpoints |
| Adjacency.AttachKeepsDegrees | graph/vertex.go:115-135 | the counter updates of each case match the link pushed: degree consistency is kept |
| Adjacency.AttachKeepsAnchored | graph/vertex.go:115-131 | the endpoints Adjoin sets make the new link anchored at its vertex |
| Adjacency.AdjoinLinksBoth | graph/vertex.go:109-143 | adjoining two unlinked vertices succeeds and appends one link on each side: the edge and its mirror, reversed type, same weight, each side now adjoined to the other exactly once |
| Adjacency.AdjoinIdempotent | graph/vertex.go:109-112 | once an Adjoin succeeded, a second Adjoin of the same pair, with any edge, returns no error and changes nothing |
| Adjacency.AdjoinKeepsDegrees | graph/vertex.go:109-143 | Adjoin keeps degree consistency on both vertices, whatever the outcome |
| Adjacency.AdjoinKeepsAnchored | graph/vertex.go:109-143 | Adjoin keeps both incident lists anchored |
| Adjacency.AdjoinKeepsSymmetry | graph/vertex.go:109-143 | Adjoin keeps mirror symmetry between the two vertices and their counts toward every third vertex |
| Adjacency.AdjoinUndirectedRaisesBoth | graph/vertex.go:124-128 | an undirected Adjoin between unlinked vertices raises both counters of both vertices by one |
| Adjacency.RemoveStepDirectedKeepsDegrees | graph/vertex.go:179-188 | removing a forward or backward link keeps degree consistency |
| Adjacency.RemoveStepUndirectedLeavesIndegree | graph/vertex.go:184-188 | removing an undirected link leaves `indegree` one above the forward view (as written) |
| Adjacency.RemoveStepBalancedKeepsDegrees | graph/vertex.go:165-188 | with the counter update mirroring Adjoin's, removing any link keeps degree consistency (corrected) |
| Adjacency.RemoveStepKeepsShape | graph/vertex.go:179-188 | a removal step keeps the list anchored and keeps it free of undirected links |
| Adjacency.RemovePairCounts | graph/vertex.go:170-194 | RemoveAdjoin's alternation with `a` links one way and `b` back ends at (0, b-a) or (a-b-1, 0), keeps anchoring and leaves counts toward third vertices alone |
| Adjacency.RemovePairSevers | graph/vertex.go:170-194 | under mirror symmetry RemoveAdjoin leaves no link between the two vertices, on either side |
| Adjacency.RemovePairSingle | graph/vertex.go:170-194 | for one edge and its mirror, RemoveAdjoin removes exactly the first touching link on each side |
| Adjacency.RemovePairDirectedKeepsDegrees | graph/vertex.go:170-194 | on lists without undirected links RemoveAdjoin keeps degree consistency on both vertices |
| Adjacency.SetWeightKeeps | graph/vertex.go:148-163 | SetEdge changes one link's weight only: types, endpoints, counts, the types toward every vertex, degree consistency and anchoring are kept |
| Adjacency.KindsToward | graph/vertex.go:207-212 | the types of the links touching `u`, one per link FindAdjoin's test matches |
| Adjacency.AttachKinds | graph/vertex.go:115-135 | Adjoin's own step adds the new type to the types toward each of the link's two endpoints and leaves the types toward every other vertex alone |
| Adjacency.AdjoinKeepsTyped | graph/vertex.go:109-143 | Adjoin keeps the typed mirror between the two vertices (a fresh pair gains the edge and its reversed mirror, a linked pair is left alone) and the types toward every third vertex |
| Adjacency.Without | graph/vertex.go:170-194 | the list less its links touching `u`: shorter by exactly the count toward `u` |
| Adjacency.WithoutCount | graph/vertex.go:170-194 | after pruning nothing touches `u`, and pruning again changes nothing |
| Adjacency.WithoutRemoveTouching | graph/vertex.go:179-181 | removing one link that touches `u` does not change the pruned list |
| Adjacency.WithoutKinds | graph/vertex.go:170-194 | on an anchored list, pruning the links toward `u` keeps the types toward every other vertex |
| Adjacency.RemovePairWithout | graph/vertex.go:170-194 | with as many links one way as back, or one more, RemoveAdjoin leaves each list exactly as itself less its links to the other vertex, in order |
| Adjacency.SelfAdjoinNeverStops | graph/vertex.go:109-143 | Adjoin of a vertex with itself, as written: at every depth FindAdjoin still reports -1, the list has grown by one self-link per call, and the list is no longer anchored |
| Adjacency.AdjoinCheckedKeepsShape | graph/vertex.go:198-205 | with self-adjoin refused (the intent of FindAdjoin's self case), Adjoin keeps anchoring and degree consistency for every pair of arguments, and refuses exactly the self-adjoin |
| Vertices.Vertex.constructor | graph/vertex.go:70-75 | NewVertex: given name and payload, no edges, both degrees 0, consistent |
| Vertices.Vertex.Copy | graph/vertex.go:297-302 | a fresh vertex with the same name and payload, no edges and zero degrees |
| Vertices.Vertex.FindAdjoin | graph/vertex.go:199-215 | -1 for the vertex itself; otherwise the first link touching `vi`, or -1 exactly when none does |
| Vertices.Vertex.Adjoin | graph/vertex.go:109-143 | the recursive Adjoin has exactly the effect `AdjoinPair` describes on both vertices, and keeps both names and payloads |
| Vertices.Vertex.SetEdge | graph/vertex.go:148-163 | not adjoined gives an error and no change; otherwise only the weight of the first touching link changes |
| Vertices.Vertex.RemoveAdjoin | graph/vertex.go:170-194 | the recursive RemoveAdjoin has exactly the effect `RemovePair` describes, and does nothing when asked to remove itself |
| Vertices.Vertex.Edges | graph/vertex.go:218-228 | the incident list in order |
| Vertices.Vertex.EdgesForward | graph/vertex.go:231-243 | the forward and undirected links in order, as many as `indegree` when the counters are consistent |
| Vertices.Vertex.EdgesBackward | graph/vertex.go:246-258 | the backward and undirected links in order, as many as `outdegree` when the counters are consistent |
| Vertices.Vertex.Indegree | graph/vertex.go:261-266 | the cached counter, equal to the forward view's length when consistent |
| Vertices.Vertex.Outdegree | graph/vertex.go:269-274 | the cached counter, equal to the backward view's length when consistent |
| Vertices.AdjoinScenario | graph/vertex.go:109-194 | on two fresh vertices a backward Adjoin gives one link each, forward mirror of weight 5, counters 1; a second Adjoin changes nothing; RemoveAdjoin empties both and restores zero counters |
| Graphs.SeverPairFacts | graph/graph.go:139-140 | one pass of RemoveVertex's loop keeps anchoring and third-party counts; under equal counts each list loses exactly its links to the other vertex; consistency of directed-only lists is kept |
| Graphs.Sever | graph/graph.go:139-140 | the two RemoveAdjoin calls of one pass change only `v` and `src`, exactly as `SeverPair` says |
| Graphs.Visit | graph/graph.go:139-140 | one pass carries the severing invariant forward by one visited vertex and keeps directed-only consistency |
| Graphs.SeverFromAll | graph/graph.go:138-141 | after the loop over the map, in whatever order, every stored vertex has been severed from `v` |
| Graphs.SeveredFacts | graph/graph.go:137-143 | once every vertex was visited, the lists are anchored and mirrored, `v` is detached, every other vertex holds its old list less exactly its links to `v`, and the typed mirror holds if it held before |
| Graphs.DetachFromAll | graph/graph.go:138-141 | on an anchored, mirrored set holding `v`, the loop detaches `v` from all, every other vertex loses exactly its links to `v`, the typed mirror is kept, and directed-only consistency survives |
| Graphs.ListsHealthy | graph/graph.go:137-143 | anchoring and both mirror invariants read the same on the vertices and on a snapshot of their lists |
| Graphs.HealthySubset | graph/graph.go:142 | deleting a key keeps anchoring, mirror symmetry and the typed mirror among the rest |
| Graphs.RemovePairHealthy | graph/graph.go:155 | replacing two vertices by RemoveAdjoin's result keeps anchoring and mirror symmetry of the set and leaves no link between the two |
| Graphs.SnapTyped | graph/graph.go:81-93 | the typed mirror reads the same on the vertices and on a snapshot of their states |
| Graphs.PairStepTyped | graph/graph.go:81-93 | a step that changes two vertices keeps the typed mirror when the pair is typed-mirrored afterwards and the types toward every third vertex are kept |
| Graphs.AdjoinPairTyped | graph/graph.go:90 | replacing two vertices by Adjoin's result keeps the typed mirror of the whole set |
| Graphs.RemovePairTyped | graph/graph.go:155 | replacing two vertices by RemoveAdjoin's result keeps the typed mirror of the whole set, and each of the two loses exactly its links to the other |
| Graphs.Join | graph/graph.go:90 | `src.Adjoin(dst, e)` inside a graph: the effect of `AdjoinPair`; anchoring, mirror symmetry and the typed mirror of the set are kept |
| Graphs.Unjoin | graph/graph.go:155 | `src.RemoveAdjoin(dst)` inside a graph: the effect of `RemovePair`; on a healthy set it stays healthy, typed mirror included, and each of the two loses exactly its links to the other |
| Graphs.AbstractGraph.constructor | graph/graph.go:42-47 | NewGraph: the given name, no vertices, healthy |
| Graphs.AbstractGraph.InsertVertex | graph/graph.go:70-78 | a duplicate name is an error with no change; otherwise exactly that key is added; keying by name is kept, and health when the new vertex is anchored and mirrored with the stored ones |
| Graphs.AbstractGraph.InsertEdge | graph/graph.go:81-93 | a missing src, then a missing dst, is an error with no change; otherwise no error and the effect of `AdjoinPair`; health is kept when called with the stored vertex objects |
| Graphs.AbstractGraph.GetVertex | graph/graph.go:96-103 | nil exactly when the id is not a key; otherwise the stored vertex, whose name is the id |
| Graphs.AbstractGraph.SetVertex | graph/graph.go:111-119 | a missing name is an error with no change; otherwise the object under that name is replaced and the key set is unchanged; health is kept when the new object is anchored and mirrored with the stored ones |
| Graphs.AbstractGraph.SetEdge | graph/graph.go:122-134 | the two existence checks; then only the weight of the first link toward `dst` changes, and health is kept |
| Graphs.AbstractGraph.RemoveVertex | graph/graph.go:137-143 | the key is deleted; on a healthy graph holding `v`, `v` is detached from every other vertex, every other vertex holds its old list less exactly its links to `v`, and the graph stays healthy |
| Graphs.AbstractGraph.RemoveEdge | graph/graph.go:146-158 | the two existence checks; then the effect of `RemovePair`; on a healthy graph, when called with two distinct stored vertex objects, health is kept and no link is left between the two |
| UndirectedGraphs.UndirectedGraph.constructor | graph/undirected_graph.go:15-19 | a new undirected graph has the given name and no vertices |
| UndirectedGraphs.UndirectedGraph.InsertEdge | graph/undirected_graph.go:21-26 | a non-undirected type is an error with no change; otherwise the base checks decide; a fresh pair gains one undirected link on each side and both counters of both rise by one |
| ForcedUndirectedGraphs.UndirectedGraph.constructor | graph/directed_graph.go:14-16 | stands for the struct literal `UndirectedGraph{NewGraph(name)}` (the file has no constructor, and the zero value's nil map would make InsertVertex panic): the embedded graph starts with the given name and no vertices |
| ForcedUndirectedGraphs.UndirectedGraph.InsertEdge | graph/directed_graph.go:19-34 | a missing name is an error with no change; otherwise the caller's edge is retyped undirected and Adjoin runs; it fails exactly when a name is missing |
| Kahn.OccAdj | graph/algorithms.go:54-56 | a name has an edge to another exactly when it lists it among its targets |
| Kahn.DecsIsInFrom | graph/algorithms.go:55-57 | the decrements a name receives from a sequence of distinct names equal the edges into it from that set |
| Kahn.DistinctBound | graph/algorithms.go:51 | a repetition-free list of stored names is no longer than the store, and one as long covers it |
| Kahn.Seeded | graph/algorithms.go:37-41 | queuing exactly the names whose counter is 0 establishes the invariant of the main loop |
| Kahn.SeedOrdered | graph/algorithms.go:37-41 | a name with exact indegree 0 may be queued at any point without breaking predecessors-first |
| Kahn.DecrementQueues | graph/algorithms.go:57-60 | decrementing a counter that was 1 keeps the invariant with the target queued |
| Kahn.DecrementKeeps | graph/algorithms.go:57-58 | decrementing any other counter keeps the invariant with nothing queued |
| Kahn.FinishVertex | graph/algorithms.go:55-62 | once all targets of a name are handled, its edges count as done |
| Kahn.FinalReleased | graph/algorithms.go:44-49 | when the queue runs dry, the names emitted are exactly the stored names with 0 <= cached indegree <= edges from emitted names |
| Kahn.StuckMeansCycle | graph/algorithms.go:24-25 | a run that emits fewer names than are stored, under exact indegrees, implies a cycle |
| Kahn.CycleMeansIncomplete | graph/algorithms.go:24-25 | a predecessors-first list without repetitions cannot cover a graph with a cycle |
| Kahn.KahnVerdict | graph/algorithms.go:24-25 | under exact indegrees the result is short exactly when the graph has a cycle |
| Kahn.Outcome | graph/algorithms.go:44-65 | at the end: no more names than stored, exactly the released names, predecessors first and the cycle verdict under exact indegrees |
| Shapes.TargetNames | graph/algorithms.go:53-56 | the names of the vertices the links point to, one per link, in order |
| Shapes.Shape | graph/algorithms.go:31-33 | the graph's value view has the stored names, each vertex's Indegree() and the names its EdgesBackward lead to |
| Shapes.ShapeDetermined | graph/algorithms.go:31-33 | the indegree and target facts TopoSort reports about its graph view determine it: it is the view of the graph |
| Shapes.CountToSplit | graph/algorithms.go:53-58 | counting a vertex's links by their far end splits over the far ends |
| Shapes.ViewCountKinds | graph/vertex.go:231-258 | on an anchored list, the links of a view leading to `u` are the links toward `u` whose type the view selects |
| Shapes.MirrorSelected | graph/vertex.go:114-142 | under the typed mirror, one side's outgoing links to the other match the other side's incoming links back |
| Shapes.TargetNamesCount | graph/algorithms.go:53-56 | among links leading to stored vertices with distinct names, a name occurs in TargetNames once per link to its vertex |
| Shapes.OccIsCountTo | graph/algorithms.go:53-58 | on a sound graph, the edges TopoSort follows from `p` to `v` are the incoming links `v` holds toward `p`'s vertex |
| Shapes.InFromCounts | graph/algorithms.go:53-58 | summing those edges over a set of names counts the incoming links toward all their vertices |
| Shapes.IndegreeIsInFrom | graph/algorithms.go:31-33 | on a sound graph each cached Indegree() is the number of edges TopoSort follows into the vertex |
| Shapes.HealthyExact | graph/algorithms.go:24-25 | a sound graph (keyed by name, healthy, closed, counters matching) has exact indegrees, the condition of TopoSort's order and cycle verdict |
| Algorithms.StartCounters | graph/algorithms.go:31-34 | the first loop gives each stored name its cached indegree and no other name a counter |
| Algorithms.SeedQueue | graph/algorithms.go:37-41 | the second loop queues each name with counter 0, once, in some order, and establishes the main loop's invariant |
| Algorithms.Relax | graph/algorithms.go:55-62 | the inner loop decrements each target once per edge and queues, at its end, exactly the targets whose counter reached 0; the invariant is kept |
| Algorithms.VisitNext | graph/algorithms.go:46-62 | one round: the queue head's vertex is emitted and its edges relaxed; the emitted vertices are those of the first n+1 names |
| Algorithms.Release | graph/algorithms.go:44-63 | the main loop ends with the queue empty, every queued name emitted once, in queue order, with its stored vertex |
| Algorithms.TopoSort | graph/algorithms.go:26-66 | no error; each stored vertex at most once; exactly the released vertices; predecessors first and short exactly on a cycle when indegrees are exact, which they are on a sound graph |
| Algorithms.IsAcyclic | graph/algorithms.go:11-22 | accepts exactly when every stored name is sorted, and, on a sound graph or whenever the cached indegrees are exact, exactly when the graph has no cycle |

## Left out

- Locking: every `sync.Mutex`/`RWMutex` is left out. The model is sequential, so deadlock
  and interleavings are not modelled.
- Identity: `reflect.DeepEqual` on vertices (FindAdjoin, graph/vertex.go:203-209) and on
  vector slots (Find, simplestructure/vector.go:116) is modelled as reference or value
  equality. Two distinct vertex objects with equal fields are therefore different here.
- Map iteration: Go's unspecified map order (graph.go RemoveVertex, algorithms.go
  TopoSort) is modelled by picking an arbitrary remaining key. The proved results hold
  for every order.
- Edge objects: vertex.go stores the caller's edge object and copies it for the mirror.
  The model stores edge values, so later mutation of the caller's edge object through
  another alias is not modelled.
- Accessors: SetName, SetData, Name and Data of the vertex, and SetName, Name, SetType,
  Type and Verteces of the graph, are plain field reads and writes and are not modelled.
- Free functions `Adjoin`, `RemoveAdjoin`, `BFSVertex` and `DFSVertex`: graph/vertex_test.go
  calls them (lines 27-60), but their source is not part of this model. The only
  package-level function of graph/vertex.go, `NewVertex`, is modelled as the constructor.
- Error values: Go's `fmt.Errorf` strings become datatype constructors. Their text is not
  modelled.
- Vertices.Vertex.Adjoin: requires the two vertices to differ. Adjoin of a vertex with
  itself recurses without end in the source (see Findings, `Adjacency.SelfAdjoinNeverStops`),
  so the recursive method cannot be given a terminating model for that input. The
  corrected `Adjacency.AdjoinChecked` refuses it instead. The graph InsertEdge methods pass
  the requirement on.
- Graphs.AbstractGraph.InsertEdge: its requirement that `src` and `dst` differ comes from
  Adjoin's, for the same reason.
- ForcedUndirectedGraphs.UndirectedGraph.InsertEdge: the contract says nothing about the
  endpoint of the caller's edge object. Adjoin calls a two-argument `SetVertex(from, to)`
  on it (graph/vertex.go:118, 122, 127), but the edge struct of graph/edge.go:69-71 has only
  a single-vertex setter, so that call has no counterpart in the modelled edge.
- Graphs.AbstractGraph.RemoveVertex: degree consistency is proved to survive only for
  graphs without undirected links, because RemoveAdjoin as written does not keep it for
  undirected ones.
- Graphs.AbstractGraph.InsertVertex: health after the insert is promised only when the
  new vertex is itself anchored and mirrored with the stored ones. The source does not
  check this.
- Graphs.AbstractGraph.SetVertex: health after the replacement is promised only when the
  new object is itself anchored and mirrored with the stored ones. The source does not
  check this, and a replacement holding a link the stored vertices do not mirror breaks
  mirror symmetry.
- Graphs.AbstractGraph.InsertEdge, Graphs.AbstractGraph.RemoveEdge,
  Graphs.AbstractGraph.RemoveVertex: health is promised only when the vertices passed in
  are the stored objects. The map lookup is by name, so a
  different object carrying a stored name passes the checks and is changed instead.
- Algorithms.TopoSort: the predecessors-first order and the cycle verdict are proved under
  `Exact`. `Exact` means every cached indegree equals the number of backward/undirected
  edges that point at the vertex. `Exact` is derived for sound graphs (`Shapes.HealthyExact`).
  Soundness also asks that the graph be closed and that its counters match its lists. The
  mutators are not proved to keep closure. Degree consistency is proved to survive
  RemoveVertex only without undirected links (see the RemoveVertex line above).
- Algorithms.TopoSort: the queue is a local `seq<string>`. Appending and taking the head
  are exactly what `SimpleQueues.SimpleQueue.Pushback` and `Popfront` are proved to do.
- Algorithms.TopoSort: the source calls GetVertex twice per name (graph/algorithms.go:51
  and 53). The model calls it once, since the two calls return the same vertex.
- Algorithms.IsAcyclic: TopoSort never returns an error, so the early return on
  graph/algorithms.go:13-15 cannot happen and is not modelled.
- Nil: a nil vertex or a nil edge argument would make the Go code panic. References here
  are never null.
- SimpleVectors.SimpleVector.Insert: requires `next <= Len()`. A larger index makes Go's
  slicing panic.

## Findings

| source | as written | input that shows it | evidently intended | confidence | as-written member | corrected member |
|---|---|---|---|---|---|---|
| simplestructure/vector.go:55-57 | `copy(data[next:], data[next+1:])` shifts the tail LEFT over the element at `next` after growing the slice | Insert(9, 1) on [1, 2, 3] gives [1, 9, nil, nil] | `copy(data[next+1:], data[next:])`: [1, 9, 2, 3], which Remove(1) undoes | high, not executed | SimpleVectors.InsertAsWrittenLosesElements | SimpleVectors.RemoveUndoesInsert |
| graph/vertex.go:184-188 | removing an undirected link lowers only `outdegree`, though Adjoin (graph/vertex.go:124-126) raised both counters | an undirected link adjoined on a fresh vertex, then removed: no links left but `indegree` stays 1 | lower `indegree` for forward and undirected links and `outdegree` for backward and undirected ones | high, not executed | Adjacency.RemoveStepUndirectedLeavesIndegree | Adjacency.RemoveStepBalancedKeepsDegrees |
| graph/vertex.go:199-205 | FindAdjoin returns -1 when asked about the vertex itself, so `Adjoin` (graph/vertex.go:110) of a vertex with itself never takes the early return: it pushes a self-link and calls itself again with the mirror, without end | `InsertEdge(a, a, e)` on a graph storing `a`, with any known edge type | refuse a vertex as its own neighbour before anything changes | high, not executed | Adjacency.SelfAdjoinNeverStops | Adjacency.AdjoinCheckedKeepsShape |
