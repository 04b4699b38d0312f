# A verified model of MyCITS2200Project

`MyCITS2200Project` is a small graph engine over labelled vertices (web-page URLs). It keeps
three things:

- a registry that gives each new label the next dense id;
- an adjacency store with one successor set per id;
- the tables of the searches.

It answers four queries:

- the hop count of a shortest path between two labels (breadth-first search);
- the centers of the graph (the vertices of least eccentricity);
- the strongly connected components (Tarjan's algorithm);
- a Hamiltonian path (a memoised search over vertex subsets).

This project models that class in Dafny. It keeps the class's own shape. `Project.MyCITS2200Project` is a
`class` with the source's fields:

- the label map and label list;
- the adjacency store;
- the vertex counter;
- the memo and successor tables;
- the `dfsOrderID`, `lowLink` and `onStack` arrays;
- the DFS stack, the component list and the DFS counter.

Its methods update these in place with the source's loops. A few ghost fields (`comps`,
`order`, `gray`) record what the proofs need.

Every method is proved against specification functions in separate modules:

- `Graphs`: walks, reachability, and `Dist`, the shortest hop count, or -1 when the target is
  unreachable.
- `Traversal`: the breadth-first search invariants, eccentricity and centers.
- `Hamiltonian`: `Succeeds`, the answer of the memoised search, and the read-back `Trace`.
- `Components`: what a decomposition into strongly connected components is.
- `Tarjan` and `TarjanSteps`: Tarjan's search as state steps over a value `TState`, with the
  invariant each step keeps.
- `Registry`: the label/id bijection.

Behaviour worth knowing, all taken from the code:

- `addEdge` registers unknown labels first. Adding an edge that is already present changes
  nothing.
- `getShortestPath` has three outcomes: an unknown label, no path, or the distance. The
  source signals the first two by exceptions; the model returns `Err(UnknownLabel)` and
  `Err(NoPath)`.
- The Hamiltonian search tests a successor `k` against the set that still contains `i`, not
  against the set without it. The answer is still exact:
  - `Succeeds(g, i, S)` holds exactly when a path through `S`, visiting each vertex once, starts
    at `i` (`Hamiltonian.SucceedsIffHamPath`, for every graph).
  - But with a self-loop the returned path can repeat a vertex
    (`Hamiltonian.SelfLoopRepeatsVertex`).
  - Without self-loops the returned path visits every vertex exactly once
    (`Hamiltonian.FirstPath`).
- `getHamiltonianPath` reads back the path of the first vertex, in id order, whose search succeeds.
- `getCenters` returns the centers in increasing id order. There is at least one exactly when
  the graph is not empty.

## Model

| member | source | states |
|---|---|---|
| Project.MyCITS2200Project.constructor | MyCITS2200Project.java:4-7 | the engine starts with no labels, no vertices and no edges, and the registry invariant holds |
| Project.MyCITS2200Project.addVert | MyCITS2200Project.java:14-22 | a known label keeps its id and nothing changes; an unknown label gets the next id (the old vertex count), is appended to the label list with an empty successor set, and the count grows by one; the label/id bijection is kept |
| Project.MyCITS2200Project.addEdge | MyCITS2200Project.java:29-33 | both labels are registered, urlFrom before urlTo: a new urlFrom gets the old vertex count as id and a new, different urlTo the id after it, old ids unchanged; the new adjacency is the old one padded with empty sets for the new ids plus the edge; re-adding an edge already present between known labels changes nothing |
| Project.MyCITS2200Project.RegisterBoth | MyCITS2200Project.java:30-31 | the two addVert calls, urlFrom first: both labels registered, old ids and labels kept; a new urlFrom gets the old vertex count as id, and a new urlTo (different from urlFrom) the next id after that; the adjacency only padded with empty sets, nothing changed when both labels were known |
| Project.MyCITS2200Project.Link | MyCITS2200Project.java:32 | the successor set of the start grows by the end, nothing else changes, and an edge already present leaves the graph as it was |
| Project.MyCITS2200Project.getDistances | MyCITS2200Project.java:40-65 | the returned array has one entry per vertex and is exactly the distance vector of the start: the shortest hop count, -1 exactly where the vertex is unreachable |
| Project.MyCITS2200Project.EnqueueUnvisited | MyCITS2200Project.java:56-62 | the inner loop of the BFS: every unvisited successor of the dequeued vertex is enqueued one hop further, keeping the layered-queue invariant and the visited flags in step with the distances |
| Project.MyCITS2200Project.VisitNeighbour | MyCITS2200Project.java:57-61 | visiting an unseen successor sets its distance to the dequeued vertex's plus one, marks it visited and enqueues it, keeping the BFS invariant |
| Project.MyCITS2200Project.getShortestPath | MyCITS2200Project.java:73-87 | an unknown label is an error, exactly; for known labels the result is "no path" exactly when the target is unreachable and otherwise the shortest hop count |
| Project.MyCITS2200Project.getCenters | MyCITS2200Project.java:227-246 | the labels of the vertices of least eccentricity, in increasing id order |
| Project.MyCITS2200Project.Eccentricities | MyCITS2200Project.java:228-236 | the first loop fills the array with every vertex's eccentricity and keeps the least one, the first vertex standing in for the maximal-integer start value |
| Project.MyCITS2200Project.Eccentricity | MyCITS2200Project.java:233-234 | the largest entry of a vertex's BFS distances is its eccentricity |
| Project.MyCITS2200Project.SelectCenters | MyCITS2200Project.java:238-245 | the second loop collects, in id order, the labels of the vertices whose eccentricity equals the least one; none for an empty graph |
| Project.MyCITS2200Project.hasHamiltonianPath | MyCITS2200Project.java:99-121 | the answer is Succeeds(i, set); the call records its key in the memo and keeps every memo and successor entry consistent with Succeeds; every entry already in either table keeps its value, and every key it adds is (i, set) or has a set below set: a strictly smaller set, or set itself entered from a member of set when i is not in it |
| Project.MyCITS2200Project.TryThrough | MyCITS2200Project.java:112 | the nested search from the successor k over set without i: its answer is Succeeds(k, set - {i}), (i, set) stays unrecorded, old entries keep their values and every added key lies below (i, set) |
| Project.MyCITS2200Project.RecordFound | MyCITS2200Project.java:113-114 | recording success with successor k: exactly the two table entries for (i, set) are added, the search from i over set succeeds, and the tables stay consistent |
| Project.MyCITS2200Project.getHamiltonianPath | MyCITS2200Project.java:127-155 | empty exactly when no vertex's search over all vertices succeeds; otherwise a walk through every vertex from the first succeeding vertex, visiting each once when there are no self-loops |
| Project.ReadPath | MyCITS2200Project.java:139-150 | the read-back loop emits exactly Trace from the start key, as labels of vertices of the graph |
| Project.ReadStep | MyCITS2200Project.java:143-148 | one pass of the read-back loop appends the label of i; the rest of Trace continues from the next key, which is again successful unless the set is used up; and the loop's measure drops |
| Project.MyCITS2200Project.Attempt | MyCITS2200Project.java:138 | one search of the loop: its answer is Succeeds(i, set), its key is recorded, and the tables stay consistent |
| Project.MyCITS2200Project.DFS | MyCITS2200Project.java:169-194 | the search of an undiscovered vertex keeps Tarjan's invariant and ends as DfsPost says: the vertex numbered next, earlier numbers kept, every newly discovered vertex reachable from it, and either it was a root whose component was emitted or it stays on the stack with a smaller low link |
| Project.MyCITS2200Project.Enter | MyCITS2200Project.java:170-172 | numbering and pushing a vertex keeps the invariant and opens its search with no successor explored |
| Project.MyCITS2200Project.Number | MyCITS2200Project.java:170 | the vertex gets the counter as number and low link, and the counter grows by one |
| Project.MyCITS2200Project.Push | MyCITS2200Project.java:171-172 | the vertex goes on top of the stack, then its on-stack flag is set |
| Project.MyCITS2200Project.ExploreSuccessors | MyCITS2200Project.java:173-182 | the loop over the successors, in any order, leaves every successor explored with the search's invariant kept |
| Project.MyCITS2200Project.HandleNeighbour | MyCITS2200Project.java:175-181 | one successor, in each of its three cases (undiscovered, on the stack, finished), is explored with the invariant kept |
| Project.MyCITS2200Project.SearchChild | MyCITS2200Project.java:176-178 | an undiscovered successor is searched (fewer vertices undiscovered, so the recursion ends) and its low link taken in |
| Project.MyCITS2200Project.TakeChildLow | MyCITS2200Project.java:178 | lowering to the child's low link keeps the invariant and the search of the parent on track |
| Project.MyCITS2200Project.LowerToStacked | MyCITS2200Project.java:179-180 | lowering to the number of a successor still on the stack keeps the invariant |
| Project.MyCITS2200Project.LeaveVertex | MyCITS2200Project.java:184-193 | after the loop, a root emits its component and a non-root stays on the stack; either way the search of the vertex is complete |
| Project.MyCITS2200Project.CloseRoot | MyCITS2200Project.java:184-193 | for a root, popping down to it emits one component and completes its search with the invariant kept |
| Project.MyCITS2200Project.PopComponent | MyCITS2200Project.java:185-192 | the stack loses everything from the root up, the flags of those vertices are cleared, and their labels, top first, are appended to the component list |
| Project.MyCITS2200Project.PopUntil | MyCITS2200Project.java:187-191 | the do-while pops down to and including the root, clears each popped flag and collects the labels top first |
| Project.MyCITS2200Project.getStronglyConnectedComponents | MyCITS2200Project.java:200-221 | the components found partition the vertices into full classes of mutual reachability, each listed once without repeats, and the returned lists are their labels |
| Project.MyCITS2200Project.ResetSearch | MyCITS2200Project.java:201-207 | fresh arrays of zeros and false, an empty stack, no components and the counter at 1 form the initial state of the invariant |
| Project.MyCITS2200Project.AllocateTables | MyCITS2200Project.java:202-204 | three fresh arrays, one entry per vertex, all 0 and false |
| Project.MyCITS2200Project.ClearSearch | MyCITS2200Project.java:205-207 | the stack and component list are empty and the counter is 1 |
| Project.MyCITS2200Project.SearchAll | MyCITS2200Project.java:209-213 | after the outer loop every vertex is discovered and the stack is empty |
| Project.MyCITS2200Project.SearchFrom | MyCITS2200Project.java:210-212 | a search started on an empty stack ends with an empty stack, and the vertex is discovered |
| Project.Min | MyCITS2200Project.java:178-180 | Math.min: the result is one of the two and at most each |
| Project.OuterStep | MyCITS2200Project.java:209-212 | a search begun on an empty stack leaves the stack empty and keeps every earlier vertex discovered |
| Project.FinalStep | MyCITS2200Project.java:209-220 | once every vertex is discovered and the stack is empty, the emitted components are the decomposition of the graph |
| Graphs.DistSpec | MyCITS2200Project.java:40-65 | Dist is -1 exactly for unreachable vertices and otherwise the length of a shortest walk |
| Graphs.DistSelf | MyCITS2200Project.java:51 | a vertex is at distance 0 from itself |
| Graphs.DistEdge | MyCITS2200Project.java:56-61 | following one edge adds at most one hop |
| Graphs.DistTriangle | MyCITS2200Project.java:73-87 | finite shortest-path lengths obey the triangle inequality |
| Traversal.RelaxedIsDistance | MyCITS2200Project.java:53-63 | a vector that relaxes every edge and whose finite entries are realised by walks is exactly the distance vector |
| Traversal.BfsStart | MyCITS2200Project.java:46-51 | the start vertex at distance 0 in the queue, everything else -1, satisfies the outer-loop invariant |
| Traversal.BfsPop | MyCITS2200Project.java:53-55 | dequeuing the head opens the inner loop over its successors with the invariant kept |
| Traversal.BfsVisit | MyCITS2200Project.java:57-61 | setting an unseen successor to one hop further and enqueuing it keeps the inner invariant |
| Traversal.BfsSkip | MyCITS2200Project.java:57 | passing over a seen successor keeps the inner invariant |
| Traversal.BfsFinish | MyCITS2200Project.java:56-62 | with every successor handled, the dequeued vertex is done and the outer invariant holds |
| Traversal.BfsEnd | MyCITS2200Project.java:53-64 | when the queue is empty the distances are exact |
| Traversal.MaxOfSpec | MyCITS2200Project.java:234 | the stream maximum is -1 on an empty array and otherwise an entry that bounds every entry |
| Traversal.MaxOf | MyCITS2200Project.java:234 | the stream maximum of a distance array, -1 when the array is empty (its meaning is Traversal.MaxOfSpec) |
| Traversal.MinOfSpec | MyCITS2200Project.java:230-235 | the running minimum is an entry bounded by every entry |
| Traversal.EccIsMaxReachable | MyCITS2200Project.java:233-234 | an eccentricity is never negative and is the largest distance to a reachable vertex; the -1 entries play no part |
| Traversal.EccOfVector | MyCITS2200Project.java:233-234 | the maximum of any exact distance vector is the eccentricity |
| Traversal.MinIndicesUpToSpec | MyCITS2200Project.java:239-243 | the collected indices are increasing and are exactly those below the bound holding the minimum |
| Traversal.CentersAreMinimal | MyCITS2200Project.java:227-246 | a vertex is a center exactly when no vertex has a smaller eccentricity; centers are in increasing id order; there is one exactly when the graph is not empty |
| Hamiltonian.All | MyCITS2200Project.java:129 | the full mask holds exactly the vertices 0 .. n - 1 |
| Hamiltonian.Succeeds | MyCITS2200Project.java:99-121 | the answer of the memoised search from i over a set: true on the singleton of i, otherwise true when some successor k of i lies in the set (the set still holding i) and the search from k over the set without i succeeds (its meaning is Hamiltonian.SucceedsIffHamPath) |
| Hamiltonian.SucceedsSound | MyCITS2200Project.java:99-121 | a successful search from a vertex of the set yields a path through the set, from that vertex, visiting each vertex once |
| Hamiltonian.SucceedsComplete | MyCITS2200Project.java:99-121 | every such path makes the search from its first vertex succeed |
| Hamiltonian.SucceedsIffHamPath | MyCITS2200Project.java:99-121 | the search from a vertex of the set succeeds if and only if a path through the set visiting each vertex once starts there |
| Hamiltonian.MemoAddBase | MyCITS2200Project.java:104-107 | the singleton case succeeds and recording it keeps the tables consistent |
| Hamiltonian.MemoAddFound | MyCITS2200Project.java:111-116 | the first successor whose search succeeds makes the key succeed; recording it and its successor keeps the tables consistent |
| Hamiltonian.MemoAddFailed | MyCITS2200Project.java:119-120 | when no candidate succeeds the key fails; recording false keeps the tables consistent |
| Hamiltonian.SuccessorOf | MyCITS2200Project.java:144 | the successor table reads -1 exactly for a slot never filled, and otherwise the recorded successor |
| Hamiltonian.Trace | MyCITS2200Project.java:142-149 | the vertices the read-back loop emits: the current vertex, then, with it removed from the set, those from its recorded successor, or from itself when none is recorded, until the set is empty (its meaning is Hamiltonian.TraceIsWalk) |
| Hamiltonian.TraceUnfold | MyCITS2200Project.java:142-149 | one read-back iteration from a successful key emits its vertex, moves to a successful key or empties the set, and shrinks the loop measure |
| Hamiltonian.TraceIsWalk | MyCITS2200Project.java:137-152 | the read-back is a walk from the start through exactly the set; without self-loops it visits each vertex once |
| Hamiltonian.ReadBackIsFirstPath | MyCITS2200Project.java:137-152 | the read-back from the first succeeding vertex is the path getHamiltonianPath promises |
| Hamiltonian.LoopTablesOk | MyCITS2200Project.java:111-116 | the tables a search leaves on the graph 0→0, 0→1, trying the self-loop first, are consistent |
| Hamiltonian.SelfLoopRepeatsVertex | MyCITS2200Project.java:111-116 | on that graph the read-back is [0, 0, 1]: the test against the full set lets the self-loop through and the path repeats a vertex |
| Components.SameComponentIffMutual | MyCITS2200Project.java:200-221 | in a decomposition, two vertices share a component if and only if they are mutually reachable |
| Components.ExactlyOnce | MyCITS2200Project.java:200-221 | every vertex lies in exactly one component and occurs there once |
| TarjanSteps.InitOk | MyCITS2200Project.java:201-207 | the initial state (numbering from 1, nothing stacked) satisfies the invariant, with every vertex undiscovered |
| Tarjan.Visit | MyCITS2200Project.java:170-172 | the state step of entering a vertex: the counter becomes its number and low link, it is pushed and flagged, and the counter grows by one (its meaning is TarjanSteps.VisitStep) |
| TarjanSteps.VisitStep | MyCITS2200Project.java:170-172 | numbering the next vertex keeps the invariant (low link at most number, flag iff on the stack) and opens its search |
| TarjanSteps.UnvisitedShrinks | MyCITS2200Project.java:176-177 | within a search fewer vertices are undiscovered than when it began, so the recursion terminates |
| Tarjan.LowerLow | MyCITS2200Project.java:176-181 | the state step of the two Math.min updates of a low link, nothing else changed (its meaning is TarjanSteps.LowerLowOk) |
| TarjanSteps.LowerLowOk | MyCITS2200Project.java:178-180 | lowering the low link to a number of a reachable stacked vertex, or not lowering it, keeps the invariant |
| TarjanSteps.BackInv | MyCITS2200Project.java:179-180 | a successor on the stack lowers the low link to its number with the invariant kept |
| TarjanSteps.ChildInv | MyCITS2200Project.java:176-178 | returning from a child and taking its low link keeps the invariant |
| TarjanSteps.ChildLoop | MyCITS2200Project.java:176-178 | returning from a child keeps the parent's search on track with the child explored |
| TarjanSteps.FinishInv | MyCITS2200Project.java:184 | a vertex whose low link is below its number stays on the stack finished, with the invariant kept |
| TarjanSteps.StackAboveRoot | MyCITS2200Project.java:184-191 | the root sits just above the stack its search began with, and nowhere higher |
| TarjanSteps.AboveIsMutual | MyCITS2200Project.java:184-191 | every vertex above the root is mutually reachable with it |
| TarjanSteps.MutualIsAbove | MyCITS2200Project.java:184-191 | every vertex mutually reachable with the root lies above it |
| TarjanSteps.RootClosed | MyCITS2200Project.java:184-191 | no edge leaves the part above the root towards a vertex mutually reachable with the root |
| Tarjan.Emit | MyCITS2200Project.java:185-192 | the state step of the do-while: the stack from the root up is popped, their flags cleared, and they are emitted top first as one component (its meaning is TarjanSteps.EmitScc) |
| TarjanSteps.EmitScc | MyCITS2200Project.java:184-193 | the popped part, top first, is exactly the root's class of mutual reachability |
| TarjanSteps.EmitEndsWithRoot | MyCITS2200Project.java:187-192 | popping adds one component holding exactly the popped vertices, ending with the root |
| TarjanSteps.EmitInv | MyCITS2200Project.java:184-193 | emitting the root's component keeps the invariant |
| TarjanSteps.EmitPost | MyCITS2200Project.java:184-193 | emitting the root's component completes the root's search |
| TarjanSteps.BottomIsRoot | MyCITS2200Project.java:184 | the bottom vertex of the stack has equal low link and number |
| TarjanSteps.TopStep | MyCITS2200Project.java:209-212 | a search started from an empty stack ends with an empty stack |
| TarjanSteps.TopEnd | MyCITS2200Project.java:200-221 | when every vertex is discovered and the stack is empty, the emitted components are the decomposition of the graph |

## Left out

- 32-bit integers: ids, distances and counters are unbounded. In particular `1 << n` overflows for 31 or more vertices; that overflow is not modelled, and vertex masks are sets of ids.
- The memo and successor arrays are maps keyed by (vertex, set). A memo slot that is still `null` is a missing key. A successor slot holding -1 is a missing entry, read as -1 by `Hamiltonian.SuccessorOf`.
- `Integer.MAX_VALUE` as the start of the running minimum in getCenters: the first vertex's eccentricity is taken as the minimum instead. The two agree, since every eccentricity is below the maximal integer.
- HashSet iteration order: the successors are visited in an arbitrary order, chosen by `:|`. Every contract holds for every order. Which successor the Hamiltonian search records, and the order of the components, are not pinned down further.
- `Deque`, `Queue` and `List`: the stack is a sequence whose top is its last element, and the BFS queue and the lists are sequences. `String[]` and `String[][]` results are sequences of strings.
- Exceptions of getShortestPath are `Err` results. getDistances requires a valid start id, as its only callers guarantee.
- Several method bodies are split into helper methods that mirror their statement groups (RegisterBoth, Link, EnqueueUnvisited, Enter, PopUntil and others). The order of the statements is kept.
- Call-stack depth: DFS and hasHamiltonianPath recurse once per vertex on the path they follow, so on a deep graph the program stops with a StackOverflowError. The model's recursion has no such bound, and its contracts say nothing about that failure.
- The tester class, the `CITS2200Project` interface and the file-reading driver are not part of this model.
