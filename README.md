# Dijkstra's algorithm in two schemes, over an undirected adjacency-list graph

The program computes single-source shortest paths on an undirected graph. Positive edge costs sit in
adjacency lists. It has two engines:

- the *simple scheme* keeps the pending vertices in a list and finds the cheapest by a linear scan;
- the *Fibonacci scheme* keeps them in a min-priority queue with `insert`, `returnMin`, `removeMin`
  and `decreaseKey`, holding one node handle per vertex.

A command-line driver reads an edge-list file:

- the source vertex;
- the vertex count and the edge count;
- one "v1 v2 cost" line per edge.

The driver checks each line and inserts the edges into a graph. It then checks the edge count and
that the graph is connected from the source, and runs one engine. In random mode both engines run
on the same graph.

This project models those parts in Dafny and proves their contracts:

- `graph.dfy` (module `GraphModel`) holds the `Graph` class:
  - its adjacency lists are a `seq<seq<Edge>>` field;
  - `AddEdge` appends symmetrically and refuses loops, zero costs and repeated neighbours;
  - the depth-first connectivity check runs over an explicit stack and visited set.

  Undirectedness is the invariant `Undirected`: symmetry, no loops, no repeated neighbour and no
  zero cost. Walks, their costs and reachability are defined here too.
- `distances.dfy` (module `ShortestPaths`) holds the distance type and the shortest-path tables:
  - `Dist` is `Inf | Fin(n)`. `Inf` stands for the source's `Integer.MAX_VALUE`.
  - `IsShortestTable` says what a table of shortest distances is: every finite entry is the cost of
    some walk, and no walk costs less than the entry of the vertex it ends at.
  - The loop invariant shared by both engines is here, with the lemmas that carry it through one
    extraction and one relaxation.
- `simple_scheme.dfy` (module `SimpleScheme`) holds the simple-scheme engine:
  - the pending list is a `seq<int>` field;
  - the cost table is an `array<Dist>`;
  - the minimum scan, the first-occurrence removal and the relaxation loop are methods with loops.
- `min_heap.dfy` (module `MinHeap`) holds the priority queue as the engine uses it.
  - It is a map from node handles to (vertex, key) entries.
  - `RemoveMin` hands out an entry of least key.
  - `DecreaseKey` accepts no key above the current one.
- `fib_scheme.dfy` (module `FibScheme`) holds the Fibonacci-scheme engine:
  - the node array `nodes` is an `array<Node>`;
  - `Mirrors` is the invariant that every pending vertex has exactly one heap entry, whose key
    equals its table entry.
- `edge_list.dfy` (module `EdgeListInput`) holds the file driver over lines already split into
  integers:
  - `ReadLine`, `ReadLines` and `Parse` state the rejection rules;
  - `ReadEdgeList` is the reading loop, which feeds `Graph.AddEdge`;
  - the two file drivers and the random-mode pair of runs are here too.

Both engines are proved to end with `IsShortestTable` on every graph whose edges lead to vertices
of the graph and cost a positive amount (`Runnable`), from any source vertex of the graph.
`ShortestTableUnique` shows there is only one such table, so on those graphs the two schemes agree.
On a graph connected from the source the model and the program compute the same table. On a graph
that is not connected from the source they differ: the model keeps `Inf` at every unreached vertex,
while the program adds costs to `Integer.MAX_VALUE` and writes wrapped negative sums there. The
model's contracts do not describe what the program writes in that case (see "## Left out").

Three behaviours of the driver are easy to miss. This model follows the code:

- A repeated edge line in the file is not an error. `addEdge` refuses it, `Graph.java:217`, but the
  driver ignores the result and counts the line anyway, `dijikstra.java:170-171`.
- The file's edge count must match the number of edge lines exactly. The check rejects surplus
  lines as well as missing ones, `dijikstra.java:175`.
- Edge insertion refuses only the cost 0, `Graph.java:217`. The driver refuses costs that are not
  positive, `dijikstra.java:167`.

## Model

| member | source | states |
|---|---|---|
| GraphModel.EmptyAdjacency | Dijikstra/src/Graph.java:84-87 | n adjacency lists, each of them empty |
| GraphModel.EmptyAdjacencyUndirected | Dijikstra/src/Graph.java:81-88 | a fresh graph satisfies the undirected-graph invariant and has only positive costs |
| GraphModel.Connect | Dijikstra/src/Graph.java:222-229 | inserting an edge puts Edge(v2, c) at the end of list v1 and Edge(v1, c) at the end of list v2; every other list keeps its contents and the number of lists is unchanged |
| GraphModel.Rejects | Dijikstra/src/Graph.java:217 | edge insertion refuses exactly a loop (v1 == v2), the cost 0, and an edge whose first end point already lists the second at some position of its list |
| GraphModel.AfterAddEdge | Dijikstra/src/Graph.java:217-230 | one call of edge insertion: a refused edge leaves the lists as they were; an accepted one appends Edge(v2, c) to list v1 and Edge(v1, c) to list v2. The number of lists and every other list stay the same. |
| GraphModel.ConnectEdges | Dijikstra/src/Graph.java:222-229 | after insertion, an edge is in list v exactly when it was there before or is one of the two new entries |
| GraphModel.ConnectSymmetric | Dijikstra/src/Graph.java:215-231 | insertion keeps every neighbour in range and keeps symmetry: v lists w at cost c iff w lists v at cost c |
| GraphModel.ConnectNoSelfLoops | Dijikstra/src/Graph.java:217-229 | insertion of a non-loop with a non-zero cost creates no self-loop and no zero-cost edge |
| GraphModel.ConnectNoDuplicates | Dijikstra/src/Graph.java:217-229 | insertion of an edge that is not present already leaves no list with a repeated neighbour |
| GraphModel.AddEdgeKeepsUndirected | Dijikstra/src/Graph.java:215-231 | whether an edge is accepted or refused, the undirected-graph invariant and the number of lists survive |
| GraphModel.AddEdgeKeepsPositive | Dijikstra/src/Graph.java:217-229 | inserting an edge of positive cost keeps every cost in the graph positive |
| GraphModel.ClosedHoldsWalkEnds | Dijikstra/src/Graph.java:193-202 | when the stack is empty, the visited set holds the source and all neighbours of its members, so every walk from the source ends inside it |
| GraphModel.AllVisitedReachable | Dijikstra/src/Graph.java:203 | when all n vertices are visited and each has a recorded walk, every vertex is reachable from the source |
| GraphModel.ReachableAllVisited | Dijikstra/src/Graph.java:203 | a closed visited set of vertices, on a graph where every vertex is reachable, has size n |
| GraphModel.Graph.constructor | Dijikstra/src/Graph.java:81-88 | a graph of n vertices has max(n, 0) lists, all empty; it satisfies the undirected invariant and has positive costs, and it is valid when n is not negative |
| GraphModel.Graph.GetNumberOfVertices | Dijikstra/src/Graph.java:56-58 | returns the stored vertex count |
| GraphModel.Graph.ReachableNeighbours | Dijikstra/src/Graph.java:274-276 | returns exactly the adjacency list of the vertex |
| GraphModel.Graph.IsEdgePresent | Dijikstra/src/Graph.java:254-265 | true iff some edge in the list of `source` leads to `dest`; nothing changes |
| GraphModel.Graph.AddEdge | Dijikstra/src/Graph.java:215-231 | true iff v1 differs from v2, the cost is non-zero and v1 does not already list v2. On true, both lists get the new entry (`Connect`); on false, no list changes. The undirected invariant and the vertex count are kept. |
| GraphModel.NeighboursReversed | Dijikstra/src/Graph.java:197-200 | the neighbours of an adjacency list in reverse order: position j holds the neighbour of the edge j places from the end |
| GraphModel.PushedMembers | Dijikstra/src/Graph.java:197-200 | after the neighbours are pushed, everything that was on the stack is still on it and every neighbour is on it |
| GraphModel.Graph.PushNeighbours | Dijikstra/src/Graph.java:197-200 | the new stack is exactly the neighbours of the vertex, last edge first, on top of the old stack, so the next pop is the last neighbour in list order; nothing already on the stack is lost, and every pushed vertex gets a walk from the source |
| GraphModel.Graph.DepthFirstSearch | Dijikstra/src/Graph.java:185-204 | true iff the density shortcut is taken or every vertex is reachable from the source |
| GraphModel.Graph.IsProperGraph | Dijikstra/src/Graph.java:174-176 | the same answer as the depth-first search |
| ShortestPaths.Add | sourcefiles/DijikstraAlgorithm.java:83 | `pathCosts[u] + cost`: the sum of a finite entry and the cost, as the Java integer it stands for; an entry not reached yet stays Inf instead of the 32-bit sum (see "## Left out") |
| ShortestPaths.Less | sourcefiles/DijikstraAlgorithm.java:84 | for entries the source can hold (Inf, or a finite cost below MAX_VALUE) this is the source's integer `<`, with Inf read as Integer.MAX_VALUE. It is the comparison of DijikstraAlgorithm.java:84 and :132 and of DijikstraFibAlgorithm.java:83. |
| ShortestPaths.ShortestTableUnique | sourcefiles/dijikstra.java:291-302 | two tables of shortest distances for the same graph and source are equal, so both schemes run by random mode produce the same costs |
| ShortestPaths.ShortestTableFacts | sourcefiles/DijikstraAlgorithm.java:71-89 | on a graph with positive costs in range, a shortest table has the following properties: the source entry is 0; an entry is finite exactly for the vertices reachable from the source; every edge (u, v, c) satisfies d[v] <= d[u] + c |
| ShortestPaths.InitialTable | sourcefiles/DijikstraAlgorithm.java:113-114 | the table before the first extraction: 0 at the source, MAX_VALUE (Inf) everywhere else, one entry per vertex |
| ShortestPaths.InitialLoopInv | sourcefiles/DijikstraAlgorithm.java:72-75 | the initial table with every vertex pending satisfies the main loop invariant. The invariant says: finite entries are witnessed by walks; every extracted vertex is final and no dearer than any pending one; the edges of extracted vertices are relaxed. |
| ShortestPaths.StartRelax | sourcefiles/DijikstraAlgorithm.java:76-80 | extracting a pending vertex of least cost starts the relaxation invariant with that vertex counted as extracted |
| ShortestPaths.RelaxStep | sourcefiles/DijikstraAlgorithm.java:82-86 | one relaxation step keeps the relaxation invariant for one more edge. It lowers an entry only when the new cost is strictly smaller, and only for a pending vertex. No entry rises, and entries outside the pending set are unchanged. |
| ShortestPaths.RelaxKeeps | sourcefiles/DijikstraAlgorithm.java:84 | skipping an edge whose cost does not improve keeps the relaxation invariant |
| ShortestPaths.RelaxLowers | sourcefiles/DijikstraAlgorithm.java:83-85 | a strictly improving edge always leads to a pending vertex, and writing the new cost keeps the relaxation invariant |
| ShortestPaths.ExtractedNeverRelaxed | sourcefiles/DijikstraAlgorithm.java:75-88 | with positive costs, no edge improves the cost of an extracted vertex |
| ShortestPaths.LowerWitnessed | sourcefiles/DijikstraAlgorithm.java:83-85 | the lowered entry is the cost of a walk: the walk to u extended by the edge |
| ShortestPaths.LowerOrdered | sourcefiles/DijikstraAlgorithm.java:83-85 | lowering a pending entry to a cost no less than d[u] keeps every extracted vertex no dearer than every pending one |
| ShortestPaths.LowerRelaxed | sourcefiles/DijikstraAlgorithm.java:83-85 | lowering a pending entry keeps the edges already relaxed relaxed |
| ShortestPaths.NoHigherChain | sourcefiles/DijikstraAlgorithm.java:81-87 | "no entry rises" and "entries outside the pending set are unchanged" compose over successive steps |
| ShortestPaths.FinishRelax | sourcefiles/DijikstraAlgorithm.java:81-87 | after the last edge of the extracted vertex, the main loop invariant holds again |
| ShortestPaths.WalkBound | sourcefiles/DijikstraAlgorithm.java:75-88 | under the loop invariant, a walk from the source ends at a final vertex no cheaper than its cost, or costs at least the least pending cost |
| ShortestPaths.FinalTable | sourcefiles/DijikstraAlgorithm.java:75-89 | the loop invariant with nothing pending yields a table of shortest distances |
| SimpleScheme.RemoveFirst | sourcefiles/DijikstraAlgorithm.java:97-105 | removing a vertex shortens the list by one when the vertex is there and leaves the list unchanged when it is not |
| SimpleScheme.RemoveFirstMultiset | sourcefiles/DijikstraAlgorithm.java:97-105 | removal takes out exactly one copy of the vertex and nothing else |
| SimpleScheme.RemoveFirstAt | sourcefiles/DijikstraAlgorithm.java:98-101 | removal deletes exactly the first occurrence and keeps the order of everything else |
| SimpleScheme.CutDistinct | sourcefiles/DijikstraAlgorithm.java:100 | cutting one position out of a repetition-free list leaves it repetition-free |
| SimpleScheme.CutElems | sourcefiles/DijikstraAlgorithm.java:100 | cutting a position out of a repetition-free list removes exactly that element from its set of elements |
| SimpleScheme.RemoveFirstDistinct | sourcefiles/DijikstraAlgorithm.java:97-105 | removal from a repetition-free queue leaves it repetition-free, with exactly the removed vertex gone from its elements |
| SimpleScheme.DijkstraSimple.constructor | sourcefiles/DijikstraAlgorithm.java:29-34 | stores the graph and the source, allocates a fresh cost table of one entry per vertex, and leaves the queue empty |
| SimpleScheme.DijkstraSimple.GetPathCosts | sourcefiles/DijikstraAlgorithm.java:61-63 | returns the engine's own cost table |
| SimpleScheme.DijkstraSimple.RunSimpleInitializer | sourcefiles/DijikstraAlgorithm.java:111-117 | the queue becomes exactly 0, 1, ..., n-1 in ascending order and every cost Inf (MAX_VALUE) |
| SimpleScheme.DijkstraSimple.GetNextSmallestNode | sourcefiles/DijikstraAlgorithm.java:127-138 | returns a queued vertex whose cost is no more than any queued vertex's, and on ties the first in list order: every earlier queued vertex costs strictly more |
| SimpleScheme.DijkstraSimple.RemoveMin | sourcefiles/DijikstraAlgorithm.java:97-105 | true iff the vertex was queued; the new queue is the old one with the first occurrence removed, and the engine's invariant (queued vertices in range) is kept |
| SimpleScheme.DijkstraSimple.StartRun | sourcefiles/DijikstraAlgorithm.java:72-74 | after initialising and setting the source to 0, the table is the initial table and the queue holds every vertex once. The loop invariant holds. |
| SimpleScheme.DijkstraSimple.RelaxEdges | sourcefiles/DijikstraAlgorithm.java:80-87 | relaxing all edges of the extracted vertex restores the loop invariant. No entry rises, and no entry of an extracted vertex changes. |
| SimpleScheme.DijkstraSimple.RunSimpleAlgorithm | sourcefiles/DijikstraAlgorithm.java:71-89 | ends with the table of shortest distances from the source and an empty queue after exactly n extractions. The exception branch is dead: the vertex picked is always in the queue. |
| MinHeap.FibonacciHeap.constructor | Dijikstra/src/DijikstraFibAlgorithm.java:65 | a new heap is empty |
| MinHeap.FibonacciHeap.Insert | Dijikstra/src/DijikstraFibAlgorithm.java:72 | adds one entry with the given vertex and key under a handle not in use, and returns that node |
| MinHeap.FibonacciHeap.ReturnMin | Dijikstra/src/DijikstraFibAlgorithm.java:74 | None iff the heap is empty; otherwise a node whose key is no more than every key in the heap |
| MinHeap.FibonacciHeap.RemoveMin | Dijikstra/src/DijikstraFibAlgorithm.java:75-78 | None iff the heap was empty; otherwise a node of least key, deleted from the heap with nothing else changed |
| MinHeap.FibonacciHeap.DecreaseKey | Dijikstra/src/DijikstraFibAlgorithm.java:85 | requires a key no higher than the current one and replaces only that node's key |
| FibScheme.MirrorsEmpty | Dijikstra/src/DijikstraFibAlgorithm.java:74 | while the heap mirrors the pending set, the heap is empty iff no vertex is pending |
| FibScheme.MirrorsInsert | Dijikstra/src/DijikstraFibAlgorithm.java:72 | inserting a vertex with its table cost as key and recording its node in the array adds it to the mirrored pending set |
| FibScheme.MirrorsInsertNext | Dijikstra/src/DijikstraFibAlgorithm.java:68-73 | after inserting vertex i, the heap mirrors the vertices 0..i |
| FibScheme.MirrorsRemove | Dijikstra/src/DijikstraFibAlgorithm.java:75 | the node of least key belongs to a pending vertex whose key equals its table entry and is minimal among the pending vertices; removing it mirrors the pending set without that vertex |
| FibScheme.MirrorsDecrease | Dijikstra/src/DijikstraFibAlgorithm.java:83-85 | the node recorded for a pending vertex is in the heap; lowering key and table entry together keeps the mirror |
| FibScheme.DijkstraFib.constructor | Dijikstra/src/DijikstraFibAlgorithm.java:28-32 | stores the graph and the source and allocates a fresh cost table of one entry per vertex |
| FibScheme.DijkstraFib.GetPathCostsFib | Dijikstra/src/DijikstraFibAlgorithm.java:53-55 | returns the engine's own cost table |
| FibScheme.DijkstraFib.StartRun | Dijikstra/src/DijikstraFibAlgorithm.java:65-73 | the table becomes 0 at the source and Inf elsewhere, and a fresh heap holds one node per vertex keyed by its table entry, recorded in a fresh node array |
| FibScheme.DijkstraFib.InitVertex | Dijikstra/src/DijikstraFibAlgorithm.java:69-72 | vertex i other than the source gets Inf, the source keeps 0, and vertex i is inserted with its cost and recorded |
| FibScheme.DijkstraFib.LowerEntry | Dijikstra/src/DijikstraFibAlgorithm.java:84-85 | writes a strictly smaller cost for a pending vertex into the table and its heap node, changing nothing else in the table and keeping the mirror |
| FibScheme.DijkstraFib.RelaxEdges | Dijikstra/src/DijikstraFibAlgorithm.java:79-87 | relaxing all edges of the extracted vertex restores the loop invariant and keeps the mirror; no entry rises and no extracted entry changes; decreaseKey is called only on pending vertices with a strictly smaller key |
| FibScheme.DijkstraFib.ExtractAndRelax | Dijikstra/src/DijikstraFibAlgorithm.java:75-87 | one round removes exactly one pending vertex and keeps the loop invariant and the mirror; the exception branch is dead because the heap is not empty |
| FibScheme.DijkstraFib.ExtractAll | Dijikstra/src/DijikstraFibAlgorithm.java:74-88 | the main loop ends with the table of shortest distances after exactly one round per pending vertex |
| FibScheme.DijkstraFib.RunFibonacciAlgorithm | Dijikstra/src/DijikstraFibAlgorithm.java:63-89 | ends with the table of shortest distances from the source after exactly n extractions |
| EdgeListInput.Short | sourcefiles/dijikstra.java:130 | Java's cast to short: a value in [-32768, 32767] congruent to the input modulo 65536, equal to the input when it is already in range |
| EdgeListInput.ReadLine | sourcefiles/dijikstra.java:125-172 | line 0 sets only the source; line 1 sets the counts, with at least one vertex, the source in range and at least n-1 declared edges; every later line appends exactly one valid edge (distinct endpoints in range, positive cost) and changes nothing else |
| EdgeListInput.ReadLineRules | sourcefiles/dijikstra.java:125-172 | each rule of one line, both ways, with what the line sets and the error it reports. Line 0 is accepted iff it has one token, and that token cast to short becomes the source. Line 1 is accepted iff it has two tokens, a positive short vertex count with the source below it, and an edge count of at least n-1; the two tokens become the counts. Every later line is accepted iff it has three tokens that, cast to short, name distinct vertices in range joined at a positive cost, and that edge is appended. A wrong token count or header value is WrongArguments; a short edge count is InsufficientEdges; a bad edge is WrongFileInputs. |
| EdgeListInput.ReadLines | sourcefiles/dijikstra.java:124-174 | after at least two accepted lines the header is well formed and every line after the header is one accepted edge; before that no edges and no count |
| EdgeListInput.ReadLinesAccepted | sourcefiles/dijikstra.java:124-174 | without recursion: a file of at least two lines is read to the end iff its source line, its header and every edge line obey the rules, and the state it leaves holds the source and counts of the header and the edges of the later lines, in order |
| EdgeListInput.ParseAccepts | sourcefiles/dijikstra.java:124-177 | the file passes every check before the connectivity test iff its lines obey the rules and the declared edge count equals the number of edge lines; it then yields the state given by its header and edge lines |
| EdgeListInput.Parse | sourcefiles/dijikstra.java:124-177 | accepted input has a header, a well-formed state and exactly as many edge lines as declared; once every line is accepted, the only possible errors are the count mismatch and a missing header |
| EdgeListInput.ReadLinesFailureStays | sourcefiles/dijikstra.java:124-174 | a refused line ends the reading: the whole input fails with that line's error |
| EdgeListInput.BuildGraph | sourcefiles/dijikstra.java:148-171 | the graph grown by edge insertion from n empty lists has n lists, satisfies the undirected invariant and has positive costs |
| EdgeListInput.InputGraph | sourcefiles/dijikstra.java:148-171 | the graph of a well-formed input has one list per declared vertex, edges in range and positive costs, which is what the engines need |
| EdgeListInput.Verdict | sourcefiles/dijikstra.java:175-181 | the corrected verdict: an input accepted by the checks passes iff every vertex of its graph is reachable from the source, and fails with UnconnectedGraph otherwise; earlier errors pass through unchanged |
| EdgeListInput.FileDense | sourcefiles/dijikstra.java:178 | with two or more vertices, the declared edge count divided by n(n-1)/2 equals exactly 100: the value that makes the search at Graph.java:186 answer true at once |
| EdgeListInput.VerdictAsWritten | sourcefiles/dijikstra.java:178-181 | the verdict as the driver computes it: accepted when the edge count gives density "100" or the graph is connected |
| EdgeListInput.RepeatedEdgeRead | sourcefiles/dijikstra.java:150-171 | every copy of a repeated edge line is accepted and counted |
| EdgeListInput.FirstEdgeGraph | Dijikstra/src/Graph.java:222-229 | the first insertion of the edge 0-1 of cost 5 into three empty lists gives one entry in list 0 and one in list 1 |
| EdgeListInput.RepeatedEdgeGraph | Dijikstra/src/Graph.java:217-219 | inserting the edge 0-1 any number of times keeps only the first copy |
| EdgeListInput.OneEdgeUnconnected | sourcefiles/dijikstra.java:179-180 | in the 3-vertex graph with the single edge 0-1, vertex 2 is not reachable from 0 |
| EdgeListInput.DensityShortcutAcceptsUnconnected | sourcefiles/dijikstra.java:178-181 | the driver as written accepts an input whose graph is not connected, and the corrected verdict rejects it |
| EdgeListInput.ReadEdgeLine | sourcefiles/dijikstra.java:150-172 | refuses an edge line exactly when the rules do, with the same error; on acceptance the graph is the graph of the extended input |
| EdgeListInput.ReadEdgeList | sourcefiles/dijikstra.java:119-177 | fails exactly when the rules refuse the input, with the same error; otherwise returns a fresh valid graph equal to the graph of the input, with its source |
| EdgeListInput.SimpleSchemeFileInput | sourcefiles/dijikstra.java:119-196 | fails exactly when the corrected verdict does, with the same error; otherwise the simple scheme's table of shortest distances from the file's source |
| EdgeListInput.FibonacciSchemeFileInput | sourcefiles/dijikstra.java:204-281 | the same as the simple driver, with the Fibonacci scheme |
| EdgeListInput.RunBothSchemes | sourcefiles/dijikstra.java:291-350 | both engines on one graph and source: the simple table is the table of shortest distances and the Fibonacci table is equal to it |

## Left out

- The heap's internals (consolidation, cascading cuts, mark bits). `FibonacciHeap.java` is not part
  of this model. `MinHeap.FibonacciHeap` models only the contract the engine relies on, over a map
  from handles to entries.
- `DecreaseKey`'s `InvalidKeyUpdate` failure on a larger key is a precondition. The engine never
  calls it that way.
- The random-graph constructor `Graph(short, double, short)` (`Graph.java:100-165`). It draws
  random numbers, computes doubles with `Math.ceil`, and retries without bound. Random mode is
  modelled from the point where a graph exists (`RunBothSchemes`).
- Floating point:
  - the density argument of `depthFirstSearch` is the boolean `dense`, meaning "d == 100.0";
  - the file driver's density quotient is `FileDense`, stated on exact rational numbers.
- EdgeListInput.FileDense: relates the density to the exact quotient, not to the double the
  source computes. The two agree here: the edge count is a 32-bit integer and n(n-1)/2 is below
  2^30, so both are exact doubles. A quotient that is not exactly 100 differs from 100 by at least
  1/(n(n-1)/2), which is far more than one rounding step at 100. With one vertex the source divides
  by zero and never gets 100.
- File and console I/O, `Integer.parseInt`, the splitting of lines into tokens, timing, printing of
  the tables and the `main` dispatch. The drivers take lines already split into integers and return
  the table or the error instead of printing it. Tokens are unbounded integers that `Short`
  narrows: a numeric token outside 32 bits is accepted and narrowed in the model, while
  `Integer.parseInt` throws `NumberFormatException` on it. A token that is not a number is not
  modelled.
- `TestableGraph.printGraph` (console output), the `IGraph` interface, `removeEdge` (it only throws)
  and `randomizedAnalysis` (analysis runs only).
- The JVM's array-index and null checks are left out. `Graph.AddEdge`, `IsEdgePresent` and
  `ReachableNeighbours` require their vertices in range; the driver always checks them first.
- Integer width:
  - `Integer.MAX_VALUE + cost` is a 32-bit value that wraps negative. In the model, `Inf` plus a cost
    stays `Inf`.
  - On a graph connected from the source every vertex is extracted with a finite entry, so the sum
    is never formed. A finite distance is below 32767 * 32766, which fits in 32 bits.
  - On a graph not connected from the source the sum is formed for the unreached vertices. The
    program then writes `Integer.MAX_VALUE + cost`, a negative number, and can lower it again after
    the vertex was extracted. For n = 4, a header declaring 600 edges, 300 lines "0 1 5" and 300
    lines "2 3 5", the simple scheme as written yields 0, 5, -2147483639, -2147483644; the model gives Fin 0, Fin 5, Inf,
    Inf.
  - From a file such a graph is reached only through the density shortcut under "## Findings". The
    corrected drivers refuse it. Random mode retries until its graph is connected,
    `Graph.java:110-161`.
- `ShortestPaths.Add`: does not model the 32-bit wrap of `Integer.MAX_VALUE + cost`, for the reason
  above.
- `SimpleScheme.DijkstraSimple.RunSimpleAlgorithm`, `FibScheme.DijkstraFib.RunFibonacciAlgorithm`
  and `EdgeListInput.RunBothSchemes`: on a graph not connected from the source they ensure the
  shortest table, with `Inf` at the unreached vertices, not the wrapped sums the program writes
  there, for the reason above.
- `SimpleScheme.DijkstraSimple.RunSimpleAlgorithm` and `FibScheme.DijkstraFib.RunFibonacciAlgorithm`
  require positive costs and edges in range:
  - the file driver guarantees both;
  - negative costs are outside the program's intended inputs;
  - edge insertion refuses the cost 0 but not negative costs.
- The driver's fields (`sourceNode`, `numberOfNodes`, `numberOfEdges`, `myGraph`) are static and
  outlive one call. The model starts every file from zero fields and no graph, as a fresh run of
  the program does.
- `Edge` is a plain record. It is the datatype `GraphModel.Edge` and needs no operations.

## Findings

| source | as written | input that shows it | evidently intended | confidence | as-written member | corrected member |
|---|---|---|---|---|---|---|
| sourcefiles/dijikstra.java:178-179 | the file's density is the edge count divided by n(n-1)/2, a fraction, but `depthFirstSearch` skips the connectivity test when that value equals the percentage 100. Repeated edge lines count toward the edge count, so an input can reach "100" without being connected, and an engine then runs on an unconnected graph. | "0", "3 300", then 300 lines "0 1 5"; the graph holds only the edge 0-1 and vertex 2 is unreachable | the connectivity test runs on every file input, and an unconnected graph is refused with UnconnectedGraph | not executed | EdgeListInput.VerdictAsWritten, EdgeListInput.DensityShortcutAcceptsUnconnected | EdgeListInput.Verdict, EdgeListInput.SimpleSchemeFileInput |
