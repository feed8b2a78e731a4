/** The Fibonacci scheme: Dijkstra's algorithm with the pending vertices
    kept in a priority queue, one node per vertex, whose keys follow the
    table entries. */
module FibScheme {
  import opened Wrappers
  import opened GraphModel
  import opened ShortestPaths
  import opened MinHeap

  // ---------------------------------------------------------------------
  // The heap mirrors the table
  // ---------------------------------------------------------------------

  /** The heap holds one node per vertex of Q and no other: the node of v
      is the one whose handle `nodes[v]` keeps, and its key is d[v]. */
  ghost predicate Mirrors(entries: map<nat, Entry>, nodes: seq<Node>, d: seq<Dist>, Q: set<int>) {
    && |nodes| == |d|
    && (forall h :: h in entries ==> NodeOfPending(entries, nodes, Q, h))
    && (forall v :: v in Q ==> 0 <= v < |d| && PendingHasNode(entries, nodes, d, v))
  }

  /** Node `h` holds a vertex of Q, whose slot in `nodes` keeps `h`. */
  ghost predicate NodeOfPending(entries: map<nat, Entry>, nodes: seq<Node>, Q: set<int>, h: nat)
    requires h in entries
  {
    entries[h].nodeNumber in Q && 0 <= entries[h].nodeNumber < |nodes| && nodes[entries[h].nodeNumber].handle == h
  }

  /** The node kept for `v` is in the heap, holds `v` and has key d[v]. */
  ghost predicate PendingHasNode(entries: map<nat, Entry>, nodes: seq<Node>, d: seq<Dist>, v: int)
    requires 0 <= v < |nodes| == |d|
  {
    nodes[v].handle in entries && entries[nodes[v].handle] == Entry(v, d[v])
  }

  /** The heap is empty exactly when no vertex is pending. */
  lemma MirrorsEmpty(entries: map<nat, Entry>, nodes: seq<Node>, d: seq<Dist>, Q: set<int>)
    requires Mirrors(entries, nodes, d, Q)
    ensures entries == map[] <==> Q == {}
  {
    if entries != map[] {
      var h :| h in entries;
      assert entries[h].nodeNumber in Q;
    }
    if entries == map[] {
      assert entries.Keys == {};
      assert forall v :: v !in Q;
    }
  }

  /** Inserting the node of a vertex not yet pending makes it pending, with
      its entry as key. */
  lemma MirrorsInsert(entries: map<nat, Entry>, nodes: seq<Node>, d: seq<Dist>, Q: set<int>,
                      v: int, node: Node, d': seq<Dist>)
    requires Mirrors(entries, nodes, d, Q)
    requires 0 <= v < |d| && v !in Q && node.handle !in entries
    requires |d'| == |d| && forall x :: x in Q ==> d'[x] == d[x]
    ensures Mirrors(entries[node.handle := Entry(v, d'[v])], nodes[v := node], d', Q + {v})
  {
    var entries' := entries[node.handle := Entry(v, d'[v])];
    var nodes' := nodes[v := node];
    forall h | h in entries'
      ensures entries'[h].nodeNumber in Q + {v} && 0 <= entries'[h].nodeNumber < |d'|
      ensures nodes'[entries'[h].nodeNumber].handle == h
    {
      if h != node.handle {
        assert entries[h].nodeNumber in Q;
      }
    }
  }

  /** The initialisation step: inserting the node of vertex i after those of
      0 .. i-1 makes 0 .. i pending. */
  lemma MirrorsInsertNext(entries: map<nat, Entry>, nodes: seq<Node>, d: seq<Dist>, i: int,
                          node: Node, d': seq<Dist>)
    requires Mirrors(entries, nodes, d, Vertices(i))
    requires 0 <= i < |d| && node.handle !in entries
    requires |d'| == |d| && forall x :: 0 <= x < i ==> d'[x] == d[x]
    ensures Mirrors(entries[node.handle := Entry(i, d'[i])], nodes[i := node], d', Vertices(i + 1))
  {
    VerticesCount(i);
    MirrorsInsert(entries, nodes, d, Vertices(i), i, node, d');
  }

  /** Removing a node with the least key takes a pending vertex whose entry
      is no more than that of any pending vertex; the rest stay mirrored. */
  lemma MirrorsRemove(entries: map<nat, Entry>, nodes: seq<Node>, d: seq<Dist>, Q: set<int>, h: nat)
    requires Mirrors(entries, nodes, d, Q) && IsMin(entries, h)
    ensures entries[h].nodeNumber in Q && entries[h].key == d[entries[h].nodeNumber]
    ensures forall q :: q in Q ==> AtMost(d[entries[h].nodeNumber], d[q])
    ensures Mirrors(entries - {h}, nodes, d, Q - {entries[h].nodeNumber})
  {
    var u := entries[h].nodeNumber;
    forall q | q in Q
      ensures AtMost(d[u], d[q])
    {
      assert nodes[q].handle in entries;
    }
  }

  /** Lowering the key of a pending vertex along with its entry keeps the
      heap mirrored. */
  lemma MirrorsDecrease(entries: map<nat, Entry>, nodes: seq<Node>, d: seq<Dist>, Q: set<int>, v: int, k: Dist)
    requires Mirrors(entries, nodes, d, Q) && v in Q
    ensures nodes[v].handle in entries
    ensures Mirrors(entries[nodes[v].handle := Entry(entries[nodes[v].handle].nodeNumber, k)], nodes, d[v := k], Q)
  {
  }

  // ---------------------------------------------------------------------
  // The engine
  // ---------------------------------------------------------------------

  class DijkstraFib {
    const graph: Graph
    const source: int
    /** Entry v is the cost of the cheapest path to v found so far. */
    const pathCostsFib: array<Dist>
    /** How many nodes the last run has removed from its heap. */
    ghost var extractions: nat

    ghost predicate Valid()
      reads this, graph
    {
      graph.numberOfVertices == |graph.adj| == pathCostsFib.Length
    }

    /** One table entry per vertex of the graph. */
    constructor (g: Graph, s: int)
      requires g.numberOfVertices == |g.adj|
      ensures graph == g && source == s
      ensures pathCostsFib.Length == g.numberOfVertices
      ensures fresh(pathCostsFib)
      ensures Valid()
    {
      graph := g;
      source := s;
      pathCostsFib := new Dist[g.numberOfVertices];
    }

    method GetPathCostsFib() returns (costs: array<Dist>)
      ensures costs == pathCostsFib
    {
      costs := pathCostsFib;
    }

    /** The heap after initialisation: one node per vertex with key 0 for
        the source and Inf elsewhere, the entries matching. */
    method StartRun() returns (heap: FibonacciHeap, nodes: array<Node>)
      requires Valid() && 0 <= source < |graph.adj|
      modifies pathCostsFib
      ensures fresh(heap) && fresh(nodes) && heap.Valid()
      ensures pathCostsFib[..] == InitialTable(|graph.adj|, source)
      ensures Mirrors(heap.entries, nodes[..], pathCostsFib[..], Vertices(|graph.adj|))
    {
      heap := new FibonacciHeap();
      var n := graph.GetNumberOfVertices();
      nodes := new Node[n];
      pathCostsFib[source] := Fin(0);
      for i := 0 to n
        invariant fresh(heap) && heap.Valid()
        invariant pathCostsFib[source] == Fin(0) && n == pathCostsFib.Length == nodes.Length
        invariant InitialUpTo(pathCostsFib[..], source, i)
        invariant Mirrors(heap.entries, nodes[..], pathCostsFib[..], Vertices(i))
      {
        InitVertex(heap, nodes, i);
      }
      InitialTableOf(pathCostsFib[..], source);
    }

    /** One step of the initialisation: vertex i gets entry Inf unless it
        is the source, and a node keyed by its entry. */
    method InitVertex(heap: FibonacciHeap, nodes: array<Node>, i: int)
      requires Valid() && heap.Valid() && 0 <= i < nodes.Length == pathCostsFib.Length
      requires Mirrors(heap.entries, nodes[..], pathCostsFib[..], Vertices(i))
      requires 0 <= source < pathCostsFib.Length && pathCostsFib[source] == Fin(0)
      requires InitialUpTo(pathCostsFib[..], source, i)
      modifies pathCostsFib, heap, nodes
      ensures heap.Valid()
      ensures pathCostsFib[..] == if i == source then old(pathCostsFib[..]) else old(pathCostsFib[..])[i := Inf]
      ensures pathCostsFib[source] == Fin(0) && InitialUpTo(pathCostsFib[..], source, i + 1)
      ensures Mirrors(heap.entries, nodes[..], pathCostsFib[..], Vertices(i + 1))
    {
      ghost var d := pathCostsFib[..];
      ghost var entries := heap.entries;
      ghost var before := nodes[..];
      if i != source {
        pathCostsFib[i] := Inf;
        assert pathCostsFib[..] == d[i := Inf];
      }
      var node := heap.Insert(i, pathCostsFib[i]);
      nodes[i] := node;
      MirrorsInsertNext(entries, before, d, i, node, pathCostsFib[..]);
      assert nodes[..] == before[i := node];
    }

    /** Lowers the entry of the pending vertex `v` to `k`, and the key of
        its node along with it. */
    method LowerEntry(heap: FibonacciHeap, nodes: array<Node>, v: int, k: Dist, ghost Q: set<int>)
      requires Valid() && heap.Valid() && Mirrors(heap.entries, nodes[..], pathCostsFib[..], Q)
      requires v in Q && Less(k, pathCostsFib[v])
      modifies pathCostsFib, heap
      ensures heap.Valid() && Mirrors(heap.entries, nodes[..], pathCostsFib[..], Q)
      ensures pathCostsFib[..] == old(pathCostsFib[..])[v := k]
    {
      ghost var d := pathCostsFib[..];
      MirrorsDecrease(heap.entries, nodes[..], d, Q, v, k);
      pathCostsFib[v] := k;
      assert pathCostsFib[..] == d[v := k];
      // the new key is strictly below the node's key
      assert Less(k, heap.entries[nodes[v].handle].key);
      heap.DecreaseKey(nodes[v], k);
    }

    /** The inner loop of the run: offers each neighbour of the extracted
        vertex `u` the path through `u`; when that path is strictly cheaper
        the entry and the key of the neighbour's node drop to its cost. */
    method RelaxEdges(heap: FibonacciHeap, nodes: array<Node>, u: int, ghost Q: set<int>, ghost W0: seq<seq<Edge>>)
      returns (ghost W: seq<seq<Edge>>)
      requires Valid() && heap.Valid() && RelaxInv(graph.adj, source, pathCostsFib[..], Q, u, 0, W0)
      requires Mirrors(heap.entries, nodes[..], pathCostsFib[..], Q)
      modifies pathCostsFib, heap
      ensures heap.Valid() && Mirrors(heap.entries, nodes[..], pathCostsFib[..], Q)
      ensures LoopInv(graph.adj, source, pathCostsFib[..], Q, W)
      ensures NoHigher(pathCostsFib[..], old(pathCostsFib[..])) && FixedOutside(pathCostsFib[..], old(pathCostsFib[..]), Q)
    {
      W := W0;
      ghost var d0 := pathCostsFib[..];
      var neighbors := graph.adj[u];
      for i := 0 to |neighbors|
        invariant heap.Valid() && Mirrors(heap.entries, nodes[..], pathCostsFib[..], Q)
        invariant RelaxInv(graph.adj, source, pathCostsFib[..], Q, u, i, W)
        invariant NoHigher(pathCostsFib[..], d0) && FixedOutside(pathCostsFib[..], d0, Q)
      {
        var e := neighbors[i];
        assert e in graph.adj[u];
        ghost var d := pathCostsFib[..];
        ghost var Wi := W;
        var toReach := Add(pathCostsFib[u], e.cost);
        if Less(toReach, pathCostsFib[e.neighbor]) {
          var v := e.neighbor;
          // with positive costs an extracted vertex is never offered a
          // cheaper path, so `v` still has its node
          RelaxLowers(graph.adj, source, d, Q, u, i, W);
          LowerEntry(heap, nodes, v, toReach, Q);
          W := W[v := W[u] + [e]];
        }
        RelaxStep(graph.adj, source, d, Q, u, i, Wi, pathCostsFib[..], W);
        NoHigherChain(pathCostsFib[..], d, d0, Q);
      }
      FinishRelax(graph.adj, source, pathCostsFib[..], Q, u, W);
    }

    /** One round of the run: removes a node with the least key and relaxes
        the edges of its vertex, which leaves the pending set. */
    method ExtractAndRelax(heap: FibonacciHeap, nodes: array<Node>, ghost Q: set<int>, ghost W: seq<seq<Edge>>)
      returns (ghost Q': set<int>, ghost W': seq<seq<Edge>>)
      requires Valid() && heap.Valid() && heap.entries != map[]
      requires Mirrors(heap.entries, nodes[..], pathCostsFib[..], Q)
      requires LoopInv(graph.adj, source, pathCostsFib[..], Q, W)
      modifies pathCostsFib, heap
      ensures heap.Valid() && Mirrors(heap.entries, nodes[..], pathCostsFib[..], Q')
      ensures LoopInv(graph.adj, source, pathCostsFib[..], Q', W')
      ensures Q' < Q && |Q'| == |Q| - 1
    {
      ghost var d := pathCostsFib[..];
      ghost var entries := heap.entries;
      var min := heap.RemoveMin();
      if min.None? {
        // the source throws here; the heap was not empty
        assert false;
      }
      var u := min.value.nodeNumber;
      MirrorsRemove(entries, nodes[..], d, Q, min.value.handle);
      StartRelax(graph.adj, source, d, Q, W, u);
      Q' := Q - {u};
      W' := RelaxEdges(heap, nodes, u, Q', W);
    }

    /** The main loop of the run: removes the node with the least key until
        the heap is empty, relaxing the edges of its vertex each time. It
        ends with the table of shortest distances, after one round per
        pending vertex. */
    method ExtractAll(heap: FibonacciHeap, nodes: array<Node>, ghost Q0: set<int>, ghost W0: seq<seq<Edge>>)
      returns (ghost rounds: nat)
      requires Valid() && heap.Valid()
      requires Mirrors(heap.entries, nodes[..], pathCostsFib[..], Q0)
      requires LoopInv(graph.adj, source, pathCostsFib[..], Q0, W0)
      modifies pathCostsFib, heap
      ensures IsShortestTable(graph.adj, source, pathCostsFib[..])
      ensures rounds == |Q0|
    {
      ghost var Q, W := Q0, W0;
      rounds := 0;
      var peek := heap.ReturnMin();
      while peek.Some?
        invariant heap.Valid() && Mirrors(heap.entries, nodes[..], pathCostsFib[..], Q)
        invariant LoopInv(graph.adj, source, pathCostsFib[..], Q, W)
        invariant peek.None? <==> heap.entries == map[]
        invariant rounds + |Q| == |Q0|
        decreases |Q|
      {
        MirrorsEmpty(heap.entries, nodes[..], pathCostsFib[..], Q);
        Q, W := ExtractAndRelax(heap, nodes, Q, W);
        rounds := rounds + 1;
        peek := heap.ReturnMin();
      }
      MirrorsEmpty(heap.entries, nodes[..], pathCostsFib[..], Q);
      FinalTable(graph.adj, source, pathCostsFib[..], W);
    }

    /** Dijkstra's algorithm over the heap. The result is the table of
        shortest distances, and every vertex is extracted exactly once. */
    method RunFibonacciAlgorithm()
      requires Valid() && Runnable(graph.adj) && 0 <= source < |graph.adj|
      modifies this, pathCostsFib
      ensures IsShortestTable(graph.adj, source, pathCostsFib[..])
      ensures extractions == |graph.adj|
    {
      var heap, nodes := StartRun();
      VerticesCount(|graph.adj|);
      InitialLoopInv(graph.adj, source);
      extractions := ExtractAll(heap, nodes, Vertices(|graph.adj|), seq(|graph.adj|, _ => []));
    }
  }
}
