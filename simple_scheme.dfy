/** The simple scheme: Dijkstra's algorithm with a plain list of pending
    vertices, scanned linearly for the next vertex to extract. */
module SimpleScheme {
  import opened GraphModel
  import opened ShortestPaths

  // ---------------------------------------------------------------------
  // The pending list
  // ---------------------------------------------------------------------

  /** The list with the first occurrence of `v` taken out. */
  function RemoveFirst(q: seq<int>, v: int): (r: seq<int>)
    ensures v in q ==> |r| == |q| - 1
    ensures v !in q ==> r == q
  {
    if q == [] then []
    else
      assert q == [q[0]] + q[1..];
      if q[0] == v then q[1..] else [q[0]] + RemoveFirst(q[1..], v)
  }

  /** Removal takes out one occurrence of `v`, when there is one, and
      leaves every other element as often as it was. */
  lemma {:induction false} RemoveFirstMultiset(q: seq<int>, v: int)
    ensures multiset(RemoveFirst(q, v)) == multiset(q) - multiset{v}
    decreases |q|
  {
    if q != [] {
      assert q == [q[0]] + q[1..];
      if q[0] != v {
        RemoveFirstMultiset(q[1..], v);
      }
    }
  }

  /** Only the first occurrence goes, and the others keep their order. */
  lemma {:induction false} RemoveFirstAt(q: seq<int>, v: int, k: int)
    requires 0 <= k < |q| && q[k] == v && v !in q[..k]
    ensures RemoveFirst(q, v) == q[..k] + q[k + 1..]
    decreases k
  {
    if k == 0 {
      assert q[..0] + q[1..] == q[1..];
    } else {
      var t := q[1..];
      assert q[0] != v by { assert q[0] == q[..k][0]; }
      assert RemoveFirst(q, v) == [q[0]] + RemoveFirst(t, v);
      assert v !in t[..k - 1] by { assert t[..k - 1] == q[..k][1..]; }
      RemoveFirstAt(t, v, k - 1);
      assert q[..k] == [q[0]] + t[..k - 1];
      assert q[k + 1..] == t[k..];
    }
  }

  ghost function Elems(q: seq<int>): set<int> {
    set x | x in q
  }

  predicate Distinct(q: seq<int>) {
    forall i, j :: 0 <= i < j < |q| ==> q[i] != q[j]
  }

  /** Cutting one position out of a list without repetitions leaves a list
      without repetitions. */
  lemma CutDistinct(q: seq<int>, k: int)
    requires Distinct(q) && 0 <= k < |q|
    ensures Distinct(q[..k] + q[k + 1..])
  {
    var r := q[..k] + q[k + 1..];
    forall i, j | 0 <= i < j < |r|
      ensures r[i] != r[j]
    {
      var i' := if i < k then i else i + 1;
      var j' := if j < k then j else j + 1;
      assert r[i] == q[i'] && r[j] == q[j'];
    }
  }

  /** Cutting position `k` out of a list without repetitions removes q[k]
      and nothing else. */
  lemma CutElems(q: seq<int>, k: int)
    requires Distinct(q) && 0 <= k < |q|
    ensures Elems(q[..k] + q[k + 1..]) == Elems(q) - {q[k]}
  {
    var r := q[..k] + q[k + 1..];
    forall x
      ensures x in r <==> x in q && x != q[k]
    {
      if x in q && x != q[k] {
        var m :| 0 <= m < |q| && q[m] == x;
        if m < k { assert r[m] == x; } else { assert r[m - 1] == x; }
      }
      if x in r {
        var m :| 0 <= m < |r| && r[m] == x;
        if m < k { assert q[m] == x; } else { assert q[m + 1] == x; }
      }
    }
  }

  /** On a list without repetitions, removal takes out exactly `v`. */
  lemma RemoveFirstDistinct(q: seq<int>, v: int)
    requires Distinct(q)
    ensures Distinct(RemoveFirst(q, v))
    ensures Elems(RemoveFirst(q, v)) == Elems(q) - {v}
  {
    if v in q {
      var k :| 0 <= k < |q| && q[k] == v;
      assert v !in q[..k];
      RemoveFirstAt(q, v, k);
      CutDistinct(q, k);
      CutElems(q, k);
    }
  }

  // ---------------------------------------------------------------------
  // The engine
  // ---------------------------------------------------------------------

  class DijkstraSimple {
    const graph: Graph
    const source: int
    /** Entry v is the cost of the cheapest path to v found so far. */
    const pathCosts: array<Dist>
    /** The vertices not extracted yet. */
    var queue: seq<int>
    /** How many vertices the last run has extracted. */
    ghost var extractions: nat

    ghost predicate Valid()
      reads this, graph
    {
      && graph.numberOfVertices == |graph.adj| == pathCosts.Length
      && forall i :: 0 <= i < |queue| ==> 0 <= queue[i] < pathCosts.Length
    }

    /** One table entry per vertex of the graph, and an empty queue. */
    constructor (g: Graph, s: int)
      requires g.numberOfVertices == |g.adj|
      ensures graph == g && source == s && queue == []
      ensures pathCosts.Length == g.numberOfVertices
      ensures fresh(pathCosts)
      ensures Valid()
    {
      graph := g;
      source := s;
      pathCosts := new Dist[g.numberOfVertices];
      queue := [];
    }

    method GetPathCosts() returns (costs: array<Dist>)
      ensures costs == pathCosts
    {
      costs := pathCosts;
    }

    /** Every entry unreached, and the queue holds 0, 1, ..., n-1 in order. */
    method RunSimpleInitializer()
      requires Valid()
      modifies this, pathCosts
      ensures Valid() && extractions == old(extractions)
      ensures |queue| == pathCosts.Length && forall i :: 0 <= i < |queue| ==> queue[i] == i
      ensures forall v :: 0 <= v < pathCosts.Length ==> pathCosts[v] == Inf
    {
      queue := [];
      var n := graph.GetNumberOfVertices();
      for i := 0 to n
        invariant |queue| == i && forall j :: 0 <= j < i ==> queue[j] == j
        invariant forall v :: 0 <= v < i ==> pathCosts[v] == Inf
        invariant extractions == old(extractions)
      {
        pathCosts[i] := Inf;
        queue := queue + [i];
      }
    }

    /** A queued vertex with the least entry; of several, the first in
        queue order, since only a strictly smaller entry replaces the
        candidate. */
    method GetNextSmallestNode() returns (smallest: int)
      requires Valid() && queue != []
      ensures smallest in queue
      ensures forall q :: q in queue ==> AtMost(pathCosts[smallest], pathCosts[q])
      ensures exists k :: 0 <= k < |queue| && queue[k] == smallest &&
                forall j :: 0 <= j < k ==> Less(pathCosts[smallest], pathCosts[queue[j]])
    {
      smallest := queue[0];
      var smallestCost := pathCosts[smallest];
      ghost var k := 0;
      for i := 0 to |queue|
        invariant 0 <= k < |queue| && (i == 0 ==> k == 0) && (i > 0 ==> k < i)
        invariant smallest == queue[k] && smallestCost == pathCosts[smallest]
        invariant forall j :: 0 <= j < i ==> AtMost(smallestCost, pathCosts[queue[j]])
        invariant forall j :: 0 <= j < k ==> Less(smallestCost, pathCosts[queue[j]])
      {
        var vertex := queue[i];
        if Less(pathCosts[vertex], smallestCost) {
          smallestCost := pathCosts[vertex];
          smallest := vertex;
          k := i;
        }
      }
      forall q | q in queue
        ensures AtMost(pathCosts[smallest], pathCosts[q])
      {
        var j :| 0 <= j < |queue| && queue[j] == q;
      }
    }

    /** Takes the first occurrence of `v` out of the queue; false when `v`
        is not queued. */
    method RemoveMin(v: int) returns (removed: bool)
      requires Valid()
      modifies this
      ensures Valid()
      ensures removed == (v in old(queue))
      ensures queue == RemoveFirst(old(queue), v)
      ensures extractions == old(extractions)
    {
      var i := 0;
      while i < |queue|
        invariant 0 <= i <= |queue| && queue == old(queue)
        invariant v !in queue[..i]
      {
        if queue[i] == v {
          RemoveFirstAt(queue, v, i);
          ghost var q := queue;
          queue := queue[..i] + queue[i + 1..];
          assert forall j :: 0 <= j < |queue| ==> queue[j] == if j < i then q[j] else q[j + 1];
          return true;
        }
        assert queue[..i + 1] == queue[..i] + [queue[i]];
        i := i + 1;
      }
      assert queue[..i] == queue;
      return false;
    }

    /** The start of the run: the initialised table with 0 at the source,
        and every vertex queued once. */
    method StartRun()
      requires Valid() && Runnable(graph.adj) && 0 <= source < |graph.adj|
      modifies this, pathCosts
      ensures Valid() && Distinct(queue) && |queue| == |graph.adj|
      ensures pathCosts[..] == InitialTable(|graph.adj|, source)
      ensures LoopInv(graph.adj, source, pathCosts[..], Elems(queue), seq(|graph.adj|, _ => []))
    {
      RunSimpleInitializer();
      pathCosts[source] := Fin(0);
      ghost var n := |graph.adj|;
      VerticesCount(n);
      assert pathCosts[..] == InitialTable(n, source);
      forall x
        ensures x in Elems(queue) <==> x in Vertices(n)
      {
        if 0 <= x < n {
          assert queue[x] == x;
        }
      }
      InitialLoopInv(graph.adj, source);
    }

    /** The inner loop of the run: offers each neighbour of the extracted
        vertex `u` the path through `u`, lowering its entry when that path
        is strictly cheaper. Entries only go down, and those of extracted
        vertices (`u` among them) stay as they are. */
    method RelaxEdges(u: int, ghost Q: set<int>, ghost W0: seq<seq<Edge>>) returns (ghost W: seq<seq<Edge>>)
      requires Valid() && RelaxInv(graph.adj, source, pathCosts[..], Q, u, 0, W0)
      modifies pathCosts
      ensures LoopInv(graph.adj, source, pathCosts[..], Q, W)
      ensures NoHigher(pathCosts[..], old(pathCosts[..])) && FixedOutside(pathCosts[..], old(pathCosts[..]), Q)
    {
      W := W0;
      ghost var d0 := pathCosts[..];
      var neighbors := graph.adj[u];
      for i := 0 to |neighbors|
        invariant RelaxInv(graph.adj, source, pathCosts[..], Q, u, i, W)
        invariant NoHigher(pathCosts[..], d0) && FixedOutside(pathCosts[..], d0, Q)
      {
        var e := neighbors[i];
        assert e in graph.adj[u];
        ghost var d := pathCosts[..];
        ghost var Wi := W;
        var toReach := Add(pathCosts[u], e.cost);
        if Less(toReach, pathCosts[e.neighbor]) {
          pathCosts[e.neighbor] := toReach;
          W := W[e.neighbor := W[u] + [e]];
        }
        RelaxStep(graph.adj, source, d, Q, u, i, Wi, pathCosts[..], W);
        NoHigherChain(pathCosts[..], d, d0, Q);
      }
      FinishRelax(graph.adj, source, pathCosts[..], Q, u, W);
    }

    /** Extracts the vertices one by one, each time the queued vertex with
        the least entry, and relaxes its edges. The result is the table of
        shortest distances, and every vertex is extracted exactly once. */
    method RunSimpleAlgorithm()
      requires Valid() && Runnable(graph.adj) && 0 <= source < |graph.adj|
      modifies this, pathCosts
      ensures IsShortestTable(graph.adj, source, pathCosts[..])
      ensures queue == [] && extractions == |graph.adj|
    {
      ghost var adj := graph.adj;
      ghost var n := |adj|;
      StartRun();
      ghost var W: seq<seq<Edge>> := seq(n, _ => []);
      extractions := 0;
      while queue != []
        invariant Valid() && graph.adj == adj
        invariant Distinct(queue)
        invariant LoopInv(adj, source, pathCosts[..], Elems(queue), W)
        invariant extractions + |queue| == n
        decreases |queue|
      {
        var u := GetNextSmallestNode();
        ghost var before := queue;
        var removed := RemoveMin(u);
        if !removed {
          // the source throws here; `u` was taken from the queue
          assert false;
        }
        extractions := extractions + 1;
        RemoveFirstDistinct(before, u);
        ghost var Q := Elems(queue);
        StartRelax(adj, source, pathCosts[..], Elems(before), W, u);
        assert Elems(before) - {u} == Q;
        W := RelaxEdges(u, Q, W);
      }
      FinalTable(adj, source, pathCosts[..], W);
    }
  }
}
