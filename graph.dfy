/** The undirected weighted graph of the program: one adjacency list of
    edges per vertex, edge insertion with its rejection rules, the linear
    edge-presence scan and the explicit-stack depth-first connectivity check. */
module GraphModel {

  /** One entry of an adjacency list: the vertex at the other end and the
      cost of the edge. */
  datatype Edge = Edge(neighbor: int, cost: int)

  /** adj[v] is the list of edges of vertex v, in insertion order. */
  type Adjacency = seq<seq<Edge>>

  // ---------------------------------------------------------------------
  // Shape of an adjacency structure
  // ---------------------------------------------------------------------

  /** Every edge leads to a vertex of the graph. */
  ghost predicate EdgesInRange(adj: Adjacency) {
    forall v, e :: 0 <= v < |adj| && e in adj[v] ==> 0 <= e.neighbor < |adj|
  }

  /** An edge from v to w of cost c is matched by one from w to v of cost c. */
  ghost predicate Symmetric(adj: Adjacency)
    requires EdgesInRange(adj)
  {
    forall v, e :: 0 <= v < |adj| && e in adj[v] ==> Edge(v, e.cost) in adj[e.neighbor]
  }

  ghost predicate NoSelfLoops(adj: Adjacency) {
    forall v, e :: 0 <= v < |adj| && e in adj[v] ==> e.neighbor != v
  }

  /** No vertex is listed twice in one adjacency list. */
  ghost predicate NoDuplicates(adj: Adjacency) {
    forall v, i, j :: 0 <= v < |adj| && 0 <= i < j < |adj[v]| ==> adj[v][i].neighbor != adj[v][j].neighbor
  }

  ghost predicate NonzeroCosts(adj: Adjacency) {
    forall v, e :: 0 <= v < |adj| && e in adj[v] ==> e.cost != 0
  }

  ghost predicate PositiveCosts(adj: Adjacency) {
    forall v, e :: 0 <= v < |adj| && e in adj[v] ==> e.cost > 0
  }

  /** What edge insertion keeps true of the adjacency lists. */
  ghost predicate Undirected(adj: Adjacency) {
    && EdgesInRange(adj)
    && Symmetric(adj)
    && NoSelfLoops(adj)
    && NoDuplicates(adj)
    && NonzeroCosts(adj)
  }

  /** Some edge of `source` leads to `dest`. */
  ghost predicate HasNeighbor(adj: Adjacency, source: int, dest: int)
    requires 0 <= source < |adj|
  {
    exists e :: e in adj[source] && e.neighbor == dest
  }

  function EmptyAdjacency(n: nat): (adj: Adjacency)
    ensures |adj| == n && forall v :: 0 <= v < n ==> adj[v] == []
  {
    seq(n, _ => [])
  }

  lemma EmptyAdjacencyUndirected(n: nat)
    ensures Undirected(EmptyAdjacency(n)) && PositiveCosts(EmptyAdjacency(n))
  {
  }

  // ---------------------------------------------------------------------
  // Edge insertion on values
  // ---------------------------------------------------------------------

  /** The three reasons edge insertion refuses an edge. */
  ghost predicate Rejects(adj: Adjacency, v1: int, v2: int, cost: int)
    requires 0 <= v1 < |adj|
    ensures Rejects(adj, v1, v2, cost) <==>
      v1 == v2 || cost == 0 || exists k :: 0 <= k < |adj[v1]| && adj[v1][k].neighbor == v2
  {
    v1 == v2 || cost == 0 || HasNeighbor(adj, v1, v2)
  }

  /** The lists after appending the edge to both of its end points. */
  function Connect(adj: Adjacency, v1: int, v2: int, cost: int): (r: Adjacency)
    requires 0 <= v1 < |adj| && 0 <= v2 < |adj| && v1 != v2
    ensures |r| == |adj|
    ensures r[v1] == adj[v1] + [Edge(v2, cost)]
    ensures r[v2] == adj[v2] + [Edge(v1, cost)]
    ensures forall v :: 0 <= v < |adj| && v != v1 && v != v2 ==> r[v] == adj[v]
  {
    adj[v1 := adj[v1] + [Edge(v2, cost)]][v2 := adj[v2] + [Edge(v1, cost)]]
  }

  /** The lists after one call of edge insertion, accepted or refused. */
  ghost function AfterAddEdge(adj: Adjacency, v1: int, v2: int, cost: int): (r: Adjacency)
    requires 0 <= v1 < |adj| && 0 <= v2 < |adj|
    ensures |r| == |adj|
    ensures Rejects(adj, v1, v2, cost) ==> r == adj
    ensures !Rejects(adj, v1, v2, cost) ==> r[v1] == adj[v1] + [Edge(v2, cost)] && r[v2] == adj[v2] + [Edge(v1, cost)]
    ensures forall v :: 0 <= v < |adj| && v != v1 && v != v2 ==> r[v] == adj[v]
  {
    if Rejects(adj, v1, v2, cost) then adj else Connect(adj, v1, v2, cost)
  }

  /** The edges of the connected lists: the old ones and the two new ones. */
  lemma ConnectEdges(adj: Adjacency, v1: int, v2: int, cost: int)
    requires 0 <= v1 < |adj| && 0 <= v2 < |adj| && v1 != v2
    ensures forall v, e :: 0 <= v < |adj| ==>
      (e in Connect(adj, v1, v2, cost)[v] <==>
         e in adj[v] || (v == v1 && e == Edge(v2, cost)) || (v == v2 && e == Edge(v1, cost)))
  {
  }

  lemma ConnectSymmetric(adj: Adjacency, v1: int, v2: int, cost: int)
    requires Undirected(adj)
    requires 0 <= v1 < |adj| && 0 <= v2 < |adj| && v1 != v2
    ensures EdgesInRange(Connect(adj, v1, v2, cost)) && Symmetric(Connect(adj, v1, v2, cost))
  {
    var r: Adjacency := Connect(adj, v1, v2, cost);
    ConnectEdges(adj, v1, v2, cost);
    forall v: int, e: Edge | 0 <= v < |r| && e in r[v]
      ensures 0 <= e.neighbor < |r|
    {
    }
    forall v: int, e: Edge | 0 <= v < |r| && e in r[v]
      ensures Edge(v, e.cost) in r[e.neighbor]
    {
      if e in adj[v] {
        assert Edge(v, e.cost) in adj[e.neighbor];
      }
    }
  }

  lemma ConnectNoSelfLoops(adj: Adjacency, v1: int, v2: int, cost: int)
    requires Undirected(adj) && cost != 0
    requires 0 <= v1 < |adj| && 0 <= v2 < |adj| && v1 != v2
    ensures NoSelfLoops(Connect(adj, v1, v2, cost)) && NonzeroCosts(Connect(adj, v1, v2, cost))
  {
    ConnectEdges(adj, v1, v2, cost);
  }

  lemma ConnectNoDuplicates(adj: Adjacency, v1: int, v2: int, cost: int)
    requires Undirected(adj)
    requires 0 <= v1 < |adj| && 0 <= v2 < |adj| && v1 != v2 && !HasNeighbor(adj, v1, v2)
    ensures NoDuplicates(Connect(adj, v1, v2, cost))
  {
    var r: Adjacency := Connect(adj, v1, v2, cost);
    forall v: int, i: int, j: int | 0 <= v < |r| && 0 <= i < j < |r[v]|
      ensures r[v][i].neighbor != r[v][j].neighbor
    {
      if v == v1 && j == |r[v]| - 1 {
        assert r[v][i] in adj[v1];
      } else if v == v2 && j == |r[v]| - 1 {
        assert r[v][i] in adj[v2];
      } else {
        assert r[v][i] == adj[v][i] && r[v][j] == adj[v][j];
      }
    }
  }

  /** Edge insertion keeps the graph undirected, loop-free and free of
      duplicate neighbours, whatever it is given. */
  lemma AddEdgeKeepsUndirected(adj: Adjacency, v1: int, v2: int, cost: int)
    requires Undirected(adj)
    requires 0 <= v1 < |adj| && 0 <= v2 < |adj|
    ensures Undirected(AfterAddEdge(adj, v1, v2, cost))
    ensures |AfterAddEdge(adj, v1, v2, cost)| == |adj|
  {
    if !Rejects(adj, v1, v2, cost) {
      ConnectSymmetric(adj, v1, v2, cost);
      ConnectNoSelfLoops(adj, v1, v2, cost);
      ConnectNoDuplicates(adj, v1, v2, cost);
    }
  }

  /** Inserting an edge of positive cost keeps every cost positive. */
  lemma AddEdgeKeepsPositive(adj: Adjacency, v1: int, v2: int, cost: int)
    requires PositiveCosts(adj) && cost > 0
    requires 0 <= v1 < |adj| && 0 <= v2 < |adj|
    ensures PositiveCosts(AfterAddEdge(adj, v1, v2, cost))
  {
    if !Rejects(adj, v1, v2, cost) {
      var r: Adjacency := Connect(adj, v1, v2, cost);
      forall v: int, e: Edge | 0 <= v < |r| && e in r[v]
        ensures e.cost > 0
      {
        if e !in adj[v] {
          assert e.cost == cost;
        }
      }
    }
  }

  // ---------------------------------------------------------------------
  // Walks
  // ---------------------------------------------------------------------

  /** The vertex a walk from `s` along the edges `p` arrives at. */
  function End(s: int, p: seq<Edge>): int {
    if p == [] then s else p[|p| - 1].neighbor
  }

  /** `p` is a walk from `s`: each edge belongs to the list of the vertex
      the walk has reached so far. */
  ghost predicate IsWalk(adj: Adjacency, s: int, p: seq<Edge>)
    decreases |p|
  {
    && 0 <= s < |adj|
    && (p != [] ==>
          var front := p[..|p| - 1];
          && IsWalk(adj, s, front)
          && 0 <= End(s, front) < |adj|
          && p[|p| - 1] in adj[End(s, front)]
          && 0 <= p[|p| - 1].neighbor < |adj|)
  }

  /** The total cost of the edges of a walk. */
  function Cost(p: seq<Edge>): int {
    if p == [] then 0 else Cost(p[..|p| - 1]) + p[|p| - 1].cost
  }

  ghost predicate Reachable(adj: Adjacency, s: int, v: int) {
    exists p :: IsWalk(adj, s, p) && End(s, p) == v
  }

  /** A walk followed by an edge of the vertex it reached is a walk. */
  lemma WalkExtend(adj: Adjacency, s: int, p: seq<Edge>, e: Edge)
    requires IsWalk(adj, s, p)
    requires 0 <= End(s, p) < |adj| && e in adj[End(s, p)] && 0 <= e.neighbor < |adj|
    ensures IsWalk(adj, s, p + [e])
    ensures End(s, p + [e]) == e.neighbor
    ensures Cost(p + [e]) == Cost(p) + e.cost
  {
    assert (p + [e])[..|p|] == p;
  }

  /** The neighbours of a list of edges, last edge first: the order in which
      the search pushes them, so that the last neighbour ends on top. */
  function NeighboursReversed(es: seq<Edge>): (r: seq<int>)
    ensures |r| == |es|
    ensures forall j :: 0 <= j < |es| ==> r[j] == es[|es| - 1 - j].neighbor
  {
    if es == [] then [] else [es[|es| - 1].neighbor] + NeighboursReversed(es[..|es| - 1])
  }

  lemma PushedOneMore(es: seq<Edge>, i: int)
    requires 0 <= i < |es|
    ensures NeighboursReversed(es[..i + 1]) == [es[i].neighbor] + NeighboursReversed(es[..i])
  {
    assert es[..i + 1][..i] == es[..i];
  }

  /** Pushing the neighbours keeps the stack below and puts every neighbour on it. */
  lemma PushedMembers(es: seq<Edge>, stack: seq<int>)
    ensures forall x :: x in stack ==> x in NeighboursReversed(es) + stack
    ensures forall e :: e in es ==> e.neighbor in NeighboursReversed(es) + stack
  {
    var r := NeighboursReversed(es);
    forall e | e in es
      ensures e.neighbor in r + stack
    {
      var j :| 0 <= j < |es| && es[j] == e;
      assert (r + stack)[|es| - 1 - j] == e.neighbor;
    }
  }

  /** The vertices 0 .. n-1. */
  ghost function Vertices(n: int): set<int>
    decreases n
  {
    if n <= 0 then {} else Vertices(n - 1) + {n - 1}
  }

  /** Vertices(n) has exactly the members 0 .. n-1, and so n of them. */
  lemma {:induction false} VerticesCount(n: int)
    ensures forall v :: v in Vertices(n) <==> 0 <= v < n
    ensures |Vertices(n)| == if n < 0 then 0 else n
    decreases n
  {
    if n > 0 {
      VerticesCount(n - 1);
    }
  }

  /** Each vertex recorded in `route` is reached by its recorded walk. */
  ghost predicate RoutesValid(adj: Adjacency, s: int, route: map<int, seq<Edge>>) {
    forall x :: x in route ==> 0 <= x < |adj| && IsWalk(adj, s, route[x]) && End(s, route[x]) == x
  }

  lemma RoutesExtend(adj: Adjacency, s: int, route: map<int, seq<Edge>>, v: int, e: Edge)
    requires RoutesValid(adj, s, route) && v in route
    requires e in adj[v] && 0 <= e.neighbor < |adj|
    ensures RoutesValid(adj, s, route[e.neighbor := route[v] + [e]])
  {
    WalkExtend(adj, s, route[v], e);
  }

  /** No edge of a visited vertex leads outside `visited` and `pending`. */
  ghost predicate Closed(adj: Adjacency, visited: set<int>, pending: seq<int>) {
    forall v, e :: v in visited && 0 <= v < |adj| && e in adj[v] ==> e.neighbor in visited || e.neighbor in pending
  }

  /** A set of vertices that holds `s` and is closed under edges holds
      every vertex reachable from `s`. */
  lemma {:induction false} ClosedHoldsWalkEnds(adj: Adjacency, s: int, visited: set<int>, p: seq<Edge>)
    requires s in visited && Closed(adj, visited, [])
    requires IsWalk(adj, s, p)
    ensures End(s, p) in visited
    decreases |p|
  {
    if p != [] {
      var front := p[..|p| - 1];
      ClosedHoldsWalkEnds(adj, s, visited, front);
    }
  }

  /** When every vertex was visited, every vertex is reachable: each visited
      vertex has a recorded walk. */
  lemma AllVisitedReachable(adj: Adjacency, s: int, visited: set<int>, route: map<int, seq<Edge>>)
    requires visited <= Vertices(|adj|) && |visited| == |adj|
    requires forall x :: x in visited ==> x in route
    requires RoutesValid(adj, s, route)
    ensures forall v :: 0 <= v < |adj| ==> Reachable(adj, s, v)
  {
    var all := Vertices(|adj|);
    VerticesCount(|adj|);
    assert |all - visited| == |all| - |visited| == 0;
    forall v | 0 <= v < |adj|
      ensures Reachable(adj, s, v)
    {
      assert v in all;
      assert v in visited;
      var p := route[v];
      assert IsWalk(adj, s, p) && End(s, p) == v;
    }
  }

  /** A closed set holding `s` holds every reachable vertex. */
  lemma ReachableAllVisited(adj: Adjacency, s: int, visited: set<int>)
    requires s in visited && Closed(adj, visited, [])
    requires visited <= Vertices(|adj|)
    requires forall v :: 0 <= v < |adj| ==> Reachable(adj, s, v)
    ensures |visited| == |adj|
  {
    var all := Vertices(|adj|);
    VerticesCount(|adj|);
    forall v | v in all
      ensures v in visited
    {
      assert Reachable(adj, s, v);
      var p :| IsWalk(adj, s, p) && End(s, p) == v;
      ClosedHoldsWalkEnds(adj, s, visited, p);
    }
    assert all == visited;
  }

  // ---------------------------------------------------------------------
  // The graph object
  // ---------------------------------------------------------------------

  class Graph {
    var numberOfVertices: int
    var adj: Adjacency

    ghost predicate Valid()
      reads this
    {
      numberOfVertices == |adj| && Undirected(adj)
    }

    /** `n` adjacency lists, all empty (none at all for a negative count). */
    constructor (n: int)
      ensures numberOfVertices == n
      ensures |adj| == (if n < 0 then 0 else n)
      ensures forall v :: 0 <= v < |adj| ==> adj[v] == []
      ensures Undirected(adj) && PositiveCosts(adj)
      ensures 0 <= n ==> Valid()
    {
      var lists: Adjacency := [];
      var i := 0;
      while i < n
        invariant 0 <= i && (n >= 0 ==> i <= n) && (n < 0 ==> i == 0)
        invariant |lists| == i
        invariant forall v :: 0 <= v < i ==> lists[v] == []
      {
        lists := lists + [[]];
        i := i + 1;
      }
      numberOfVertices := n;
      adj := lists;
      EmptyAdjacencyUndirected(|lists|);
      assert lists == EmptyAdjacency(|lists|);
    }

    method GetNumberOfVertices() returns (n: int)
      ensures n == numberOfVertices
    {
      n := numberOfVertices;
    }

    /** The list of edges of `source`, as stored. */
    method ReachableNeighbours(source: int) returns (neighbors: seq<Edge>)
      requires 0 <= source < |adj|
      ensures neighbors == adj[source]
    {
      neighbors := adj[source];
    }

    /** Linear scan of the edges of `source` for one leading to `dest`. */
    method IsEdgePresent(source: int, dest: int) returns (present: bool)
      requires 0 <= source < |adj|
      ensures present <==> HasNeighbor(adj, source, dest)
    {
      present := false;
      var neighbors := adj[source];
      var i := 0;
      while i < |neighbors|
        invariant 0 <= i <= |neighbors|
        invariant present <==> exists j :: 0 <= j < i && neighbors[j].neighbor == dest
      {
        if dest == neighbors[i].neighbor {
          present := true;
        }
        i := i + 1;
      }
      if present {
        var j :| 0 <= j < |neighbors| && neighbors[j].neighbor == dest;
        assert neighbors[j] in adj[source];
      }
    }

    /** Adds the edge to both end points unless it is a self-loop, has cost
        zero or its end points are already adjacent. */
    method AddEdge(v1: int, v2: int, cost: int) returns (added: bool)
      requires Valid()
      requires 0 <= v1 < |adj| && 0 <= v2 < |adj|
      modifies this
      ensures Valid() && numberOfVertices == old(numberOfVertices)
      ensures added <==> !Rejects(old(adj), v1, v2, cost)
      ensures adj == AfterAddEdge(old(adj), v1, v2, cost)
      ensures !added ==> adj == old(adj)
      ensures added ==> adj == Connect(old(adj), v1, v2, cost)
    {
      AddEdgeKeepsUndirected(adj, v1, v2, cost);
      if v1 == v2 || cost == 0 {
        return false;
      }
      var present := IsEdgePresent(v1, v2);
      if present {
        return false;
      }
      adj := adj[v1 := adj[v1] + [Edge(v2, cost)]];
      adj := adj[v2 := adj[v2] + [Edge(v1, cost)]];
      added := true;
    }

    /** The inner loop of the search: every neighbour of `vertex` goes on
        top of the stack; a walk is recorded for each one met first. */
    method PushNeighbours(ghost s: int, vertex: int, stack: seq<int>, ghost route: map<int, seq<Edge>>)
      returns (stack': seq<int>, ghost route': map<int, seq<Edge>>)
      requires Valid() && 0 <= vertex < |adj| && vertex in route
      requires RoutesValid(adj, s, route) && forall x :: x in stack ==> x in route
      ensures RoutesValid(adj, s, route') && forall x :: x in stack' ==> x in route'
      ensures forall x :: x in route ==> x in route'
      ensures forall x :: x in stack ==> x in stack'
      ensures forall e :: e in adj[vertex] ==> e.neighbor in stack'
      ensures stack' == NeighboursReversed(adj[vertex]) + stack
    {
      stack' := stack;
      route' := route;
      var neighbors := adj[vertex];
      var i := 0;
      while i < |neighbors|
        invariant 0 <= i <= |neighbors|
        invariant forall x :: x in route ==> x in route'
        invariant forall x :: x in stack' ==> x in route'
        invariant RoutesValid(adj, s, route')
        invariant stack' == NeighboursReversed(neighbors[..i]) + stack
      {
        var e := neighbors[i];
        assert e in adj[vertex];
        if e.neighbor !in route' {
          RoutesExtend(adj, s, route', vertex, e);
          route' := route'[e.neighbor := route'[vertex] + [e]];
        }
        PushedOneMore(neighbors, i);
        stack' := [e.neighbor] + stack';
        i := i + 1;
      }
      assert neighbors[..i] == neighbors;
      PushedMembers(neighbors, stack);
    }

    /** Depth-first search from `s` with an explicit stack; true when every
        vertex is visited. `dense` stands for the source's test of the
        density against 100 percent, which answers true at once. */
    method DepthFirstSearch(s: int, dense: bool) returns (connected: bool)
      requires Valid() && 0 <= s < |adj|
      ensures connected <==> dense || forall v :: 0 <= v < |adj| ==> Reachable(adj, s, v)
    {
      if dense {
        return true;
      }
      var visited: set<int> := {};
      var stack: seq<int> := [s];
      ghost var all := Vertices(|adj|);
      VerticesCount(|adj|);
      ghost var route: map<int, seq<Edge>> := map[s := []];
      while stack != []
        invariant visited <= all
        invariant forall x :: x in stack ==> x in route
        invariant forall x :: x in visited ==> x in route
        invariant RoutesValid(adj, s, route)
        invariant s in visited || s in stack
        invariant Closed(adj, visited, stack)
        decreases |all - visited|, |stack|
      {
        var vertex := stack[0];
        assert vertex in route && vertex in all;
        stack := stack[1..];
        if vertex !in visited {
          assert all - (visited + {vertex}) < all - visited;
          visited := visited + {vertex};
          stack, route := PushNeighbours(s, vertex, stack, route);
        }
      }
      connected := |visited| == numberOfVertices;
      if connected {
        AllVisitedReachable(adj, s, visited, route);
      } else if forall v :: 0 <= v < |adj| ==> Reachable(adj, s, v) {
        ReachableAllVisited(adj, s, visited);
      }
    }

    method IsProperGraph(s: int, dense: bool) returns (connected: bool)
      requires Valid() && 0 <= s < |adj|
      ensures connected <==> dense || forall v :: 0 <= v < |adj| ==> Reachable(adj, s, v)
    {
      connected := DepthFirstSearch(s, dense);
    }
  }
}
