/** What both Dijkstra schemes compute, and the facts their main loops keep.
    The two engines share this reasoning; they differ only in how they find
    the next vertex to extract. */
module ShortestPaths {
  import opened GraphModel

  /** A distance-table entry. Inf plays the part of Integer.MAX_VALUE, the
      value the source gives a vertex it has not reached yet. */
  datatype Dist = Inf | Fin(len: nat)

  /** Integer.MAX_VALUE, the value the source stores for a vertex not
      reached yet. */
  const MaxInt := 0x7fff_ffff

  /** The Java integer an entry stands for. */
  function IntValue(d: Dist): int {
    if d.Inf? then MaxInt else d.len
  }

  /** An entry the source can hold without clashing with MAX_VALUE. */
  predicate Representable(d: Dist) {
    d.Inf? || d.len < MaxInt
  }

  /** `pathCosts[u] + cost`: a vertex not reached yet offers no path, where
      the source's 32-bit sum would leave MAX_VALUE. */
  function Add(d: Dist, cost: nat): (r: Dist)
    ensures r.Inf? <==> d.Inf?
    ensures d.Fin? ==> IntValue(r) == IntValue(d) + cost
  {
    if d.Inf? then Inf else Fin(d.len + cost)
  }

  /** The source's `<` on path costs, with Inf above every finite cost. */
  predicate Less(a: Dist, b: Dist)
    ensures Representable(a) && Representable(b) ==> (Less(a, b) <==> IntValue(a) < IntValue(b))
  {
    a.Fin? && (b.Inf? || a.len < b.len)
  }

  predicate AtMost(a: Dist, b: Dist) {
    !Less(b, a)
  }

  /** The entry `d` is finite and no more than `k`. */
  predicate AtMostCost(d: Dist, k: int) {
    d.Fin? && d.len <= k
  }

  /** What the engines need of a graph: every edge leads to a vertex of the
      graph and costs a positive amount. */
  ghost predicate Runnable(adj: Adjacency) {
    EdgesInRange(adj) && PositiveCosts(adj)
  }

  /** `d` is the table of shortest distances from `s`: each finite entry is
      the cost of some walk from `s` to that vertex, and no walk from `s`
      costs less than the entry of the vertex it ends at. A vertex no walk
      reaches keeps Inf. (The end of a walk is always a vertex, so the range
      test in the last line only keeps the indexing well-formed.) */
  ghost predicate IsShortestTable(adj: Adjacency, s: int, d: seq<Dist>) {
    && 0 <= s < |adj|
    && |d| == |adj|
    && (forall v :: 0 <= v < |d| && d[v].Fin? ==>
          exists p :: IsWalk(adj, s, p) && End(s, p) == v && Cost(p) == d[v].len)
    && (forall p :: IsWalk(adj, s, p) && 0 <= End(s, p) < |d| ==> AtMostCost(d[End(s, p)], Cost(p)))
  }

  /** There is only one table of shortest distances, so any two engines that
      compute one agree entry by entry. */
  lemma ShortestTableUnique(adj: Adjacency, s: int, d1: seq<Dist>, d2: seq<Dist>)
    requires IsShortestTable(adj, s, d1) && IsShortestTable(adj, s, d2)
    ensures d1 == d2
  {
    forall v | 0 <= v < |d1|
      ensures d1[v] == d2[v]
    {
      if d1[v].Fin? {
        var p :| IsWalk(adj, s, p) && End(s, p) == v && Cost(p) == d1[v].len;
        assert AtMostCost(d2[v], Cost(p));
      }
      if d2[v].Fin? {
        var p :| IsWalk(adj, s, p) && End(s, p) == v && Cost(p) == d2[v].len;
        assert AtMostCost(d1[v], Cost(p));
      }
    }
  }

  /** A table of shortest distances has 0 at the source, is finite exactly at
      the vertices reachable from the source, and no edge (u, v, c) offers v
      a path cheaper than d[v]. */
  lemma ShortestTableFacts(adj: Adjacency, s: int, d: seq<Dist>)
    requires Runnable(adj) && IsShortestTable(adj, s, d)
    ensures d[s] == Fin(0)
    ensures forall v :: 0 <= v < |d| ==> (d[v].Fin? <==> Reachable(adj, s, v))
    ensures forall u, e :: 0 <= u < |adj| && e in adj[u] ==> AtMost(d[e.neighbor], Add(d[u], e.cost))
  {
    assert IsWalk(adj, s, []) && End(s, []) == s && Cost([]) == 0;
    forall v | 0 <= v < |d|
      ensures d[v].Fin? <==> Reachable(adj, s, v)
    {
      if Reachable(adj, s, v) {
        var p :| IsWalk(adj, s, p) && End(s, p) == v;
        assert AtMostCost(d[End(s, p)], Cost(p));
      }
    }
    forall u, e | 0 <= u < |adj| && e in adj[u]
      ensures AtMost(d[e.neighbor], Add(d[u], e.cost))
    {
      if d[u].Fin? {
        var p :| IsWalk(adj, s, p) && End(s, p) == u && Cost(p) == d[u].len;
        WalkExtend(adj, s, p, e);
        assert AtMostCost(d[End(s, p + [e])], Cost(p + [e]));
      }
    }
  }

  // ---------------------------------------------------------------------
  // The main loop of both schemes
  // ---------------------------------------------------------------------

  /** The table right after initialisation: 0 at the source, Inf elsewhere. */
  function InitialTable(n: nat, s: int): (d: seq<Dist>)
    ensures |d| == n
    ensures forall v :: 0 <= v < n ==> d[v] == if v == s then Fin(0) else Inf
  {
    seq(n, v => if v == s then Fin(0) else Inf)
  }

  /** Entries 0 .. i-1 of `d` are those of the initial table. */
  ghost predicate InitialUpTo(d: seq<Dist>, s: int, i: int) {
    forall v :: 0 <= v < i && v < |d| ==> d[v] == if v == s then Fin(0) else Inf
  }

  /** A table that is 0 at the source and Inf elsewhere is the initial one. */
  lemma InitialTableOf(d: seq<Dist>, s: int)
    requires InitialUpTo(d, s, |d|)
    ensures d == InitialTable(|d|, s)
  {
  }

  /** W[v] is a walk from `s` to v costing d[v], wherever d[v] is finite. */
  ghost predicate Witnessed(adj: Adjacency, s: int, d: seq<Dist>, W: seq<seq<Edge>>) {
    |d| == |W| &&
    forall v :: 0 <= v < |d| && d[v].Fin? ==> IsWalk(adj, s, W[v]) && End(s, W[v]) == v && Cost(W[v]) == d[v].len
  }

  /** No edge of `x` offers its far end a path cheaper than its entry. */
  ghost predicate EdgesRelaxed(adj: Adjacency, d: seq<Dist>, x: int)
    requires Runnable(adj) && |d| == |adj| && 0 <= x < |adj|
  {
    forall e :: e in adj[x] ==> AtMost(d[e.neighbor], Add(d[x], e.cost))
  }

  /** The entry of `x` is no more than that of any vertex of Q. */
  ghost predicate BelowAll(d: seq<Dist>, Q: set<int>, x: int)
    requires 0 <= x < |d|
  {
    forall q :: q in Q && 0 <= q < |d| ==> AtMost(d[x], d[q])
  }

  /** Kept by the main loop; Q is the set of vertices still queued. Every
      extracted vertex has had all its edges relaxed, and no extracted vertex
      has a larger entry than a queued one. */
  ghost predicate LoopInv(adj: Adjacency, s: int, d: seq<Dist>, Q: set<int>, W: seq<seq<Edge>>) {
    && Runnable(adj)
    && 0 <= s < |adj| && |d| == |adj|
    && (forall q :: q in Q ==> 0 <= q < |adj|)
    && d[s] == Fin(0)
    && Witnessed(adj, s, d, W)
    && (forall x :: 0 <= x < |adj| && x !in Q ==> EdgesRelaxed(adj, d, x))
    && (forall x :: 0 <= x < |adj| && x !in Q ==> BelowAll(d, Q, x))
  }

  /** Kept while the edges of the extracted vertex `u` are relaxed; the
      first `i` of them are done, Q no longer holds `u`. */
  ghost predicate RelaxInv(adj: Adjacency, s: int, d: seq<Dist>, Q: set<int>, u: int, i: int, W: seq<seq<Edge>>) {
    && Runnable(adj)
    && 0 <= s < |adj| && |d| == |adj|
    && 0 <= u < |adj| && u !in Q && 0 <= i <= |adj[u]|
    && (forall q :: q in Q ==> 0 <= q < |adj|)
    && d[s] == Fin(0)
    && Witnessed(adj, s, d, W)
    && (forall x :: 0 <= x < |adj| && x !in Q && x != u ==> EdgesRelaxed(adj, d, x))
    && (forall j :: 0 <= j < i ==> adj[u][j] in adj[u] && AtMost(d[adj[u][j].neighbor], Add(d[u], adj[u][j].cost)))
    && (forall x :: 0 <= x < |adj| && x !in Q ==> BelowAll(d, Q, x))
    && (forall x :: 0 <= x < |adj| && x !in Q ==> AtMost(d[x], d[u]))
  }

  /** Initialisation puts every vertex in the queue with the initial table. */
  lemma InitialLoopInv(adj: Adjacency, s: int)
    requires Runnable(adj) && 0 <= s < |adj|
    ensures LoopInv(adj, s, InitialTable(|adj|, s), Vertices(|adj|), seq(|adj|, _ => []))
  {
    VerticesCount(|adj|);
    var d := InitialTable(|adj|, s);
    var W: seq<seq<Edge>> := seq(|adj|, _ => []);
    assert IsWalk(adj, s, W[s]);
  }

  /** Extracting a queued vertex with the least entry starts its relaxation. */
  lemma StartRelax(adj: Adjacency, s: int, d: seq<Dist>, Q: set<int>, W: seq<seq<Edge>>, u: int)
    requires LoopInv(adj, s, d, Q, W)
    requires u in Q && forall q :: q in Q ==> AtMost(d[u], d[q])
    ensures RelaxInv(adj, s, d, Q - {u}, u, 0, W)
  {
  }

  /** No entry of `d'` is above the matching entry of `d`. */
  ghost predicate NoHigher(d': seq<Dist>, d: seq<Dist>) {
    |d'| == |d| && forall v :: 0 <= v < |d| ==> AtMost(d'[v], d[v])
  }

  /** `d'` and `d` agree at every vertex outside `Q`. */
  ghost predicate FixedOutside(d': seq<Dist>, d: seq<Dist>, Q: set<int>) {
    |d'| == |d| && forall x :: 0 <= x < |d| && x !in Q ==> d'[x] == d[x]
  }

  lemma NoHigherChain(d2: seq<Dist>, d1: seq<Dist>, d0: seq<Dist>, Q: set<int>)
    requires NoHigher(d2, d1) && NoHigher(d1, d0)
    requires FixedOutside(d2, d1, Q) && FixedOutside(d1, d0, Q)
    ensures NoHigher(d2, d0) && FixedOutside(d2, d0, Q)
  {
  }

  /** Relaxing one edge of the extracted vertex. The entry of the far end
      changes only when the path through `u` is strictly cheaper; it only
      ever goes down; and it never changes for an extracted vertex, which is
      why that vertex is always still queued when it does change. */
  lemma RelaxStep(adj: Adjacency, s: int, d: seq<Dist>, Q: set<int>, u: int, i: int, W: seq<seq<Edge>>,
                  d': seq<Dist>, W': seq<seq<Edge>>)
    requires RelaxInv(adj, s, d, Q, u, i, W) && i < |adj[u]|
    requires adj[u][i] in adj[u]
    requires if Less(Add(d[u], adj[u][i].cost), d[adj[u][i].neighbor])
             then d' == d[adj[u][i].neighbor := Add(d[u], adj[u][i].cost)] && W' == W[adj[u][i].neighbor := W[u] + [adj[u][i]]]
             else d' == d && W' == W
    ensures RelaxInv(adj, s, d', Q, u, i + 1, W')
    ensures Less(Add(d[u], adj[u][i].cost), d[adj[u][i].neighbor]) ==> adj[u][i].neighbor in Q
    ensures NoHigher(d', d) && FixedOutside(d', d, Q)
  {
    var e := adj[u][i];
    if Less(Add(d[u], e.cost), d[e.neighbor]) {
      RelaxLowers(adj, s, d, Q, u, i, W);
    } else {
      RelaxKeeps(adj, s, d, Q, u, i, W);
    }
  }

  /** The path through `u` is no cheaper: nothing changes. */
  lemma RelaxKeeps(adj: Adjacency, s: int, d: seq<Dist>, Q: set<int>, u: int, i: int, W: seq<seq<Edge>>)
    requires RelaxInv(adj, s, d, Q, u, i, W) && i < |adj[u]|
    requires adj[u][i] in adj[u]
    requires !Less(Add(d[u], adj[u][i].cost), d[adj[u][i].neighbor])
    ensures RelaxInv(adj, s, d, Q, u, i + 1, W)
  {
  }

  /** An extracted vertex is never offered a strictly cheaper path by the
      vertex extracted after it, because edge costs are positive. */
  lemma ExtractedNeverRelaxed(adj: Adjacency, s: int, d: seq<Dist>, Q: set<int>, u: int, i: int, W: seq<seq<Edge>>,
                              x: int, cost: nat)
    requires RelaxInv(adj, s, d, Q, u, i, W)
    requires 0 <= x < |adj| && x !in Q && cost > 0
    ensures !Less(Add(d[u], cost), d[x])
  {
    assert AtMost(d[x], d[u]);
  }

  /** Lowering the entry of `e`'s far end to the cost of W[u] + [e] keeps
      every finite entry witnessed by a walk. */
  lemma LowerWitnessed(adj: Adjacency, s: int, d: seq<Dist>, W: seq<seq<Edge>>, u: int, e: Edge)
    requires Witnessed(adj, s, d, W) && |d| == |adj|
    requires 0 <= u < |adj| && d[u].Fin? && e in adj[u] && 0 <= e.neighbor < |adj| && e.cost >= 0
    ensures Witnessed(adj, s, d[e.neighbor := Add(d[u], e.cost)], W[e.neighbor := W[u] + [e]])
  {
    WalkExtend(adj, s, W[u], e);
  }

  /** Lowering the entry of a queued vertex to no less than d[u] keeps the
      ordering between extracted and queued vertices. */
  lemma LowerOrdered(adj: Adjacency, s: int, d: seq<Dist>, Q: set<int>, u: int, i: int, W: seq<seq<Edge>>,
                     v: int, k: Dist)
    requires RelaxInv(adj, s, d, Q, u, i, W)
    requires v in Q && v != u && AtMost(d[u], k)
    ensures forall x, q :: 0 <= x < |adj| && x !in Q && q in Q ==> AtMost(d[v := k][x], d[v := k][q])
    ensures forall x :: 0 <= x < |adj| && x !in Q ==> AtMost(d[v := k][x], d[v := k][u])
  {
    forall x, q | 0 <= x < |adj| && x !in Q && q in Q
      ensures AtMost(d[v := k][x], d[v := k][q])
    {
      assert AtMost(d[x], d[q]);
      assert AtMost(d[x], d[u]);
    }
  }

  /** Lowering the entry of a queued vertex keeps the edges of extracted
      vertices other than `u` relaxed, and those of `u` up to `i`, and adds
      edge `i` of `u` when the new entry is the path through it. */
  lemma LowerRelaxed(adj: Adjacency, s: int, d: seq<Dist>, Q: set<int>, u: int, i: int, W: seq<seq<Edge>>)
    requires RelaxInv(adj, s, d, Q, u, i, W) && i < |adj[u]|
    requires adj[u][i].neighbor in Q && AtMost(Add(d[u], adj[u][i].cost), d[adj[u][i].neighbor])
    ensures var d' := d[adj[u][i].neighbor := Add(d[u], adj[u][i].cost)];
      && (forall x, f :: 0 <= x < |adj| && x !in Q && x != u && f in adj[x] ==> AtMost(d'[f.neighbor], Add(d'[x], f.cost)))
      && (forall j :: 0 <= j < i + 1 ==> adj[u][j] in adj[u] && AtMost(d'[adj[u][j].neighbor], Add(d'[u], adj[u][j].cost)))
  {
    var v := adj[u][i].neighbor;
    var d' := d[v := Add(d[u], adj[u][i].cost)];
    forall x, f | 0 <= x < |adj| && x !in Q && x != u && f in adj[x]
      ensures AtMost(d'[f.neighbor], Add(d'[x], f.cost))
    {
      assert d'[x] == d[x];
      assert AtMost(d[f.neighbor], Add(d[x], f.cost));
    }
    forall j | 0 <= j < i + 1
      ensures adj[u][j] in adj[u] && AtMost(d'[adj[u][j].neighbor], Add(d'[u], adj[u][j].cost))
    {
      if j < i {
        assert AtMost(d[adj[u][j].neighbor], Add(d[u], adj[u][j].cost));
      }
    }
  }

  /** The path through `u` is strictly cheaper: the far end is still queued
      and its entry drops to that path's cost. */
  lemma RelaxLowers(adj: Adjacency, s: int, d: seq<Dist>, Q: set<int>, u: int, i: int, W: seq<seq<Edge>>)
    requires RelaxInv(adj, s, d, Q, u, i, W) && i < |adj[u]|
    requires adj[u][i] in adj[u]
    requires Less(Add(d[u], adj[u][i].cost), d[adj[u][i].neighbor])
    ensures adj[u][i].neighbor in Q
    ensures RelaxInv(adj, s, d[adj[u][i].neighbor := Add(d[u], adj[u][i].cost)], Q, u, i + 1,
                     W[adj[u][i].neighbor := W[u] + [adj[u][i]]])
  {
    var e := adj[u][i];
    var v := e.neighbor;
    if v !in Q {
      ExtractedNeverRelaxed(adj, s, d, Q, u, i, W, v, e.cost);
    }
    assert v != u && v != s;
    LowerWitnessed(adj, s, d, W, u, e);
    LowerOrdered(adj, s, d, Q, u, i, W, v, Add(d[u], e.cost));
    LowerRelaxed(adj, s, d, Q, u, i, W);
  }

  /** With all edges of `u` relaxed, `u` counts as extracted. */
  lemma FinishRelax(adj: Adjacency, s: int, d: seq<Dist>, Q: set<int>, u: int, W: seq<seq<Edge>>)
    requires 0 <= u < |adj| && RelaxInv(adj, s, d, Q, u, |adj[u]|, W)
    ensures LoopInv(adj, s, d, Q, W)
  {
    forall x, e | 0 <= x < |adj| && x !in Q && e in adj[x]
      ensures AtMost(d[e.neighbor], Add(d[x], e.cost))
    {
      if x == u {
        var j :| 0 <= j < |adj[u]| && adj[u][j] == e;
      }
    }
  }

  /** Every walk from `s` either ends at an extracted vertex whose entry is
      no more than the walk's cost, or costs at least `m`, a lower bound of
      the queued entries (Inf when the queue is empty). */
  lemma {:induction false} WalkBound(adj: Adjacency, s: int, d: seq<Dist>, Q: set<int>, W: seq<seq<Edge>>,
                                     m: Dist, p: seq<Edge>)
    requires LoopInv(adj, s, d, Q, W)
    requires forall q :: q in Q ==> AtMost(m, d[q])
    requires IsWalk(adj, s, p)
    ensures 0 <= End(s, p) < |d|
    ensures (End(s, p) !in Q && AtMostCost(d[End(s, p)], Cost(p))) || AtMostCost(m, Cost(p))
    decreases |p|
  {
    if p == [] {
      assert End(s, p) == s && Cost(p) == 0;
    } else {
      var front := p[..|p| - 1];
      var e := p[|p| - 1];
      WalkBound(adj, s, d, Q, W, m, front);
      var x := End(s, front);
      assert e in adj[x];
      assert Cost(p) == Cost(front) + e.cost;
    }
  }

  /** When the queue is empty, the table is the table of shortest distances. */
  lemma FinalTable(adj: Adjacency, s: int, d: seq<Dist>, W: seq<seq<Edge>>)
    requires LoopInv(adj, s, d, {}, W)
    ensures IsShortestTable(adj, s, d)
  {
    forall p | IsWalk(adj, s, p) && 0 <= End(s, p) < |d|
      ensures AtMostCost(d[End(s, p)], Cost(p))
    {
      WalkBound(adj, s, d, {}, W, Inf, p);
    }
    forall v | 0 <= v < |d| && d[v].Fin?
      ensures exists p :: IsWalk(adj, s, p) && End(s, p) == v && Cost(p) == d[v].len
    {
      assert IsWalk(adj, s, W[v]) && End(s, W[v]) == v && Cost(W[v]) == d[v].len;
    }
  }
}
