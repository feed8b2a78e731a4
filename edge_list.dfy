/** The file input of the command-line driver. The first line holds the
    source vertex, the second the vertex count and the edge count, and every
    later line one edge "v1 v2 cost". The lines arrive here already split into
    integer tokens. The reading loop applies the driver's rejection rules line
    by line and feeds the accepted edges to edge insertion; the edge count and
    the connectivity of the graph are checked before one of the two engines
    runs. */
module EdgeListInput {
  import opened Wrappers
  import opened GraphModel
  import opened ShortestPaths
  import opened SimpleScheme
  import opened FibScheme

  /** Java's narrowing cast of an int to a 16-bit short: the value with the
      same low 16 bits in [-32768, 32767]. */
  function Short(x: int): (r: int)
    ensures -32768 <= r < 32768
    ensures (x - r) % 65536 == 0
    ensures -32768 <= x < 32768 ==> r == x
  {
    (x + 32768) % 65536 - 32768
  }

  /** Why the driver refuses an input:
      - WrongArguments: a line with the wrong number of tokens, or a vertex
        count or source out of range;
      - InsufficientEdges: fewer declared edges than a connected graph needs;
      - WrongFileInputs: an edge line with a loop, a vertex out of range or a
        cost that is not positive;
      - EdgeCountMismatch: the number of edge lines differs from the count;
      - UnconnectedGraph: some vertex cannot be reached from the source;
      - NoGraph: the input ends before the second line, so there is no graph
        to check (the driver fails on a null graph there). */
  datatype InputError =
    | WrongArguments
    | InsufficientEdges
    | WrongFileInputs
    | EdgeCountMismatch
    | UnconnectedGraph
    | NoGraph

  /** One accepted edge line. */
  datatype EdgeLine = EdgeLine(v1: int, v2: int, cost: int)

  /** What the driver has read so far: the source vertex, the vertex count,
      the declared edge count and the accepted edge lines, in order. */
  datatype ScanState = ScanState(source: int, nodes: int, declared: int, edges: seq<EdgeLine>)

  /** The driver's fields before the first line: all zero. */
  const InitialScan := ScanState(0, 0, 0, [])

  /** An edge line the driver accepts for a graph of `n` vertices. */
  predicate ValidEdge(e: EdgeLine, n: int) {
    e.v1 != e.v2 && 0 <= e.v1 < n && 0 <= e.v2 < n && e.cost > 0
  }

  /** The rules of the second line for the source `s` read before it, the
      vertex count `n` and the edge count `m`. */
  predicate HeaderRules(s: int, n: int, m: int) {
    n > 0 && 0 <= s < n && m >= n - 1
  }

  /** The edge a line of three tokens names, each token cast to short. */
  function EdgeOf(tokens: seq<int>): EdgeLine
    requires |tokens| == 3
  {
    EdgeLine(Short(tokens[0]), Short(tokens[1]), Short(tokens[2]))
  }

  /** A header that passed its checks, with edge lines that passed theirs. */
  predicate WellFormed(st: ScanState) {
    && st.nodes > 0
    && 0 <= st.source < st.nodes
    && st.declared >= st.nodes - 1
    && forall k :: 0 <= k < |st.edges| ==> ValidEdge(st.edges[k], st.nodes)
  }

  // ---------------------------------------------------------------------
  // The checks, as functions of the lines
  // ---------------------------------------------------------------------

  /** Line `i` of the input, read after the state `st`. */
  function ReadLine(st: ScanState, i: nat, tokens: seq<int>): (r: Result<ScanState, InputError>)
    ensures r.Success? && i < 2 ==> r.value.edges == st.edges
    ensures r.Success? && i >= 2 ==>
      && r.value.(edges := st.edges) == st
      && |r.value.edges| == |st.edges| + 1 && r.value.edges[..|st.edges|] == st.edges
      && ValidEdge(r.value.edges[|st.edges|], st.nodes)
    ensures r.Success? && i == 1 ==> r.value.nodes > 0 && 0 <= st.source < r.value.nodes && r.value.declared >= r.value.nodes - 1
    ensures r.Success? && i != 1 ==> r.value.nodes == st.nodes && r.value.declared == st.declared
    ensures r.Success? && i != 0 ==> r.value.source == st.source
  {
    if i == 0 then
      if |tokens| != 1 then Failure(WrongArguments)
      else Success(st.(source := Short(tokens[0])))
    else if i == 1 then
      if |tokens| != 2 then Failure(WrongArguments)
      else
        var n := Short(tokens[0]);
        if n <= 0 || st.source < 0 || st.source >= n then Failure(WrongArguments)
        else if tokens[1] < n - 1 then Failure(InsufficientEdges)
        else Success(st.(nodes := n, declared := tokens[1]))
    else
      if |tokens| != 3 then Failure(WrongArguments)
      else
        var v1 := Short(tokens[0]);
        var v2 := Short(tokens[1]);
        if v1 == v2 || v1 < 0 || v1 >= st.nodes || v2 < 0 || v2 >= st.nodes then Failure(WrongFileInputs)
        else
          var cost := Short(tokens[2]);
          if cost <= 0 then Failure(WrongFileInputs)
          else Success(st.(edges := st.edges + [EdgeLine(v1, v2, cost)]))
  }

  /** The rules of one line: which lines are accepted, what an accepted
      line sets, and the error a refused line reports. */
  lemma ReadLineRules(st: ScanState, i: nat, tokens: seq<int>)
    // which lines are accepted, and what they set
    ensures i == 0 ==> (ReadLine(st, i, tokens).Success? <==> |tokens| == 1)
    ensures i == 0 && ReadLine(st, i, tokens).Success? ==>
      ReadLine(st, i, tokens).value == st.(source := Short(tokens[0]))
    ensures i == 1 ==>
      (ReadLine(st, i, tokens).Success? <==> |tokens| == 2 && HeaderRules(st.source, Short(tokens[0]), tokens[1]))
    ensures i == 1 && ReadLine(st, i, tokens).Success? ==>
      ReadLine(st, i, tokens).value == st.(nodes := Short(tokens[0]), declared := tokens[1])
    ensures i >= 2 ==>
      (ReadLine(st, i, tokens).Success? <==> |tokens| == 3 && ValidEdge(EdgeOf(tokens), st.nodes))
    ensures i >= 2 && ReadLine(st, i, tokens).Success? ==>
      ReadLine(st, i, tokens).value == st.(edges := st.edges + [EdgeOf(tokens)])
    // the error a refused line reports
    ensures ReadLine(st, i, tokens).Failure? && (i == 0 || |tokens| != (if i == 1 then 2 else 3)) ==>
      ReadLine(st, i, tokens).error == WrongArguments
    ensures ReadLine(st, i, tokens).Failure? && i == 1 && |tokens| == 2 ==>
      ReadLine(st, i, tokens).error ==
        if Short(tokens[0]) > 0 && 0 <= st.source < Short(tokens[0]) then InsufficientEdges else WrongArguments
    ensures ReadLine(st, i, tokens).Failure? && i >= 2 && |tokens| == 3 ==>
      ReadLine(st, i, tokens).error == WrongFileInputs
  {
  }

  /** The lines read in order from the initial state; the first refused
      line decides the error. Once the header is read it is well formed, and
      every line after it is an accepted edge. */
  function ReadLines(lines: seq<seq<int>>): (r: Result<ScanState, InputError>)
    ensures r.Success? && |lines| < 2 ==> r.value.declared == 0 && r.value.edges == []
    ensures r.Success? && |lines| >= 2 ==> WellFormed(r.value) && |r.value.edges| == |lines| - 2
    decreases |lines|
  {
    if lines == [] then Success(InitialScan)
    else
      match ReadLines(lines[..|lines| - 1])
      case Failure(e) => Failure(e)
      case Success(st) => ReadLine(st, |lines| - 1, lines[|lines| - 1])
  }

  /** The verdict on the whole input before the connectivity check: the
      lines, then the edge count, then the presence of a graph. */
  function Parse(lines: seq<seq<int>>): (r: Result<ScanState, InputError>)
    ensures r.Success? ==> |lines| >= 2 && WellFormed(r.value)
    ensures r.Success? ==> |r.value.edges| == r.value.declared == |lines| - 2
    ensures r.Failure? && ReadLines(lines).Success? ==> r.error == EdgeCountMismatch || r.error == NoGraph
  {
    match ReadLines(lines)
    case Failure(e) => Failure(e)
    case Success(st) =>
      if |st.edges| != st.declared then Failure(EdgeCountMismatch)
      else if |lines| < 2 then Failure(NoGraph)
      else Success(st)
  }

  /** The accepted inputs, line by line and without recursion: a source line
      of one token, a header of two tokens that obeys the header rules, and
      edge lines of three tokens that each name a valid edge. */
  ghost predicate AcceptedLines(lines: seq<seq<int>>) {
    && |lines| >= 2 && |lines[0]| == 1 && |lines[1]| == 2
    && HeaderRules(Short(lines[0][0]), Short(lines[1][0]), lines[1][1])
    && forall k :: 2 <= k < |lines| ==> |lines[k]| == 3 && ValidEdge(EdgeOf(lines[k]), Short(lines[1][0]))
  }

  /** The state an accepted input leaves: its source, its counts and the
      edges of its lines after the header, in order. */
  ghost function ScanOf(lines: seq<seq<int>>): ScanState
    requires AcceptedLines(lines)
  {
    ScanState(Short(lines[0][0]), Short(lines[1][0]), lines[1][1],
              seq(|lines| - 2, k requires 0 <= k < |lines| - 2 => EdgeOf(lines[k + 2])))
  }

  /** Reading the lines accepts exactly the inputs `AcceptedLines`
      describes, and leaves the state `ScanOf`. */
  lemma {:induction false} ReadLinesAccepted(lines: seq<seq<int>>)
    requires |lines| >= 2
    ensures ReadLines(lines).Success? <==> AcceptedLines(lines)
    ensures ReadLines(lines).Success? ==> ReadLines(lines).value == ScanOf(lines)
    decreases |lines|
  {
    var before := lines[..|lines| - 1];
    var last := lines[|lines| - 1];
    if |lines| == 2 {
      var first := lines[..1];
      assert first[..0] == [] && before == first;
      assert ReadLines(first) == ReadLine(InitialScan, 0, lines[0]);
      ReadLineRules(InitialScan, 0, lines[0]);
      if ReadLines(first).Success? {
        ReadLineRules(ReadLines(first).value, 1, lines[1]);
      }
    } else {
      ReadLinesAccepted(before);
      if ReadLines(before).Success? {
        ReadLineRules(ReadLines(before).value, |lines| - 1, last);
      }
      assert forall k :: 0 <= k < |before| ==> before[k] == lines[k];
      assert AcceptedLines(lines) <==>
        AcceptedLines(before) && |last| == 3 && ValidEdge(EdgeOf(last), Short(lines[1][0]));
      if AcceptedLines(lines) {
        assert ScanOf(lines).edges == ScanOf(before).edges + [EdgeOf(last)];
      }
    }
  }

  /** The whole verdict before the connectivity check, without recursion:
      an input passes exactly when its lines are accepted and the declared
      edge count equals the number of edge lines, and it then yields
      `ScanOf`. */
  lemma ParseAccepts(lines: seq<seq<int>>)
    ensures Parse(lines).Success? <==> AcceptedLines(lines) && lines[1][1] == |lines| - 2
    ensures Parse(lines).Success? ==> Parse(lines).value == ScanOf(lines)
  {
    if |lines| >= 2 {
      ReadLinesAccepted(lines);
    }
  }

  /** A refused line refuses the whole input with its error. */
  lemma {:induction false} ReadLinesFailureStays(lines: seq<seq<int>>, i: nat)
    requires i <= |lines| && ReadLines(lines[..i]).Failure?
    ensures ReadLines(lines) == ReadLines(lines[..i])
    decreases |lines| - i
  {
    if i < |lines| {
      var next := lines[..i + 1];
      assert next[..i] == lines[..i];
      assert ReadLines(next) == ReadLines(lines[..i]);
      ReadLinesFailureStays(lines, i + 1);
    } else {
      assert lines[..i] == lines;
    }
  }

  // ---------------------------------------------------------------------
  // The graph the input describes
  // ---------------------------------------------------------------------

  /** The adjacency lists edge insertion builds from `n` empty lists and the
      accepted edges, in order. A repeated edge is refused by edge insertion
      and leaves the lists unchanged. */
  ghost function BuildGraph(n: nat, edges: seq<EdgeLine>): (adj: Adjacency)
    requires forall k :: 0 <= k < |edges| ==> ValidEdge(edges[k], n)
    ensures |adj| == n && Undirected(adj) && PositiveCosts(adj)
    decreases |edges|
  {
    if edges == [] then
      EmptyAdjacencyUndirected(n);
      EmptyAdjacency(n)
    else
      var last := edges[|edges| - 1];
      assert ValidEdge(last, n);
      var before := BuildGraph(n, edges[..|edges| - 1]);
      AddEdgeKeepsUndirected(before, last.v1, last.v2, last.cost);
      AddEdgeKeepsPositive(before, last.v1, last.v2, last.cost);
      AfterAddEdge(before, last.v1, last.v2, last.cost)
  }

  /** The graph of a well-formed input. */
  ghost function InputGraph(st: ScanState): (adj: Adjacency)
    requires WellFormed(st)
    ensures |adj| == st.nodes && Runnable(adj)
  {
    BuildGraph(st.nodes, st.edges)
  }

  /** Every vertex is reachable from `s`. */
  ghost predicate ConnectedFrom(adj: Adjacency, s: int) {
    forall v :: 0 <= v < |adj| ==> Reachable(adj, s, v)
  }

  /** The verdict of the driver on `lines`: the input when every check,
      connectivity included, passes. */
  ghost function Verdict(lines: seq<seq<int>>): (r: Result<ScanState, InputError>)
    ensures r.Success? ==> Parse(lines) == r && ConnectedFrom(InputGraph(r.value), r.value.source)
    ensures Parse(lines).Failure? ==> r == Parse(lines)
    ensures Parse(lines).Success? && r.Failure? ==> r.error == UnconnectedGraph
    ensures Parse(lines).Success? ==>
      (r.Success? <==> ConnectedFrom(InputGraph(Parse(lines).value), Parse(lines).value.source))
  {
    match Parse(lines)
    case Failure(e) => Failure(e)
    case Success(st) =>
      if ConnectedFrom(InputGraph(st), st.source) then Success(st) else Failure(UnconnectedGraph)
  }

  // ---------------------------------------------------------------------
  // The density shortcut of the connectivity check
  // ---------------------------------------------------------------------

  /** The shortcut as the driver takes it: the declared edge count divided
      by the n(n-1)/2 possible edges is a fraction, at most 1 for a simple
      graph, yet it is compared with the percentage 100 that makes the depth
      first search answer true at once. For these integer ranges the
      floating-point quotient equals 100 exactly when the declared count is
      50 n(n-1); with one vertex the divisor is 0 and the quotient is never
      100. */
  predicate FileDense(nodes: int, declared: int)
    ensures nodes >= 2 ==>
      (FileDense(nodes, declared) <==> (declared as real) / ((nodes * (nodes - 1)) as real / 2.0) == 100.0)
  {
    nodes >= 2 && 2 * declared == 100 * nodes * (nodes - 1)
  }

  /** The verdict as the driver computes it, with the shortcut. */
  ghost function VerdictAsWritten(lines: seq<seq<int>>): (r: Result<ScanState, InputError>)
    ensures Parse(lines).Failure? ==> r == Parse(lines)
    ensures Parse(lines).Success? ==>
      (r.Success? <==> FileDense(Parse(lines).value.nodes, Parse(lines).value.declared) ||
                       ConnectedFrom(InputGraph(Parse(lines).value), Parse(lines).value.source))
  {
    match Parse(lines)
    case Failure(e) => Failure(e)
    case Success(st) =>
      if FileDense(st.nodes, st.declared) || ConnectedFrom(InputGraph(st), st.source) then Success(st)
      else Failure(UnconnectedGraph)
  }

  /** The same edge line `k` times after a header. */
  function RepeatedEdgeInput(source: int, nodes: int, declared: int, line: seq<int>, k: nat): seq<seq<int>> {
    [[source], [nodes, declared]] + seq(k, _ => line)
  }

  /** Reading the header of 3 vertices and 300 edges and then the line
      "0 1 5" again and again accepts every copy. */
  lemma RepeatedEdgeRead(k: nat)
    ensures ReadLines(RepeatedEdgeInput(0, 3, 300, [0, 1, 5], k)) ==
            Success(ScanState(0, 3, 300, seq(k, _ => EdgeLine(0, 1, 5))))
  {
    var lines := RepeatedEdgeInput(0, 3, 300, [0, 1, 5], k);
    assert lines[0] == [0] && lines[1] == [3, 300];
    assert forall j :: 2 <= j < |lines| ==> lines[j] == [0, 1, 5];
    assert Short(0) == 0 && Short(1) == 1 && Short(3) == 3 && Short(5) == 5;
    assert AcceptedLines(lines);
    ReadLinesAccepted(lines);
    assert ScanOf(lines).edges == seq(k, _ => EdgeLine(0, 1, 5));
  }

  /** Inserting the edge 0-1 of cost 5 again and again into 3 empty lists
      keeps only the first copy. */
  lemma {:induction false} RepeatedEdgeGraph(k: nat)
    requires k >= 1
    ensures BuildGraph(3, seq(k, _ => EdgeLine(0, 1, 5))) == [[Edge(1, 5)], [Edge(0, 5)], []]
  {
    var edges := seq(k, _ => EdgeLine(0, 1, 5));
    if k == 1 {
      assert edges == [EdgeLine(0, 1, 5)];
      FirstEdgeGraph();
    } else {
      var once: Adjacency := [[Edge(1, 5)], [Edge(0, 5)], []];
      assert edges[..k - 1] == seq(k - 1, _ => EdgeLine(0, 1, 5));
      RepeatedEdgeGraph(k - 1);
      assert once[0][0].neighbor == 1;
      assert Rejects(once, 0, 1, 5);
    }
  }

  /** The first copy of the edge 0-1 of cost 5 is inserted. */
  lemma FirstEdgeGraph()
    ensures BuildGraph(3, [EdgeLine(0, 1, 5)]) == [[Edge(1, 5)], [Edge(0, 5)], []]
  {
    var edges := [EdgeLine(0, 1, 5)];
    var empty: Adjacency := [[], [], []];
    assert edges[..0] == [];
    assert BuildGraph(3, []) == EmptyAdjacency(3) == empty;
    assert !Rejects(empty, 0, 1, 5);
    var r := AfterAddEdge(empty, 0, 1, 5);
    assert r[0] == [Edge(1, 5)] && r[1] == [Edge(0, 5)] && r[2] == [];
  }

  /** In the lists holding only the edge 0-1, vertex 2 cannot be reached
      from vertex 0. */
  lemma OneEdgeUnconnected()
    ensures !ConnectedFrom([[Edge(1, 5)], [Edge(0, 5)], []], 0)
  {
    var adj: Adjacency := [[Edge(1, 5)], [Edge(0, 5)], []];
    var side := {0, 1};
    assert Closed(adj, side, []);
    forall p | IsWalk(adj, 0, p)
      ensures End(0, p) != 2
    {
      ClosedHoldsWalkEnds(adj, 0, side, p);
    }
    assert !Reachable(adj, 0, 2);
  }

  /** The counterexample to the shortcut: 300 copies of the line "0 1 5"
      after the header "0" / "3 300" pass every check of the driver as
      written, the 300 declared edges making the quotient exactly 100, yet
      vertex 2 has no edge at all and cannot be reached from the source. The
      corrected verdict refuses the same input. */
  lemma DensityShortcutAcceptsUnconnected()
    ensures var lines := RepeatedEdgeInput(0, 3, 300, [0, 1, 5], 300);
      && VerdictAsWritten(lines).Success?
      && !ConnectedFrom(InputGraph(VerdictAsWritten(lines).value), 0)
      && Verdict(lines) == Failure(UnconnectedGraph)
  {
    var lines := RepeatedEdgeInput(0, 3, 300, [0, 1, 5], 300);
    var st := ScanState(0, 3, 300, seq(300, _ => EdgeLine(0, 1, 5)));
    RepeatedEdgeRead(300);
    assert Parse(lines) == Success(st);
    RepeatedEdgeGraph(300);
    OneEdgeUnconnected();
  }

  // ---------------------------------------------------------------------
  // The reading loop
  // ---------------------------------------------------------------------

  /** The graph built while reading, and the source vertex. */
  datatype Loaded = Loaded(graph: Graph, source: int)

  /** One edge line: its checks, then edge insertion, which may refuse a
      repeated edge; an accepted line counts either way. */
  method ReadEdgeLine(graph: Graph, i: nat, tokens: seq<int>, ghost st: ScanState) returns (failure: Option<InputError>)
    requires i >= 2 && WellFormed(st) && graph.Valid() && graph.adj == InputGraph(st)
    modifies graph
    ensures failure.None? <==> ReadLine(st, i, tokens).Success?
    ensures failure.Some? ==> ReadLine(st, i, tokens) == Failure(failure.value)
    ensures failure.None? ==> graph.Valid() && graph.adj == InputGraph(ReadLine(st, i, tokens).value)
  {
    if |tokens| != 3 {
      return Some(WrongArguments);
    }
    var v1 := Short(tokens[0]);
    var v2 := Short(tokens[1]);
    if v1 == v2 || v1 < 0 || v1 >= graph.numberOfVertices || v2 < 0 || v2 >= graph.numberOfVertices {
      return Some(WrongFileInputs);
    }
    var cost := Short(tokens[2]);
    if cost <= 0 {
      return Some(WrongFileInputs);
    }
    var _ := graph.AddEdge(v1, v2, cost);
    ghost var next := ReadLine(st, i, tokens).value;
    assert next.edges[..|st.edges|] == st.edges;
    return None;
  }

  /** The reading loop of the driver: checks line after line, creates the
      graph on the second line and inserts each accepted edge, counting it
      whether or not insertion keeps it; then compares the count. */
  method ReadEdgeList(lines: seq<seq<int>>) returns (r: Result<Loaded, InputError>)
    ensures r.Failure? <==> Parse(lines).Failure?
    ensures r.Failure? ==> r.error == Parse(lines).error
    ensures r.Success? ==> && fresh(r.value.graph) && r.value.graph.Valid()
                           && r.value.source == Parse(lines).value.source
                           && r.value.graph.adj == InputGraph(Parse(lines).value)
  {
    var sourceNode := 0;
    var numberOfNodes := 0;
    var numberOfEdges := 0;
    var edgesAdded := 0;
    var graph: Graph? := null;
    ghost var st := InitialScan;
    for i := 0 to |lines|
      invariant ReadLines(lines[..i]) == Success(st)
      invariant st.source == sourceNode && st.nodes == numberOfNodes && st.declared == numberOfEdges
      invariant |st.edges| == edgesAdded
      invariant i < 2 ==> graph == null
      invariant i >= 2 ==> graph != null && fresh(graph) && graph.Valid() && graph.adj == InputGraph(st)
    {
      var tokens := lines[i];
      assert lines[..i + 1][..i] == lines[..i] && lines[..i + 1][i] == tokens;
      ghost var next := ReadLine(st, i, tokens);
      assert ReadLines(lines[..i + 1]) == next;
      var failure: Option<InputError> := None;
      if i == 0 {
        if |tokens| != 1 {
          failure := Some(WrongArguments);
        } else {
          sourceNode := Short(tokens[0]);
        }
      } else if i == 1 {
        if |tokens| != 2 {
          failure := Some(WrongArguments);
        } else {
          numberOfNodes := Short(tokens[0]);
          if numberOfNodes <= 0 || sourceNode < 0 || sourceNode >= numberOfNodes {
            failure := Some(WrongArguments);
          } else {
            numberOfEdges := tokens[1];
            if numberOfEdges < numberOfNodes - 1 {
              failure := Some(InsufficientEdges);
            } else {
              graph := new Graph(numberOfNodes);
              assert graph.adj == EmptyAdjacency(numberOfNodes);
            }
          }
        }
      } else {
        failure := ReadEdgeLine(graph, i, tokens, st);
        if failure.None? {
          edgesAdded := edgesAdded + 1;
        }
      }
      if failure.Some? {
        assert next == Failure(failure.value);
        ReadLinesFailureStays(lines, i + 1);
        return Failure(failure.value);
      }
      st := next.value;
    }
    assert lines[..|lines|] == lines;
    if edgesAdded != numberOfEdges {
      return Failure(EdgeCountMismatch);
    }
    if graph == null {
      return Failure(NoGraph);
    }
    return Success(Loaded(graph, sourceNode));
  }

  // ---------------------------------------------------------------------
  // The drivers
  // ---------------------------------------------------------------------

  /** The simple-scheme file driver: reads the input, checks that every
      vertex is reachable from the source and runs the simple scheme. It
      fails exactly when some check fails, with that check's error, and
      otherwise returns the table of shortest distances of the input graph. */
  method SimpleSchemeFileInput(lines: seq<seq<int>>) returns (r: Result<seq<Dist>, InputError>)
    ensures r.Failure? <==> Verdict(lines).Failure?
    ensures r.Failure? ==> r.error == Verdict(lines).error
    ensures r.Success? ==> IsShortestTable(InputGraph(Verdict(lines).value), Verdict(lines).value.source, r.value)
  {
    var loaded := ReadEdgeList(lines);
    if loaded.Failure? {
      return Failure(loaded.error);
    }
    var g := loaded.value.graph;
    var source := loaded.value.source;
    var connected := g.DepthFirstSearch(source, false);
    if !connected {
      return Failure(UnconnectedGraph);
    }
    var algo := new DijkstraSimple(g, source);
    algo.RunSimpleAlgorithm();
    var costs := algo.GetPathCosts();
    return Success(costs[..]);
  }

  /** The Fibonacci-scheme file driver: the same checks, then the
      Fibonacci scheme. */
  method FibonacciSchemeFileInput(lines: seq<seq<int>>) returns (r: Result<seq<Dist>, InputError>)
    ensures r.Failure? <==> Verdict(lines).Failure?
    ensures r.Failure? ==> r.error == Verdict(lines).error
    ensures r.Success? ==> IsShortestTable(InputGraph(Verdict(lines).value), Verdict(lines).value.source, r.value)
  {
    var loaded := ReadEdgeList(lines);
    if loaded.Failure? {
      return Failure(loaded.error);
    }
    var g := loaded.value.graph;
    var source := loaded.value.source;
    var connected := g.DepthFirstSearch(source, false);
    if !connected {
      return Failure(UnconnectedGraph);
    }
    var algo := new DijkstraFib(g, source);
    algo.RunFibonacciAlgorithm();
    var costs := algo.GetPathCostsFib();
    return Success(costs[..]);
  }

  /** Both schemes on one graph and source, as the randomized run does:
      they return the same table, that of the shortest distances. */
  method RunBothSchemes(g: Graph, source: int) returns (simple: seq<Dist>, fib: seq<Dist>)
    requires g.Valid() && PositiveCosts(g.adj) && 0 <= source < |g.adj|
    ensures IsShortestTable(g.adj, source, simple)
    ensures simple == fib
  {
    var algo := new DijkstraSimple(g, source);
    algo.RunSimpleAlgorithm();
    var costs := algo.GetPathCosts();
    simple := costs[..];
    var algoFib := new DijkstraFib(g, source);
    algoFib.RunFibonacciAlgorithm();
    var costsFib := algoFib.GetPathCostsFib();
    fib := costsFib[..];
    ShortestTableUnique(g.adj, source, simple, fib);
  }
}
