/** The connectivity graph of `solve_connectivity` (editor.py): which points
    the editor considers joined, as an undirected adjacency map, and
    reachability along it.

    Python keys the graph by the strings `f"{x},{y}"`; here a key is the exact
    point.  Four rules add edges, in this order: every wire joins its two
    ends; an end of one wire lying on another wire is joined to that other
    wire's START; a terminal lying on a wire is joined to the wire's start;
    two terminals closer than 15 are joined.  Nothing else adds an edge. */
module Connectivity {
  import opened Geometry
  import opened Components
  import opened Document

  /** The default tolerance of `is_point_on_segment`. */
  const SegmentTolerance: real := 5.0

  /** `connection_tolerance` for terminals that touch without a wire. */
  const ConnectionTolerance: real := 15.0

  predicate OnWire(p: Point, w: Wire) {
    IsPointOnSegment(p, w.start, w.end, SegmentTolerance)
  }

  /** One `(comp, term, tx, ty)` of `all_terminals`. */
  datatype TermEntry = TermEntry(comp: Component, term: Terminal, at: Point)

  function EntryOf(c: Component, k: nat): TermEntry
    requires k < |c.terminals|
  {
    TermEntry(c, c.terminals[k], TerminalAt(c, c.terminals[k].rel))
  }

  function EntriesOf(c: Component): (r: seq<TermEntry>)
    ensures |r| == |c.terminals|
    ensures forall k :: 0 <= k < |r| ==> r[k] == EntryOf(c, k)
  {
    seq(|c.terminals|, k requires 0 <= k < |c.terminals| => EntryOf(c, k))
  }

  /** `all_terminals`: the terminals of every component, component by
      component, each in terminal order. */
  function AllTerminals(comps: seq<Component>): (r: seq<TermEntry>)
    ensures forall e :: e in r <==>
      exists i, k :: 0 <= i < |comps| && 0 <= k < |comps[i].terminals| && e == EntryOf(comps[i], k)
  {
    if |comps| == 0 then []
    else
      var rest := AllTerminals(comps[1..]);
      assert forall e :: e in rest <==>
        exists i, k :: 1 <= i < |comps| && 0 <= k < |comps[i].terminals| && e == EntryOf(comps[i], k) by {
        forall e | e in rest
          ensures exists i, k :: 1 <= i < |comps| && 0 <= k < |comps[i].terminals| && e == EntryOf(comps[i], k)
        {
          var i, k :| 0 <= i < |comps[1..]| && 0 <= k < |comps[1..][i].terminals| && e == EntryOf(comps[1..][i], k);
          assert comps[1..][i] == comps[i + 1];
        }
        forall e, i, k | 1 <= i < |comps| && 0 <= k < |comps[i].terminals| && e == EntryOf(comps[i], k)
          ensures e in rest
        {
          assert comps[1..][i - 1] == comps[i];
        }
      }
      EntriesOf(comps[0]) + rest
  }

  /** The list runs component by component: it distributes over
      concatenation, and one component contributes its terminals in order. */
  lemma AllTerminalsInOrder(a: seq<Component>, b: seq<Component>)
    ensures AllTerminals(a + b) == AllTerminals(a) + AllTerminals(b)
    ensures forall c :: AllTerminals([c]) == EntriesOf(c)
  {
    AllTerminalsAppend(a, b);
    forall c
      ensures AllTerminals([c]) == EntriesOf(c)
    {
      AllTerminalsCons([c]);
      assert [c][1..] == [];
    }
  }

  lemma {:induction false} AllTerminalsAppend(a: seq<Component>, b: seq<Component>)
    ensures AllTerminals(a + b) == AllTerminals(a) + AllTerminals(b)
    decreases |a|
  {
    if |a| > 0 {
      var ab := a + b;
      assert ab[0] == a[0] && ab[1..] == a[1..] + b;
      AllTerminalsAppend(a[1..], b);
      AllTerminalsCons(ab);
      AllTerminalsCons(a);
    } else {
      assert a + b == b;
    }
  }

  lemma AllTerminalsCons(s: seq<Component>)
    requires |s| > 0
    ensures AllTerminals(s) == EntriesOf(s[0]) + AllTerminals(s[1..])
  {
  }

  /** The position of every component terminal is among `all_terminals`. */
  lemma TerminalListed(comps: seq<Component>, i: nat, k: nat)
    requires i < |comps| && k < |comps[i].terminals|
    ensures TermEntry(comps[i], comps[i].terminals[k], AbsTerminals(comps[i])[k].at) in AllTerminals(comps)
  {
    assert EntryOf(comps[i], k) == TermEntry(comps[i], comps[i].terminals[k], AbsTerminals(comps[i])[k].at);
  }

  // ---------------------------------------------------------------- edges

  datatype Edge = Edge(a: Point, b: Point)

  /** The edges `cell(a, b)` for every `a < rows` and `b < cols`, row by row:
      the shape of the editor's nested `for` loops. */
  function Grid(rows: nat, cols: nat, cell: (nat, nat) -> seq<Edge>): seq<Edge> {
    GridFrom(rows, cols, cell, 0)
  }

  function GridFrom(rows: nat, cols: nat, cell: (nat, nat) -> seq<Edge>, a: nat): seq<Edge>
    decreases rows - a
  {
    if a >= rows then [] else RowFrom(cols, cell, a, 0) + GridFrom(rows, cols, cell, a + 1)
  }

  function RowFrom(cols: nat, cell: (nat, nat) -> seq<Edge>, a: nat, b: nat): seq<Edge>
    decreases cols - b
  {
    if b >= cols then [] else cell(a, b) + RowFrom(cols, cell, a, b + 1)
  }

  lemma {:induction false} RowFromMembers(cols: nat, cell: (nat, nat) -> seq<Edge>, a: nat, b: nat, e: Edge)
    ensures e in RowFrom(cols, cell, a, b) <==> exists j :: b <= j < cols && e in cell(a, j)
    decreases cols - b
  {
    if b < cols {
      var rest := RowFrom(cols, cell, a, b + 1);
      assert RowFrom(cols, cell, a, b) == cell(a, b) + rest;
      RowFromMembers(cols, cell, a, b + 1, e);
      if e in rest {
        var j :| b + 1 <= j < cols && e in cell(a, j);
        assert b <= j < cols && e in cell(a, j);
      }
      if exists j :: b <= j < cols && e in cell(a, j) {
        var j :| b <= j < cols && e in cell(a, j);
        if j > b {
          assert e in rest;
        }
      }
    }
  }

  lemma {:induction false} GridFromMembers(rows: nat, cols: nat, cell: (nat, nat) -> seq<Edge>, a: nat, e: Edge)
    ensures e in GridFrom(rows, cols, cell, a) <==> exists i, j :: a <= i < rows && 0 <= j < cols && e in cell(i, j)
    decreases rows - a
  {
    if a < rows {
      var row, rest := RowFrom(cols, cell, a, 0), GridFrom(rows, cols, cell, a + 1);
      assert GridFrom(rows, cols, cell, a) == row + rest;
      GridFromMembers(rows, cols, cell, a + 1, e);
      RowFromMembers(cols, cell, a, 0, e);
      if e in row {
        var j :| 0 <= j < cols && e in cell(a, j);
        assert a <= a < rows && 0 <= j < cols && e in cell(a, j);
      }
      if exists i, j :: a <= i < rows && 0 <= j < cols && e in cell(i, j) {
        var i, j :| a <= i < rows && 0 <= j < cols && e in cell(i, j);
        if i > a {
          assert e in rest;
        } else {
          assert e in row;
        }
      }
    }
  }

  /** An edge is in the grid exactly when some cell produced it. */
  lemma GridMembers(rows: nat, cols: nat, cell: (nat, nat) -> seq<Edge>, e: Edge)
    ensures e in Grid(rows, cols, cell) <==> exists i, j :: 0 <= i < rows && 0 <= j < cols && e in cell(i, j)
  {
    GridFromMembers(rows, cols, cell, 0, e);
  }

  /** Rule 1: `add_edge(wire.start_p, wire.end_p)` for every wire. */
  function WireCell(wires: seq<Wire>): (nat, nat) -> seq<Edge> {
    (i: nat, j: nat) => if i < |wires| then [Edge(wires[i].start, wires[i].end)] else []
  }

  function WireEdges(wires: seq<Wire>): seq<Edge> {
    Grid(|wires|, 1, WireCell(wires))
  }

  /** Rule 2 for one ordered pair: an end of wire `i` on wire `j` is joined to
      the start of wire `j`; a wire is never compared with itself. */
  function JunctionPair(wires: seq<Wire>, i: nat, j: nat): seq<Edge>
    requires i < |wires| && j < |wires|
  {
    if i == j then []
    else
      (if OnWire(wires[i].start, wires[j]) then [Edge(wires[i].start, wires[j].start)] else [])
      + (if OnWire(wires[i].end, wires[j]) then [Edge(wires[i].end, wires[j].start)] else [])
  }

  function JunctionCell(wires: seq<Wire>): (nat, nat) -> seq<Edge> {
    (i: nat, j: nat) => if i < |wires| && j < |wires| then JunctionPair(wires, i, j) else []
  }

  function JunctionEdges(wires: seq<Wire>): seq<Edge> {
    Grid(|wires|, |wires|, JunctionCell(wires))
  }

  /** Rule 3: a terminal on a wire is joined to that wire's start. */
  function TerminalCell(terms: seq<TermEntry>, wires: seq<Wire>): (nat, nat) -> seq<Edge> {
    (i: nat, j: nat) =>
      if i < |terms| && j < |wires| && OnWire(terms[i].at, wires[j]) then [Edge(terms[i].at, wires[j].start)] else []
  }

  function TerminalEdges(terms: seq<TermEntry>, wires: seq<Wire>): seq<Edge> {
    Grid(|terms|, |wires|, TerminalCell(terms, wires))
  }

  /** Rule 4: two terminals (each pair once) closer than the connection tolerance. */
  function ProximityCell(terms: seq<TermEntry>): (nat, nat) -> seq<Edge> {
    (i: nat, j: nat) =>
      if i < j < |terms| && WithinDist(terms[i].at, terms[j].at, ConnectionTolerance)
      then [Edge(terms[i].at, terms[j].at)] else []
  }

  function ProximityEdges(terms: seq<TermEntry>): seq<Edge> {
    Grid(|terms|, |terms|, ProximityCell(terms))
  }

  /** Every `add_edge` call of `solve_connectivity`, in call order. */
  function AllEdges(terms: seq<TermEntry>, wires: seq<Wire>): seq<Edge> {
    WireEdges(wires) + JunctionEdges(wires) + TerminalEdges(terms, wires) + ProximityEdges(terms)
  }

  // The four rules, stated directly.

  ghost predicate WireRule(wires: seq<Wire>, e: Edge) {
    exists i :: 0 <= i < |wires| && e == Edge(wires[i].start, wires[i].end)
  }

  /** Wire `i` has an end on wire `j`, and `e` joins that end to `j`'s start. */
  predicate JunctionHit(wires: seq<Wire>, i: nat, j: nat, e: Edge)
    requires i < |wires| && j < |wires|
  {
    i != j &&
    ((OnWire(wires[i].start, wires[j]) && e == Edge(wires[i].start, wires[j].start)) ||
     (OnWire(wires[i].end, wires[j]) && e == Edge(wires[i].end, wires[j].start)))
  }

  ghost predicate JunctionRule(wires: seq<Wire>, e: Edge) {
    exists i, j :: 0 <= i < |wires| && 0 <= j < |wires| && JunctionHit(wires, i, j, e)
  }

  ghost predicate TerminalRule(terms: seq<TermEntry>, wires: seq<Wire>, e: Edge) {
    exists i, j :: 0 <= i < |terms| && 0 <= j < |wires| &&
      OnWire(terms[i].at, wires[j]) && e == Edge(terms[i].at, wires[j].start)
  }

  ghost predicate ProximityRule(terms: seq<TermEntry>, e: Edge) {
    exists i, j :: 0 <= i < j < |terms| &&
      WithinDist(terms[i].at, terms[j].at, ConnectionTolerance) && e == Edge(terms[i].at, terms[j].at)
  }

  ghost predicate Linked(terms: seq<TermEntry>, wires: seq<Wire>, e: Edge) {
    WireRule(wires, e) || JunctionRule(wires, e) || TerminalRule(terms, wires, e) || ProximityRule(terms, e)
  }

  lemma WireEdgesExact(wires: seq<Wire>, e: Edge)
    ensures e in WireEdges(wires) <==> WireRule(wires, e)
  {
    GridMembers(|wires|, 1, WireCell(wires), e);
    if WireRule(wires, e) {
      var i :| 0 <= i < |wires| && e == Edge(wires[i].start, wires[i].end);
      assert e in WireCell(wires)(i, 0);
    }
  }

  lemma JunctionEdgesExact(wires: seq<Wire>, e: Edge)
    ensures e in JunctionEdges(wires) <==> JunctionRule(wires, e)
  {
    var cell := JunctionCell(wires);
    GridMembers(|wires|, |wires|, cell, e);
    if e in JunctionEdges(wires) {
      var i, j :| 0 <= i < |wires| && 0 <= j < |wires| && e in cell(i, j);
      JunctionPairHit(wires, i, j, e);
    }
    if JunctionRule(wires, e) {
      var i, j :| 0 <= i < |wires| && 0 <= j < |wires| && JunctionHit(wires, i, j, e);
      JunctionPairHit(wires, i, j, e);
      assert e in cell(i, j);
    }
  }

  lemma JunctionPairHit(wires: seq<Wire>, i: nat, j: nat, e: Edge)
    requires i < |wires| && j < |wires|
    ensures e in JunctionPair(wires, i, j) <==> JunctionHit(wires, i, j, e)
  {
  }

  lemma TerminalEdgesExact(terms: seq<TermEntry>, wires: seq<Wire>, e: Edge)
    ensures e in TerminalEdges(terms, wires) <==> TerminalRule(terms, wires, e)
  {
    var cell := TerminalCell(terms, wires);
    GridMembers(|terms|, |wires|, cell, e);
    if TerminalRule(terms, wires, e) {
      var i, j :| 0 <= i < |terms| && 0 <= j < |wires| && OnWire(terms[i].at, wires[j]) && e == Edge(terms[i].at, wires[j].start);
      assert e in cell(i, j);
    }
  }

  lemma ProximityEdgesExact(terms: seq<TermEntry>, e: Edge)
    ensures e in ProximityEdges(terms) <==> ProximityRule(terms, e)
  {
    var cell := ProximityCell(terms);
    GridMembers(|terms|, |terms|, cell, e);
    if ProximityRule(terms, e) {
      var i, j :| 0 <= i < j < |terms| && WithinDist(terms[i].at, terms[j].at, ConnectionTolerance) && e == Edge(terms[i].at, terms[j].at);
      assert e in cell(i, j);
    }
  }

  /** The edge list holds exactly the edges the four rules call for. */
  lemma AllEdgesExact(terms: seq<TermEntry>, wires: seq<Wire>, e: Edge)
    ensures e in AllEdges(terms, wires) <==> Linked(terms, wires, e)
  {
    WireEdgesExact(wires, e);
    JunctionEdgesExact(wires, e);
    TerminalEdgesExact(terms, wires, e);
    ProximityEdgesExact(terms, e);
  }

  // ---------------------------------------------------------------- adjacency

  type Adjacency = map<Point, seq<Point>>

  predicate Adjacent(adj: Adjacency, p: Point, q: Point) {
    p in adj && q in adj[p]
  }

  function Append(adj: Adjacency, p: Point, q: Point): (r: Adjacency)
    ensures r.Keys == adj.Keys + {p}
    ensures r[p] == (if p in adj then adj[p] else []) + [q]
    ensures forall k :: k in adj && k != p ==> r[k] == adj[k]
  {
    adj[p := (if p in adj then adj[p] else []) + [q]]
  }

  /** `add_edge`: both directions, creating missing keys. */
  function AddEdge(adj: Adjacency, e: Edge): (r: Adjacency)
    ensures forall p, q :: Adjacent(r, p, q) <==> Adjacent(adj, p, q) || (p == e.a && q == e.b) || (p == e.b && q == e.a)
    ensures r.Keys == adj.Keys + {e.a, e.b}
    ensures forall p :: p in adj ==> |r[p]| >= |adj[p]|
    ensures |r[e.a]| > 0 && |r[e.b]| > 0
  {
    Append(Append(adj, e.a, e.b), e.b, e.a)
  }

  /** The adjacency after `add_edge` on every edge in order. */
  function BuildAdjacency(edges: seq<Edge>): (r: Adjacency)
    ensures forall p, q :: Adjacent(r, p, q) <==> Edge(p, q) in edges || Edge(q, p) in edges
    ensures forall p :: p in r ==> |r[p]| > 0
  {
    if |edges| == 0 then map[]
    else
      var prev := BuildAdjacency(edges[..|edges| - 1]);
      var e := edges[|edges| - 1];
      assert edges == edges[..|edges| - 1] + [e];
      AddEdge(prev, e)
  }

  ghost predicate Symmetric(adj: Adjacency) {
    forall p, q :: Adjacent(adj, p, q) ==> Adjacent(adj, q, p)
  }

  /** Every neighbour listed is itself a key. */
  ghost predicate NeighboursAreKeys(adj: Adjacency) {
    forall p, q :: Adjacent(adj, p, q) ==> q in adj
  }

  lemma BuiltAdjacencySymmetric(edges: seq<Edge>)
    ensures Symmetric(BuildAdjacency(edges))
    ensures NeighboursAreKeys(BuildAdjacency(edges))
  {
    var adj := BuildAdjacency(edges);
    forall p, q | Adjacent(adj, p, q)
      ensures Adjacent(adj, q, p) && q in adj
    {
    }
  }

  /** The graph `solve_connectivity` builds for a document. */
  function Graph(comps: seq<Component>, wires: seq<Wire>): Adjacency {
    BuildAdjacency(AllEdges(AllTerminals(comps), wires))
  }

  /** Two points are adjacent exactly when one of the four rules links them,
      in one direction or the other. */
  lemma GraphAdjacentIff(comps: seq<Component>, wires: seq<Wire>, p: Point, q: Point)
    ensures Adjacent(Graph(comps, wires), p, q) <==>
      Linked(AllTerminals(comps), wires, Edge(p, q)) || Linked(AllTerminals(comps), wires, Edge(q, p))
  {
    AllEdgesExact(AllTerminals(comps), wires, Edge(p, q));
    AllEdgesExact(AllTerminals(comps), wires, Edge(q, p));
  }

  /** Every wire joins its two ends. */
  lemma WireEndsAdjacent(comps: seq<Component>, wires: seq<Wire>, i: nat)
    requires i < |wires|
    ensures Adjacent(Graph(comps, wires), wires[i].start, wires[i].end)
    ensures Adjacent(Graph(comps, wires), wires[i].end, wires[i].start)
  {
    GraphAdjacentIff(comps, wires, wires[i].start, wires[i].end);
  }

  /** An end of one wire lying on another wire is joined to that wire's start. */
  lemma JunctionAdjacent(comps: seq<Component>, wires: seq<Wire>, i: nat, j: nat)
    requires i < |wires| && j < |wires| && i != j
    ensures OnWire(wires[i].start, wires[j]) ==> Adjacent(Graph(comps, wires), wires[i].start, wires[j].start)
    ensures OnWire(wires[i].end, wires[j]) ==> Adjacent(Graph(comps, wires), wires[i].end, wires[j].start)
  {
    if OnWire(wires[i].start, wires[j]) {
      assert JunctionHit(wires, i, j, Edge(wires[i].start, wires[j].start));
      GraphAdjacentIff(comps, wires, wires[i].start, wires[j].start);
    }
    if OnWire(wires[i].end, wires[j]) {
      assert JunctionHit(wires, i, j, Edge(wires[i].end, wires[j].start));
      GraphAdjacentIff(comps, wires, wires[i].end, wires[j].start);
    }
  }

  /** A terminal lying on a wire is joined to that wire's start. */
  lemma TerminalOnWireAdjacent(comps: seq<Component>, wires: seq<Wire>, t: TermEntry, j: nat)
    requires t in AllTerminals(comps) && j < |wires| && OnWire(t.at, wires[j])
    ensures Adjacent(Graph(comps, wires), t.at, wires[j].start)
  {
    var terms := AllTerminals(comps);
    var i :| 0 <= i < |terms| && terms[i] == t;
    assert TerminalRule(terms, wires, Edge(t.at, wires[j].start));
    GraphAdjacentIff(comps, wires, t.at, wires[j].start);
  }

  /** Two different entries of `all_terminals` closer than the connection
      tolerance are joined. */
  lemma NearTerminalsAdjacent(comps: seq<Component>, wires: seq<Wire>, i: nat, j: nat)
    requires i < |AllTerminals(comps)| && j < |AllTerminals(comps)| && i != j
    requires WithinDist(AllTerminals(comps)[i].at, AllTerminals(comps)[j].at, ConnectionTolerance)
    ensures Adjacent(Graph(comps, wires), AllTerminals(comps)[i].at, AllTerminals(comps)[j].at)
  {
    var terms := AllTerminals(comps);
    var p, q := terms[i].at, terms[j].at;
    GraphAdjacentIff(comps, wires, p, q);
    if i < j {
      assert ProximityRule(terms, Edge(p, q));
    } else {
      Dist2Symmetric(p, q);
      assert ProximityRule(terms, Edge(q, p));
    }
  }

  // ---------------------------------------------------------------- paths

  ghost predicate IsPath(adj: Adjacency, path: seq<Point>) {
    |path| > 0 && forall i :: 0 <= i < |path| - 1 ==> Adjacent(adj, path[i], path[i + 1])
  }

  ghost predicate Reachable(adj: Adjacency, p: Point, q: Point) {
    exists path :: IsPath(adj, path) && path[0] == p && path[|path| - 1] == q
  }

  lemma ReachableRefl(adj: Adjacency, p: Point)
    ensures Reachable(adj, p, p)
  {
    assert IsPath(adj, [p]);
  }

  lemma ReachableStep(adj: Adjacency, p: Point, q: Point, r: Point)
    requires Reachable(adj, p, q) && Adjacent(adj, q, r)
    ensures Reachable(adj, p, r)
  {
    var path :| IsPath(adj, path) && path[0] == p && path[|path| - 1] == q;
    var longer := path + [r];
    assert IsPath(adj, longer);
  }

  lemma {:induction false} ReversePath(adj: Adjacency, path: seq<Point>)
    requires Symmetric(adj) && IsPath(adj, path)
    ensures Reachable(adj, path[|path| - 1], path[0])
    decreases |path|
  {
    if |path| == 1 {
      ReachableRefl(adj, path[0]);
    } else {
      var init := path[..|path| - 1];
      assert IsPath(adj, init);
      ReversePath(adj, init);
      var q, last := path[|path| - 2], path[|path| - 1];
      assert Adjacent(adj, q, last);
      ReachableRefl(adj, last);
      ReachableStep(adj, last, last, q);
      ReachableTrans(adj, last, q, path[0]);
    }
  }

  /** Reachability along a symmetric adjacency goes both ways. */
  lemma ReachableSymmetric(adj: Adjacency, p: Point, q: Point)
    requires Symmetric(adj) && Reachable(adj, p, q)
    ensures Reachable(adj, q, p)
  {
    var path :| IsPath(adj, path) && path[0] == p && path[|path| - 1] == q;
    ReversePath(adj, path);
  }

  lemma ReachableTrans(adj: Adjacency, p: Point, q: Point, r: Point)
    requires Reachable(adj, p, q) && Reachable(adj, q, r)
    ensures Reachable(adj, p, r)
  {
    var p1 :| IsPath(adj, p1) && p1[0] == p && p1[|p1| - 1] == q;
    var p2 :| IsPath(adj, p2) && p2[0] == q && p2[|p2| - 1] == r;
    var joined := p1 + p2[1..];
    assert IsPath(adj, joined);
  }

  /** A set that every edge leaving it re-enters. */
  ghost predicate Closed(adj: Adjacency, s: set<Point>) {
    forall p, q :: p in s && Adjacent(adj, p, q) ==> q in s
  }

  lemma {:induction false} ClosedPath(adj: Adjacency, s: set<Point>, path: seq<Point>)
    requires Closed(adj, s) && IsPath(adj, path) && path[0] in s
    ensures path[|path| - 1] in s
    decreases |path|
  {
    if |path| > 1 {
      var init := path[..|path| - 1];
      assert IsPath(adj, init);
      ClosedPath(adj, s, init);
      assert Adjacent(adj, path[|path| - 2], path[|path| - 1]);
    }
  }

  /** Nothing outside a closed set is reachable from inside it. */
  lemma ClosedKeepsReach(adj: Adjacency, s: set<Point>, p: Point, q: Point)
    requires Closed(adj, s) && p in s && Reachable(adj, p, q)
    ensures q in s
  {
    var path :| IsPath(adj, path) && path[0] == p && path[|path| - 1] == q;
    ClosedPath(adj, s, path);
  }

  /** A point no edge touches reaches only itself. */
  lemma IsolatedReachesOnlyItself(adj: Adjacency, p: Point, q: Point)
    requires p !in adj
    ensures Reachable(adj, p, q) <==> q == p
  {
    if Reachable(adj, p, q) {
      ClosedKeepsReach(adj, {p}, p, q);
    }
    if q == p {
      ReachableRefl(adj, p);
    }
  }

  // ---------------------------------------------------------------- examples

  /** A wire whose start lies on the middle of another wire (a T-junction)
      shares a net with both ends of that wire. */
  const TeeWires: seq<Wire> :=
    [Wire(Point(0.0, 0.0), Point(50.0, 0.0)), Wire(Point(25.0, 0.0), Point(25.0, 50.0))]

  lemma TJunctionJoins(wires: seq<Wire>)
    requires wires == TeeWires
    ensures Reachable(Graph([], wires), Point(50.0, 0.0), Point(25.0, 50.0))
  {
    var g := Graph([], wires);
    var a, b, m, t := Point(0.0, 0.0), Point(50.0, 0.0), Point(25.0, 0.0), Point(25.0, 50.0);
    TeeStartOnWire(wires);
    JunctionAdjacent([], wires, 1, 0);
    WireEndsAdjacent([], wires, 0);
    WireEndsAdjacent([], wires, 1);
    ReachableRefl(g, b);
    ReachableStep(g, b, b, a);
    ReachableStep(g, b, a, m);
    ReachableStep(g, b, m, t);
  }

  lemma TeeStartOnWire(wires: seq<Wire>)
    requires wires == TeeWires
    ensures OnWire(wires[1].start, wires[0])
  {
    CollinearInBoxOnSegment(wires[1].start, wires[0].start, wires[0].end, SegmentTolerance);
  }

  const CrossingWires: seq<Wire> :=
    [Wire(Point(0.0, 50.0), Point(100.0, 50.0)), Wire(Point(50.0, 0.0), Point(50.0, 100.0))]

  lemma CrossingEndsOffWires()
    ensures !OnWire(CrossingWires[0].start, CrossingWires[1]) && !OnWire(CrossingWires[0].end, CrossingWires[1])
    ensures !OnWire(CrossingWires[1].start, CrossingWires[0]) && !OnWire(CrossingWires[1].end, CrossingWires[0])
  {
    var w0, w1 := CrossingWires[0], CrossingWires[1];
    assert !InExpandedBox(w0.start, w1.start, w1.end, SegmentTolerance);
    assert !InExpandedBox(w0.end, w1.start, w1.end, SegmentTolerance);
    assert !InExpandedBox(w1.start, w0.start, w0.end, SegmentTolerance);
    assert !InExpandedBox(w1.end, w0.start, w0.end, SegmentTolerance);
  }

  /** With no terminals and no end of either wire on the other, two wires
      with four distinct ends are two separate nets. */
  lemma TwoWiresApart(wires: seq<Wire>)
    requires |wires| == 2
    requires !OnWire(wires[0].start, wires[1]) && !OnWire(wires[0].end, wires[1])
    requires !OnWire(wires[1].start, wires[0]) && !OnWire(wires[1].end, wires[0])
    requires wires[1].start !in {wires[0].start, wires[0].end}
    requires wires[1].end !in {wires[0].start, wires[0].end}
    ensures !Reachable(Graph([], wires), wires[0].start, wires[1].start)
  {
    var g := Graph([], wires);
    var s := {wires[0].start, wires[0].end};
    forall p, q | p in s && Adjacent(g, p, q)
      ensures q in s
    {
      OnlyWireEdges(wires, p, q);
    }
    if Reachable(g, wires[0].start, wires[1].start) {
      ClosedKeepsReach(g, s, wires[0].start, wires[1].start);
    }
  }

  lemma OnlyWireEdges(wires: seq<Wire>, p: Point, q: Point)
    requires |wires| == 2
    requires !OnWire(wires[0].start, wires[1]) && !OnWire(wires[0].end, wires[1])
    requires !OnWire(wires[1].start, wires[0]) && !OnWire(wires[1].end, wires[0])
    requires Adjacent(Graph([], wires), p, q)
    ensures Edge(p, q) in {Edge(wires[0].start, wires[0].end), Edge(wires[1].start, wires[1].end)} ||
            Edge(q, p) in {Edge(wires[0].start, wires[0].end), Edge(wires[1].start, wires[1].end)}
  {
    GraphAdjacentIff([], wires, p, q);
    NoJunctionRule(wires, Edge(p, q));
    NoJunctionRule(wires, Edge(q, p));
    var terms := AllTerminals([]);
    assert |terms| == 0;
    assert WireRule(wires, Edge(p, q)) || WireRule(wires, Edge(q, p));
    TwoWireRule(wires, Edge(p, q));
    TwoWireRule(wires, Edge(q, p));
  }

  lemma TwoWireRule(wires: seq<Wire>, e: Edge)
    requires |wires| == 2
    ensures WireRule(wires, e) ==> e == Edge(wires[0].start, wires[0].end) || e == Edge(wires[1].start, wires[1].end)
  {
  }

  lemma NoJunctionRule(wires: seq<Wire>, e: Edge)
    requires |wires| == 2
    requires !OnWire(wires[0].start, wires[1]) && !OnWire(wires[0].end, wires[1])
    requires !OnWire(wires[1].start, wires[0]) && !OnWire(wires[1].end, wires[0])
    ensures !JunctionRule(wires, e)
  {
    if JunctionRule(wires, e) {
      var i, j :| 0 <= i < |wires| && 0 <= j < |wires| && JunctionHit(wires, i, j, e);
    }
  }

  /** Two wires that cross without an end on the other stay apart. */
  lemma CrossingStaysApart()
    ensures !Reachable(Graph([], CrossingWires), Point(0.0, 50.0), Point(50.0, 0.0))
  {
    CrossingEndsOffWires();
    TwoWiresApart(CrossingWires);
  }
}
