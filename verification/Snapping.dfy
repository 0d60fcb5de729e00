/** Snapping in the editor (editor.py): the nearest-target search that places
    wire ends (`get_best_snap_point`), the wire-mode click that uses it, and
    the snap that lines a dragged component's terminal up with a nearby
    terminal or wire end when the drag is released.  Distances are compared
    squared: `dist` is a square root, which keeps every `<` between
    distances. */
module Snapping {
  import opened Text
  import opened Geometry
  import opened Components
  import opened Document
  import opened Connectivity

  // ---------------------------------------------------------------- first minimum

  /** The index of the first least entry: where a scan that replaces its best
      only on a strictly smaller value ends, and the head of a stable sort. */
  function FirstMin(ds: seq<real>): (i: nat)
    requires |ds| > 0
    ensures i < |ds|
    ensures forall j :: 0 <= j < |ds| ==> ds[i] <= ds[j]
    ensures forall j :: 0 <= j < i ==> ds[i] < ds[j]
    decreases |ds|
  {
    if |ds| == 1 then 0
    else
      var i := FirstMin(ds[..|ds| - 1]);
      if ds[|ds| - 1] < ds[i] then |ds| - 1 else i
  }

  /** Only one index is least and strictly below every earlier entry. */
  lemma FirstMinUnique(ds: seq<real>, i: nat)
    requires i < |ds|
    requires forall j :: 0 <= j < |ds| ==> ds[i] <= ds[j]
    requires forall j :: 0 <= j < i ==> ds[i] < ds[j]
    ensures FirstMin(ds) == i
  {
  }

  // ---------------------------------------------------------------- candidates

  /** The positions of all terminals, component by component. */
  function TerminalPoints(comps: seq<Component>): (r: seq<Point>)
    ensures |r| == |AllTerminals(comps)|
    ensures forall i :: 0 <= i < |r| ==> r[i] == AllTerminals(comps)[i].at
  {
    var terms := AllTerminals(comps);
    seq(|terms|, i requires 0 <= i < |terms| => terms[i].at)
  }

  /** The terminal points are exactly the positions of the components' terminals. */
  lemma TerminalPointsExact(comps: seq<Component>, q: Point)
    ensures q in TerminalPoints(comps) <==>
      exists i, k :: 0 <= i < |comps| && 0 <= k < |comps[i].terminals| && q == TerminalAt(comps[i], comps[i].terminals[k].rel)
  {
    var terms := AllTerminals(comps);
    var r := TerminalPoints(comps);
    if q in r {
      var j :| 0 <= j < |r| && r[j] == q;
      assert terms[j] in terms;
    }
    if exists i, k :: 0 <= i < |comps| && 0 <= k < |comps[i].terminals| && q == TerminalAt(comps[i], comps[i].terminals[k].rel) {
      var i, k :| 0 <= i < |comps| && 0 <= k < |comps[i].terminals| && q == TerminalAt(comps[i], comps[i].terminals[k].rel);
      assert EntryOf(comps[i], k) in terms;
      var j :| 0 <= j < |terms| && terms[j] == EntryOf(comps[i], k);
      assert r[j] == q;
    }
  }

  /** `[wire.start_p, wire.end_p]` for every wire, in wire order. */
  function EndPoints(wires: seq<Wire>): (r: seq<Point>)
    ensures |r| == 2 * |wires|
    ensures forall i :: 0 <= i < |wires| ==> r[2 * i] == wires[i].start && r[2 * i + 1] == wires[i].end
    ensures forall q :: q in r <==> exists w :: w in wires && (q == w.start || q == w.end)
  {
    if |wires| == 0 then []
    else
      var rest := EndPoints(wires[1..]);
      assert forall w :: w in wires <==> w == wires[0] || w in wires[1..];
      [wires[0].start, wires[0].end] + rest
  }

  /** The point of each wire nearest to `p`, in wire order. */
  function Projections(p: Point, wires: seq<Wire>): (r: seq<Point>)
    ensures |r| == |wires|
    ensures forall i :: 0 <= i < |wires| ==> r[i] == ClosestPointOnSegment(p, wires[i].start, wires[i].end)
  {
    seq(|wires|, i requires 0 <= i < |wires| => ClosestPointOnSegment(p, wires[i].start, wires[i].end))
  }

  // ---------------------------------------------------------------- best snap point

  /** A squared distance.  The editor uses `Dist2`; the searches below are
      stated for any, which keeps their proofs about order alone. */
  type Distance = (Point, Point) -> real

  /** `get_best_snap_point`'s default threshold 15, squared. */
  const NearBound: real := 225.0

  /** The projection loop runs only while the best distance exceeds 5; 5 squared. */
  const GateBound: real := 25.0

  /** A candidate taken, with its squared distance (`min_dist`). */
  datatype Pick = Pick(pt: Point, d2: real)

  /** `if d < min_dist and d < threshold`: no pick yet stands for an infinite `min_dist`. */
  function Consider(dist: Distance, p: Point, c: Point, best: Option<Pick>): Option<Pick> {
    var d := dist(p, c);
    if d < NearBound && (best.None? || d < best.value.d2) then Some(Pick(c, d)) else best
  }

  /** One of the loops of `get_best_snap_point`, over `cands` in order. */
  function Scan(dist: Distance, p: Point, cands: seq<Point>, best: Option<Pick>): Option<Pick>
    decreases |cands|
  {
    if |cands| == 0 then best
    else Consider(dist, p, cands[|cands| - 1], Scan(dist, p, cands[..|cands| - 1], best))
  }

  /** `min_dist > 5`: the projection loop runs. */
  predicate Gate(best: Option<Pick>) {
    best.None? || best.value.d2 > GateBound
  }

  /** The three loops: terminals, then wire ends, then, past the gate, the
      projections onto the wires. */
  function SnapSearch(dist: Distance, p: Point, comps: seq<Component>, wires: seq<Wire>): Option<Point> {
    var b1 := Scan(dist, p, TerminalPoints(comps), None);
    var b2 := Scan(dist, p, EndPoints(wires), b1);
    var b3 := if Gate(b2) then Scan(dist, p, Projections(p, wires), b2) else b2;
    if b3.None? then None else Some(b3.value.pt)
  }

  /** `get_best_snap_point(x, y)`. */
  function BestSnapPoint(p: Point, comps: seq<Component>, wires: seq<Wire>): Option<Point> {
    SnapSearch(Dist2, p, comps, wires)
  }

  /** Closer than the snap threshold. */
  predicate Near(dist: Distance, p: Point, c: Point) {
    dist(p, c) < NearBound
  }

  /** `cands[i]` is near, strictly nearer than every earlier near candidate,
      and no farther than any later one. */
  predicate IsFirstNearest(dist: Distance, p: Point, cands: seq<Point>, i: int) {
    && 0 <= i < |cands| && Near(dist, p, cands[i])
    && (forall j :: 0 <= j < i && Near(dist, p, cands[j]) ==> dist(p, cands[i]) < dist(p, cands[j]))
    && (forall j :: i < j < |cands| && Near(dist, p, cands[j]) ==> dist(p, cands[i]) <= dist(p, cands[j]))
  }

  lemma FirstNearestUnique(dist: Distance, p: Point, cands: seq<Point>, i: int, i2: int)
    requires IsFirstNearest(dist, p, cands, i) && IsFirstNearest(dist, p, cands, i2)
    ensures i == i2
  {
  }

  /** Scanning a concatenation is scanning one part after the other. */
  lemma {:induction false} ScanAppend(dist: Distance, p: Point, a: seq<Point>, b: seq<Point>, best: Option<Pick>)
    ensures Scan(dist, p, a + b, best) == Scan(dist, p, b, Scan(dist, p, a, best))
    decreases |b|
  {
    if |b| == 0 {
      assert a + b == a;
    } else {
      var b0 := b[..|b| - 1];
      ScanAppend(dist, p, a, b0, best);
      assert (a + b)[..|a + b| - 1] == a + b0;
    }
  }

  /** A first nearest candidate stays first when a candidate that is not
      nearer is appended. */
  lemma FirstNearestKept(dist: Distance, p: Point, cands: seq<Point>, i: int)
    requires |cands| > 0 && IsFirstNearest(dist, p, cands[..|cands| - 1], i)
    requires var last := cands[|cands| - 1];
      !Near(dist, p, last) || dist(p, cands[i]) <= dist(p, last)
    ensures IsFirstNearest(dist, p, cands, i)
  {
    assert forall j :: 0 <= j < |cands| - 1 ==> cands[..|cands| - 1][j] == cands[j];
  }

  /** An appended near candidate strictly nearer than all near ones before it is the first nearest. */
  lemma LastIsFirstNearest(dist: Distance, p: Point, cands: seq<Point>)
    requires |cands| > 0 && Near(dist, p, cands[|cands| - 1])
    requires forall j :: 0 <= j < |cands| - 1 && Near(dist, p, cands[j]) ==> dist(p, cands[|cands| - 1]) < dist(p, cands[j])
    ensures IsFirstNearest(dist, p, cands, |cands| - 1)
  {
  }

  /** A scan from nothing ends with nothing exactly when no candidate is near. */
  lemma {:induction false} ScanNoneIff(dist: Distance, p: Point, cands: seq<Point>)
    ensures Scan(dist, p, cands, None).None? <==> forall j :: 0 <= j < |cands| ==> !Near(dist, p, cands[j])
    decreases |cands|
  {
    if |cands| > 0 {
      var init := cands[..|cands| - 1];
      ScanNoneIff(dist, p, init);
      assert forall j :: 0 <= j < |init| ==> init[j] == cands[j];
    }
  }

  /** A scan from nothing that ends with a pick picks the first nearest candidate. */
  lemma {:induction false} ScanFindsFirstNearest(dist: Distance, p: Point, cands: seq<Point>)
    ensures Scan(dist, p, cands, None).Some? ==>
      exists i :: IsFirstNearest(dist, p, cands, i) && Scan(dist, p, cands, None) == Some(Pick(cands[i], dist(p, cands[i])))
    decreases |cands|
  {
    if |cands| > 0 {
      var init := cands[..|cands| - 1];
      var last := cands[|cands| - 1];
      ScanFindsFirstNearest(dist, p, init);
      var before := Scan(dist, p, init, None);
      if before.Some? {
        var i :| IsFirstNearest(dist, p, init, i) && before == Some(Pick(init[i], dist(p, init[i])));
        assert init[i] == cands[i];
        if Near(dist, p, last) && dist(p, last) < dist(p, init[i]) {
          assert forall j :: 0 <= j < |init| ==> init[j] == cands[j];
          LastIsFirstNearest(dist, p, cands);
        } else {
          FirstNearestKept(dist, p, cands, i);
        }
      } else if Near(dist, p, last) {
        ScanNoneIff(dist, p, init);
        assert forall j :: 0 <= j < |init| ==> init[j] == cands[j];
        LastIsFirstNearest(dist, p, cands);
      }
    }
  }

  /** No candidate within 5. */
  predicate NoneWithinGate(dist: Distance, p: Point, fixed: seq<Point>) {
    forall j :: 0 <= j < |fixed| ==> dist(p, fixed[j]) > GateBound
  }

  /** The projection loop runs exactly when no terminal or wire end lies
      within 5 of the click. */
  lemma GateIffNoneWithin(dist: Distance, p: Point, fixed: seq<Point>)
    ensures Gate(Scan(dist, p, fixed, None)) <==> NoneWithinGate(dist, p, fixed)
  {
    ScanFindsFirstNearest(dist, p, fixed);
    ScanNoneIff(dist, p, fixed);
    var b := Scan(dist, p, fixed, None);
    if b.Some? {
      var i :| IsFirstNearest(dist, p, fixed, i) && b == Some(Pick(fixed[i], dist(p, fixed[i])));
      if b.value.d2 > GateBound {
        forall j | 0 <= j < |fixed|
          ensures dist(p, fixed[j]) > GateBound
        {
          if Near(dist, p, fixed[j]) && j < i {
            assert dist(p, fixed[i]) < dist(p, fixed[j]);
          }
        }
      }
    }
  }

  /** The candidates in the order they are tried: terminals, wire ends, and
      the projections when nothing of the first two lies within 5. */
  function SnapCandidates(dist: Distance, p: Point, comps: seq<Component>, wires: seq<Wire>): seq<Point> {
    var fixed := TerminalPoints(comps) + EndPoints(wires);
    fixed + (if NoneWithinGate(dist, p, fixed) then Projections(p, wires) else [])
  }

  /** The three loops end with the first nearest of all candidates. */
  lemma SearchIsFirstNearest(dist: Distance, p: Point, comps: seq<Component>, wires: seq<Wire>)
    ensures var cands := SnapCandidates(dist, p, comps, wires);
      SnapSearch(dist, p, comps, wires).None? <==> forall j :: 0 <= j < |cands| ==> !Near(dist, p, cands[j])
    ensures var cands := SnapCandidates(dist, p, comps, wires);
      forall i :: IsFirstNearest(dist, p, cands, i) ==> SnapSearch(dist, p, comps, wires) == Some(cands[i])
    ensures var cands := SnapCandidates(dist, p, comps, wires);
      SnapSearch(dist, p, comps, wires).Some? ==>
        exists i :: IsFirstNearest(dist, p, cands, i) && SnapSearch(dist, p, comps, wires) == Some(cands[i])
  {
    var terms, ends, projs := TerminalPoints(comps), EndPoints(wires), Projections(p, wires);
    var fixed := terms + ends;
    var cands := SnapCandidates(dist, p, comps, wires);
    var b2 := Scan(dist, p, ends, Scan(dist, p, terms, None));
    ScanAppend(dist, p, terms, ends, None);
    GateIffNoneWithin(dist, p, fixed);
    var b3 := if Gate(b2) then Scan(dist, p, projs, b2) else b2;
    if Gate(b2) {
      ScanAppend(dist, p, fixed, projs, None);
    } else {
      assert cands == fixed + [] == fixed;
    }
    assert b3 == Scan(dist, p, cands, None);
    ScanNoneIff(dist, p, cands);
    ScanFindsFirstNearest(dist, p, cands);
    forall i | IsFirstNearest(dist, p, cands, i)
      ensures SnapSearch(dist, p, comps, wires) == Some(cands[i])
    {
      var i2 :| IsFirstNearest(dist, p, cands, i2) && b3 == Some(Pick(cands[i2], dist(p, cands[i2])));
      FirstNearestUnique(dist, p, cands, i, i2);
    }
  }

  /** `get_best_snap_point` returns None exactly when no candidate is closer
      than 15, and otherwise the first candidate of least distance: a
      terminal before a wire end before a projection at equal distance, and
      a projection only when no terminal or wire end is within 5. */
  lemma BestSnapPointIsFirstNearest(p: Point, comps: seq<Component>, wires: seq<Wire>)
    ensures var cands := SnapCandidates(Dist2, p, comps, wires);
      BestSnapPoint(p, comps, wires).None? <==> forall j :: 0 <= j < |cands| ==> !Near(Dist2, p, cands[j])
    ensures var cands := SnapCandidates(Dist2, p, comps, wires);
      forall i :: IsFirstNearest(Dist2, p, cands, i) ==> BestSnapPoint(p, comps, wires) == Some(cands[i])
    ensures var cands := SnapCandidates(Dist2, p, comps, wires);
      BestSnapPoint(p, comps, wires).Some? ==>
        exists i :: IsFirstNearest(Dist2, p, cands, i) && BestSnapPoint(p, comps, wires) == Some(cands[i])
  {
    SearchIsFirstNearest(Dist2, p, comps, wires);
  }

  // ---------------------------------------------------------------- wire clicks

  /** Where a wire-mode click lands: the snap point, else the click snapped to the grid. */
  function ClickTarget(p: Point, comps: seq<Component>, wires: seq<Wire>): Point {
    match BestSnapPoint(p, comps, wires)
    case Some(q) => q
    case None => Point(Snap(p.x), Snap(p.y))
  }

  /** A wire end is a terminal, a wire end or a projection closer than 15,
      or else on the grid in both coordinates, and it is on the grid
      whenever no candidate is near. */
  lemma ClickTargetSnaps(p: Point, comps: seq<Component>, wires: seq<Wire>)
    ensures var r := ClickTarget(p, comps, wires);
      (r in SnapCandidates(Dist2, p, comps, wires) && Near(Dist2, p, r)) || (OnGrid(r.x) && OnGrid(r.y))
    ensures var cands := SnapCandidates(Dist2, p, comps, wires);
      (forall j :: 0 <= j < |cands| ==> !Near(Dist2, p, cands[j])) ==> ClickTarget(p, comps, wires) == Point(Snap(p.x), Snap(p.y))
  {
    BestSnapPointIsFirstNearest(p, comps, wires);
  }

  /** A click in wire mode: the first remembers its target
      (`temp_wire_start`), the second draws the wire and forgets it. */
  function WireClick(d: Doc, pending: Option<Point>, p: Point): (Doc, Option<Point>) {
    var target := ClickTarget(p, d.comps, d.wires);
    match pending
    case None => (d, Some(target))
    case Some(start) => (d.(wires := d.wires + [Wire(start, target)]), None)
  }

  /** Two clicks draw one wire between their two targets and change nothing else. */
  lemma TwoClicksDrawWire(d: Doc, p1: Point, p2: Point)
    ensures var (d1, s1) := WireClick(d, None, p1);
      var (d2, s2) := WireClick(d1, s1, p2);
      && d2.comps == d.comps && d2.counts == d.counts && s2.None?
      && d2.wires == d.wires + [Wire(ClickTarget(p1, d.comps, d.wires), ClickTarget(p2, d.comps, d.wires))]
  {
  }

  // ---------------------------------------------------------------- drag snap

  /** The drag snap's threshold 20, squared. */
  const DragBound: real := 400.0

  /** `(d, raw_target + (o - m))`, kept with its squared distance. */
  datatype DragCand = DragCand(d2: real, target: Point)

  /** `c` is the candidate that moves terminal `m` onto `o`, which are close enough. */
  predicate Pairs(dist: Distance, raw: Point, m: Point, o: Point, c: DragCand) {
    dist(m, o) < DragBound && c == DragCand(dist(m, o), Add(raw, Sub(o, m)))
  }

  /** The innermost loop, over the dragged component's terminals `my`, for one target `o`. */
  function PairCands(dist: Distance, raw: Point, my: seq<Point>, o: Point): (r: seq<DragCand>)
    ensures forall c :: c in r <==> exists k :: 0 <= k < |my| && Pairs(dist, raw, my[k], o, c)
    ensures |r| == 0 <==> forall k :: 0 <= k < |my| ==> dist(my[k], o) >= DragBound
    decreases |my|
  {
    if |my| == 0 then []
    else
      var m := my[|my| - 1];
      var init := PairCands(dist, raw, my[..|my| - 1], o);
      assert forall k :: 0 <= k < |my| - 1 ==> my[..|my| - 1][k] == my[k];
      init + (if dist(m, o) < DragBound then [DragCand(dist(m, o), Add(raw, Sub(o, m)))] else [])
  }

  /** `snap_candidates`: target by target, then terminal by terminal. */
  function DragCandidates(dist: Distance, raw: Point, my: seq<Point>, targets: seq<Point>): (r: seq<DragCand>)
    ensures forall c :: c in r <==>
      exists j, k :: 0 <= j < |targets| && 0 <= k < |my| && Pairs(dist, raw, my[k], targets[j], c)
    ensures |r| == 0 <==> forall j, k :: 0 <= j < |targets| && 0 <= k < |my| ==> dist(my[k], targets[j]) >= DragBound
    decreases |targets|
  {
    if |targets| == 0 then []
    else
      var first := PairCands(dist, raw, my, targets[0]);
      var rest := DragCandidates(dist, raw, my, targets[1..]);
      assert forall c :: c in rest <==>
        exists j, k :: 1 <= j < |targets| && 0 <= k < |my| && Pairs(dist, raw, my[k], targets[j], c) by {
        forall c | c in rest
          ensures exists j, k :: 1 <= j < |targets| && 0 <= k < |my| && Pairs(dist, raw, my[k], targets[j], c)
        {
          var j, k :| 0 <= j < |targets| - 1 && 0 <= k < |my| && Pairs(dist, raw, my[k], targets[1..][j], c);
          assert targets[1..][j] == targets[j + 1];
        }
        forall c | exists j, k :: 1 <= j < |targets| && 0 <= k < |my| && Pairs(dist, raw, my[k], targets[j], c)
          ensures c in rest
        {
          var j, k :| 1 <= j < |targets| && 0 <= k < |my| && Pairs(dist, raw, my[k], targets[j], c);
          assert targets[1..][j - 1] == targets[j];
        }
      }
      first + rest
  }

  /** Where the dragged component's terminals would be with its position at `raw`. */
  function MovedTerminals(c: Component, raw: Point): (r: seq<Point>)
    ensures |r| == |c.terminals|
    ensures forall k :: 0 <= k < |r| ==> r[k] == AbsTerminals(c.(pos := raw))[k].at
  {
    var moved := c.(pos := raw);
    seq(|c.terminals|, k requires 0 <= k < |c.terminals| => AbsTerminals(moved)[k].at)
  }

  /** What a dragged terminal may land on: the terminals of every other
      component (`if other == comp: continue`), then the wire ends. */
  function DragTargets(comps: seq<Component>, idx: nat, wires: seq<Wire>): seq<Point>
    requires idx < |comps|
  {
    TerminalPoints(RemoveAt(comps, idx)) + EndPoints(wires)
  }

  function Dists(cands: seq<DragCand>): (r: seq<real>)
    ensures |r| == |cands|
    ensures forall i :: 0 <= i < |cands| ==> r[i] == cands[i].d2
  {
    seq(|cands|, i requires 0 <= i < |cands| => cands[i].d2)
  }

  /** Sort the candidates by distance, keeping ties in order, and take the
      head; with none, snap `raw` to the grid. */
  function PickDrag(raw: Point, cands: seq<DragCand>): Point {
    if |cands| == 0 then Point(Snap(raw.x), Snap(raw.y))
    else cands[FirstMin(Dists(cands))].target
  }

  /** The drag branch of `on_release`: the position the component `idx` gets
      when released at `raw` (its start position plus the mouse travel). */
  function DragSnap(comps: seq<Component>, idx: nat, raw: Point, wires: seq<Wire>): Point
    requires idx < |comps|
  {
    PickDrag(raw, DragCandidates(Dist2, raw, MovedTerminals(comps[idx], raw), DragTargets(comps, idx, wires)))
  }

  /** The dragged component is not its own target: the targets are the
      terminals of the components at other indices, and the wire ends. */
  lemma DragTargetsExact(comps: seq<Component>, idx: nat, wires: seq<Wire>, q: Point)
    requires idx < |comps|
    ensures q in DragTargets(comps, idx, wires) <==>
      (exists i, k :: 0 <= i < |comps| && i != idx && 0 <= k < |comps[i].terminals| && q == TerminalAt(comps[i], comps[i].terminals[k].rel))
      || (exists w :: w in wires && (q == w.start || q == w.end))
  {
    var others := RemoveAt(comps, idx);
    TerminalPointsExact(others, q);
    if exists i, k :: 0 <= i < |comps| && i != idx && 0 <= k < |comps[i].terminals| && q == TerminalAt(comps[i], comps[i].terminals[k].rel) {
      var i, k :| 0 <= i < |comps| && i != idx && 0 <= k < |comps[i].terminals| && q == TerminalAt(comps[i], comps[i].terminals[k].rel);
      var i2 := if i < idx then i else i - 1;
      assert others[i2] == comps[i];
    }
    if q in TerminalPoints(others) {
      var i2, k :| 0 <= i2 < |others| && 0 <= k < |others[i2].terminals| && q == TerminalAt(others[i2], others[i2].terminals[k].rel);
      var i := if i2 < idx then i2 else i2 + 1;
      assert others[i2] == comps[i];
    }
  }

  /** With no pairing closer than 20 the grid snap of `raw` is kept. */
  lemma PickDragFallback(dist: Distance, raw: Point, my: seq<Point>, targets: seq<Point>)
    requires forall j, k :: 0 <= j < |targets| && 0 <= k < |my| ==> dist(my[k], targets[j]) >= DragBound
    ensures PickDrag(raw, DragCandidates(dist, raw, my, targets)) == Point(Snap(raw.x), Snap(raw.y))
  {
  }

  /** Terminal `k` and target `j` are closer than 20, no pairing of a
      terminal with a target is closer, and every pairing before it (an
      earlier target, or the same target with an earlier terminal) is
      strictly farther: the head of the stably sorted candidates. */
  predicate ClosestPairing(dist: Distance, my: seq<Point>, targets: seq<Point>, j: int, k: int) {
    && 0 <= j < |targets| && 0 <= k < |my|
    && dist(my[k], targets[j]) < DragBound
    && (forall j2, k2 :: 0 <= j2 < |targets| && 0 <= k2 < |my| ==> dist(my[k], targets[j]) <= dist(my[k2], targets[j2]))
    && (forall j2, k2 :: 0 <= j2 < |targets| && 0 <= k2 < |my| && PairBefore(j2, k2, j, k) ==>
          dist(my[k], targets[j]) < dist(my[k2], targets[j2]))
  }

  /** Pairing `(j1, k1)` is met before `(j2, k2)` by the target-then-terminal loops. */
  predicate PairBefore(j1: int, k1: int, j2: int, k2: int) {
    j1 < j2 || (j1 == j2 && k1 < k2)
  }

  /** Where a drag candidate came from: target `j` and terminal `k`. */
  datatype Origin = Origin(j: nat, k: nat)

  /** The terminals behind the candidates of `PairCands`, in increasing order. */
  ghost function PairOrigins(dist: Distance, raw: Point, my: seq<Point>, o: Point): (ks: seq<nat>)
    ensures |ks| == |PairCands(dist, raw, my, o)|
    ensures forall i :: 0 <= i < |ks| ==> ks[i] < |my| && Pairs(dist, raw, my[ks[i]], o, PairCands(dist, raw, my, o)[i])
    ensures forall a, b :: 0 <= a < b < |ks| ==> ks[a] < ks[b]
    ensures forall k :: 0 <= k < |my| && dist(my[k], o) < DragBound ==> k in ks
    decreases |my|
  {
    if |my| == 0 then []
    else
      var pre := my[..|my| - 1];
      var init := PairOrigins(dist, raw, pre, o);
      var last := if dist(my[|my| - 1], o) < DragBound then [|my| - 1] else [];
      PairOriginsSnoc(dist, raw, my, o, PairCands(dist, raw, pre, o), PairCands(dist, raw, my, o), init, last);
      init + last
  }

  /** One more terminal at the end adds its pairing, if close, after the others. */
  lemma PairOriginsSnoc(dist: Distance, raw: Point, my: seq<Point>, o: Point,
                        cands: seq<DragCand>, all: seq<DragCand>, init: seq<nat>, last: seq<nat>)
    requires |my| > 0
    requires var m := my[|my| - 1];
      all == cands + (if dist(m, o) < DragBound then [DragCand(dist(m, o), Add(raw, Sub(o, m)))] else [])
    requires |init| == |cands|
    requires forall i :: 0 <= i < |init| ==> init[i] < |my| - 1 && Pairs(dist, raw, my[..|my| - 1][init[i]], o, cands[i])
    requires forall a, b :: 0 <= a < b < |init| ==> init[a] < init[b]
    requires forall k :: 0 <= k < |my| - 1 && dist(my[..|my| - 1][k], o) < DragBound ==> k in init
    requires last == if dist(my[|my| - 1], o) < DragBound then [|my| - 1] else []
    ensures |init + last| == |all|
    ensures forall i :: 0 <= i < |init + last| ==> (init + last)[i] < |my| && Pairs(dist, raw, my[(init + last)[i]], o, all[i])
    ensures forall a, b :: 0 <= a < b < |init + last| ==> (init + last)[a] < (init + last)[b]
    ensures forall k :: 0 <= k < |my| && dist(my[k], o) < DragBound ==> k in init + last
  {
    var pre := my[..|my| - 1];
    var ks := init + last;
    forall i | 0 <= i < |ks|
      ensures ks[i] < |my| && Pairs(dist, raw, my[ks[i]], o, all[i])
    {
      if i < |init| {
        assert pre[init[i]] == my[init[i]];
      }
    }
    forall k | 0 <= k < |my| && dist(my[k], o) < DragBound
      ensures k in ks
    {
      if k < |pre| {
        assert pre[k] == my[k];
      }
    }
  }



  /** Each candidate `cands[i]` is the pairing `os[i]`. */
  ghost predicate OriginsFit(dist: Distance, raw: Point, my: seq<Point>, targets: seq<Point>,
                             cands: seq<DragCand>, os: seq<Origin>) {
    && |os| == |cands|
    && forall i :: 0 <= i < |os| ==>
         (os[i].j < |targets| && os[i].k < |my| && Pairs(dist, raw, my[os[i].k], targets[os[i].j], cands[i]))
  }

  ghost predicate OriginsOrdered(os: seq<Origin>) {
    forall a, b :: 0 <= a < b < |os| ==> PairBefore(os[a].j, os[a].k, os[b].j, os[b].k)
  }

  /** Every pairing closer than 20 is among `os`. */
  ghost predicate OriginsComplete(dist: Distance, my: seq<Point>, targets: seq<Point>, os: seq<Origin>) {
    forall j, k :: 0 <= j < |targets| && 0 <= k < |my| && dist(my[k], targets[j]) < DragBound ==> Origin(j, k) in os
  }

  /** The pairings behind the candidates of `DragCandidates`, in loop order. */
  ghost function DragOrigins(dist: Distance, raw: Point, my: seq<Point>, targets: seq<Point>): (os: seq<Origin>)
    ensures OriginsFit(dist, raw, my, targets, DragCandidates(dist, raw, my, targets), os)
    ensures OriginsOrdered(os)
    ensures OriginsComplete(dist, my, targets, os)
    decreases |targets|
  {
    if |targets| == 0 then []
    else
      var ks := PairOrigins(dist, raw, my, targets[0]);
      var rest := DragOrigins(dist, raw, my, targets[1..]);
      var head := seq(|ks|, i requires 0 <= i < |ks| => Origin(0, ks[i]));
      var tail := seq(|rest|, i requires 0 <= i < |rest| => Origin(rest[i].j + 1, rest[i].k));
      HeadOrigins(dist, raw, my, targets, ks, head);
      ShiftOrigins(dist, raw, my, targets, rest, tail);
      OriginsJoin(dist, raw, my, targets, PairCands(dist, raw, my, targets[0]),
                  DragCandidates(dist, raw, my, targets[1..]), head, tail);
      OriginsJoinComplete(dist, my, targets, ks, rest, head, tail);
      head + tail
  }

  lemma HeadOrigins(dist: Distance, raw: Point, my: seq<Point>, targets: seq<Point>, ks: seq<nat>, head: seq<Origin>)
    requires |targets| > 0 && ks == PairOrigins(dist, raw, my, targets[0])
    requires |head| == |ks| && forall i :: 0 <= i < |ks| ==> head[i] == Origin(0, ks[i])
    ensures OriginsFit(dist, raw, my, targets, PairCands(dist, raw, my, targets[0]), head)
    ensures OriginsOrdered(head)
  {
  }

  lemma ShiftOrigins(dist: Distance, raw: Point, my: seq<Point>, targets: seq<Point>, rest: seq<Origin>, tail: seq<Origin>)
    requires |targets| > 0
    requires OriginsFit(dist, raw, my, targets[1..], DragCandidates(dist, raw, my, targets[1..]), rest)
    requires OriginsOrdered(rest)
    requires |tail| == |rest| && forall i :: 0 <= i < |rest| ==> tail[i] == Origin(rest[i].j + 1, rest[i].k)
    ensures OriginsFit(dist, raw, my, targets, DragCandidates(dist, raw, my, targets[1..]), tail)
    ensures OriginsOrdered(tail)
    ensures forall i :: 0 <= i < |tail| ==> tail[i].j >= 1
  {
    forall i | 0 <= i < |rest|
      ensures targets[1..][rest[i].j] == targets[tail[i].j]
    {
    }
  }

  lemma OriginsJoin(dist: Distance, raw: Point, my: seq<Point>, targets: seq<Point>,
                    c1: seq<DragCand>, c2: seq<DragCand>, head: seq<Origin>, tail: seq<Origin>)
    requires OriginsFit(dist, raw, my, targets, c1, head) && OriginsOrdered(head)
    requires OriginsFit(dist, raw, my, targets, c2, tail) && OriginsOrdered(tail)
    requires forall i :: 0 <= i < |head| ==> head[i].j == 0
    requires forall i :: 0 <= i < |tail| ==> tail[i].j >= 1
    ensures OriginsFit(dist, raw, my, targets, c1 + c2, head + tail)
    ensures OriginsOrdered(head + tail)
  {
    var os := head + tail;
    forall i | |head| <= i < |os|
      ensures os[i] == tail[i - |head|] && (c1 + c2)[i] == c2[i - |head|]
    {
    }
  }

  lemma OriginsJoinComplete(dist: Distance, my: seq<Point>, targets: seq<Point>,
                            ks: seq<nat>, rest: seq<Origin>, head: seq<Origin>, tail: seq<Origin>)
    requires |targets| > 0 && forall k :: 0 <= k < |my| && dist(my[k], targets[0]) < DragBound ==> k in ks
    requires OriginsComplete(dist, my, targets[1..], rest)
    requires |head| == |ks| && forall i :: 0 <= i < |ks| ==> head[i] == Origin(0, ks[i])
    requires |tail| == |rest| && forall i :: 0 <= i < |rest| ==> tail[i] == Origin(rest[i].j + 1, rest[i].k)
    ensures OriginsComplete(dist, my, targets, head + tail)
  {
    forall j, k | 0 <= j < |targets| && 0 <= k < |my| && dist(my[k], targets[j]) < DragBound
      ensures Origin(j, k) in head + tail
    {
      if j == 0 {
        HeadHas(ks, head, k);
      } else {
        assert targets[1..][j - 1] == targets[j];
        TailHas(rest, tail, j - 1, k);
      }
    }
  }

  lemma HeadHas(ks: seq<nat>, head: seq<Origin>, k: nat)
    requires k in ks
    requires |head| == |ks| && forall i :: 0 <= i < |ks| ==> head[i] == Origin(0, ks[i])
    ensures Origin(0, k) in head
  {
    var i :| 0 <= i < |ks| && ks[i] == k;
    assert head[i] == Origin(0, k);
  }

  lemma TailHas(rest: seq<Origin>, tail: seq<Origin>, j: nat, k: nat)
    requires Origin(j, k) in rest
    requires |tail| == |rest| && forall i :: 0 <= i < |rest| ==> tail[i] == Origin(rest[i].j + 1, rest[i].k)
    ensures Origin(j + 1, k) in tail
  {
    var i :| 0 <= i < |rest| && rest[i] == Origin(j, k);
    assert tail[i] == Origin(j + 1, k);
  }


  /** With some pairing closer than 20, the pick is the shift of a closest
      pairing: terminal `k` moved onto target `j`. */
  lemma PickDragClosest(dist: Distance, raw: Point, my: seq<Point>, targets: seq<Point>)
    requires exists j, k :: 0 <= j < |targets| && 0 <= k < |my| && dist(my[k], targets[j]) < DragBound
    ensures exists j, k :: (ClosestPairing(dist, my, targets, j, k)
      && PickDrag(raw, DragCandidates(dist, raw, my, targets)) == Add(raw, Sub(targets[j], my[k])))
  {
    var cands := DragCandidates(dist, raw, my, targets);
    var os := DragOrigins(dist, raw, my, targets);
    var j0, k0 :| 0 <= j0 < |targets| && 0 <= k0 < |my| && dist(my[k0], targets[j0]) < DragBound;
    assert Origin(j0, k0) in os;
    var i := FirstMin(Dists(cands));
    HeadIsClosest(dist, raw, my, targets, cands, os, i);
    assert PickDrag(raw, cands) == Add(raw, Sub(targets[os[i].j], my[os[i].k]));
  }

  /** The head of the candidates, by origin, is the closest pairing. */
  lemma HeadIsClosest(dist: Distance, raw: Point, my: seq<Point>, targets: seq<Point>,
                      cands: seq<DragCand>, os: seq<Origin>, i: nat)
    requires OriginsFit(dist, raw, my, targets, cands, os) && OriginsOrdered(os) && OriginsComplete(dist, my, targets, os)
    requires |cands| > 0 && i == FirstMin(Dists(cands))
    ensures i < |os| && ClosestPairing(dist, my, targets, os[i].j, os[i].k)
    ensures cands[i].target == Add(raw, Sub(targets[os[i].j], my[os[i].k]))
  {
    var ds := Dists(cands);
    var j, k := os[i].j, os[i].k;
    assert Pairs(dist, raw, my[k], targets[j], cands[i]);
    assert ds[i] == dist(my[k], targets[j]);
    forall j2, k2 | 0 <= j2 < |targets| && 0 <= k2 < |my| && dist(my[k2], targets[j2]) <= dist(my[k], targets[j])
      ensures dist(my[k], targets[j]) == dist(my[k2], targets[j2]) && !PairBefore(j2, k2, j, k)
    {
      assert Origin(j2, k2) in os;
      var i2 :| 0 <= i2 < |os| && os[i2] == Origin(j2, k2);
      assert ds[i2] == dist(my[k2], targets[j2]);
      HeadIsFirst(ds, os, i2);
    }
    NoCloserNoEarlier(dist, my, targets, j, k);
  }

  /** A close pairing that only ties with later pairings is the closest one. */
  lemma NoCloserNoEarlier(dist: Distance, my: seq<Point>, targets: seq<Point>, j: nat, k: nat)
    requires j < |targets| && k < |my| && dist(my[k], targets[j]) < DragBound
    requires forall j2, k2 :: 0 <= j2 < |targets| && 0 <= k2 < |my| && dist(my[k2], targets[j2]) <= dist(my[k], targets[j]) ==>
      dist(my[k], targets[j]) == dist(my[k2], targets[j2]) && !PairBefore(j2, k2, j, k)
    ensures ClosestPairing(dist, my, targets, j, k)
  {
  }

  /** The first least entry ties with no entry of an earlier pairing. */
  lemma HeadIsFirst(ds: seq<real>, os: seq<Origin>, i2: nat)
    requires |ds| > 0 && |os| == |ds| && OriginsOrdered(os)
    requires i2 < |ds| && ds[i2] <= ds[FirstMin(ds)]
    ensures ds[i2] == ds[FirstMin(ds)]
    ensures !PairBefore(os[i2].j, os[i2].k, os[FirstMin(ds)].j, os[FirstMin(ds)].k)
  {
    var i := FirstMin(ds);
    if i < i2 {
      assert PairBefore(os[i].j, os[i].k, os[i2].j, os[i2].k);
    }
  }

  /** Moving the component by the gap between its terminal `k` at `raw` and
      a point `o` puts that terminal on `o`. */
  lemma ShiftAligns(c: Component, raw: Point, o: Point, k: nat)
    requires k < |c.terminals|
    ensures AbsTerminals(c.(pos := Add(raw, Sub(o, MovedTerminals(c, raw)[k]))))[k].at == o
  {
    var m := MovedTerminals(c, raw)[k];
    MoveShiftsTerminals(c.(pos := raw), Sub(o, m), k);
    assert c.(pos := raw).(pos := Add(raw, Sub(o, m))) == c.(pos := Add(raw, Sub(o, m)));
  }

  /** With no terminal of the dragged component closer than 20 to any
      target, the component lands on the grid point nearest to `raw`. */
  lemma DragSnapFallback(comps: seq<Component>, idx: nat, raw: Point, wires: seq<Wire>)
    requires idx < |comps|
    requires var my := MovedTerminals(comps[idx], raw);
      var targets := DragTargets(comps, idx, wires);
      forall j, k :: 0 <= j < |targets| && 0 <= k < |my| ==> Dist2(my[k], targets[j]) >= DragBound
    ensures DragSnap(comps, idx, raw, wires) == Point(Snap(raw.x), Snap(raw.y))
  {
    PickDragFallback(Dist2, raw, MovedTerminals(comps[idx], raw), DragTargets(comps, idx, wires));
  }

  /** With some terminal closer than 20 to a target, the snap moves the
      component so that the closest such pairing coincides exactly: its
      terminal `k` sits on target `j`, no pairing of a terminal with a
      target was closer, and every earlier pairing was farther. */
  lemma DragSnapAligns(comps: seq<Component>, idx: nat, raw: Point, wires: seq<Wire>)
    requires idx < |comps|
    requires var my := MovedTerminals(comps[idx], raw);
      var targets := DragTargets(comps, idx, wires);
      exists j, k :: 0 <= j < |targets| && 0 <= k < |my| && Dist2(my[k], targets[j]) < DragBound
    ensures var my := MovedTerminals(comps[idx], raw);
      var targets := DragTargets(comps, idx, wires);
      var at := DragSnap(comps, idx, raw, wires);
      exists j, k :: ClosestPairing(Dist2, my, targets, j, k) && AbsTerminals(comps[idx].(pos := at))[k].at == targets[j]
  {
    var c := comps[idx];
    var my := MovedTerminals(c, raw);
    var targets := DragTargets(comps, idx, wires);
    PickDragClosest(Dist2, raw, my, targets);
    var j, k :| ClosestPairing(Dist2, my, targets, j, k)
      && PickDrag(raw, DragCandidates(Dist2, raw, my, targets)) == Add(raw, Sub(targets[j], my[k]));
    ShiftAligns(c, raw, targets[j], k);
  }

  /** `on_release` after a drag: only the dragged component moves, to its snap position. */
  function ReleaseDrag(d: Doc, idx: nat, press: Point, release: Point): (r: Doc)
    requires idx < |d.comps|
    ensures |r.comps| == |d.comps| && r.wires == d.wires && r.counts == d.counts
    ensures forall i :: 0 <= i < |d.comps| && i != idx ==> r.comps[i] == d.comps[i]
    ensures r.comps[idx] == d.comps[idx].(pos := r.comps[idx].pos)
    ensures r.comps[idx].pos == DragSnap(d.comps, idx, Add(d.comps[idx].pos, Sub(release, press)), d.wires)
  {
    var raw := Add(d.comps[idx].pos, Sub(release, press));
    d.(comps := d.comps[idx := d.comps[idx].(pos := DragSnap(d.comps, idx, raw, d.wires))])
  }

  /** After the release, either a terminal of the dragged component sits
      exactly on a target (of the first closest pairing under 20), or, with
      no pairing under 20, the component stands on the grid point nearest
      to its start position plus the mouse travel. */
  lemma ReleaseDragLands(d: Doc, idx: nat, press: Point, release: Point)
    requires idx < |d.comps|
    ensures var raw := Add(d.comps[idx].pos, Sub(release, press));
      var my := MovedTerminals(d.comps[idx], raw);
      var targets := DragTargets(d.comps, idx, d.wires);
      var moved := ReleaseDrag(d, idx, press, release).comps[idx];
      if exists j, k :: 0 <= j < |targets| && 0 <= k < |my| && Dist2(my[k], targets[j]) < DragBound
      then exists j, k :: ClosestPairing(Dist2, my, targets, j, k) && AbsTerminals(moved)[k].at == targets[j]
      else moved.pos == Point(Snap(raw.x), Snap(raw.y))
  {
    var raw := Add(d.comps[idx].pos, Sub(release, press));
    var my := MovedTerminals(d.comps[idx], raw);
    var targets := DragTargets(d.comps, idx, d.wires);
    var moved := ReleaseDrag(d, idx, press, release).comps[idx];
    assert moved == d.comps[idx].(pos := DragSnap(d.comps, idx, raw, d.wires));
    if exists j, k :: 0 <= j < |targets| && 0 <= k < |my| && Dist2(my[k], targets[j]) < DragBound {
      DragSnapAligns(d.comps, idx, raw, d.wires);
    } else {
      DragSnapFallback(d.comps, idx, raw, d.wires);
    }
  }
}
