/** The editor's document (editor.py): the placed components and the drawn
    wires, with the operations that add and remove them.  Python compares
    components and wires by identity; here an item is named by its index. */
module Document {
  import opened Text
  import opened Geometry
  import opened Components

  /** A wire from `start` to `end` (`start_p`, `end_p`). */
  datatype Wire = Wire(start: Point, end: Point)

  datatype Doc = Doc(comps: seq<Component>, wires: seq<Wire>, counts: Counts)

  /** Where `add_comp` places every new component. */
  const DropPoint: Point := Point(300.0, 300.0)

  /** `add_comp`: a known code appends a new component at the drop point;
      an unknown code changes nothing. */
  function AddComp(d: Doc, code: string): (r: Doc)
    ensures PartOfCode(code).None? ==> r == d
    ensures PartOfCode(code).Some? ==>
      && |r.comps| == |d.comps| + 1
      && r.comps[..|d.comps|] == d.comps
      && r.wires == d.wires
      && r.comps[|d.comps|].pos == DropPoint
      && r.comps[|d.comps|].name == Prefix(PartOfCode(code).value) + NatToString(CountOf(r.counts, Prefix(PartOfCode(code).value)))
    ensures PartOfCode(code).Some? ==>
      var placed := Place(d.counts, PartOfCode(code).value, DropPoint.x, DropPoint.y);
      r.comps[|d.comps|] == placed.comp && r.counts == placed.counts
  {
    match PartOfCode(code)
    case None => d
    case Some(part) =>
      var placed := Place(d.counts, part, DropPoint.x, DropPoint.y);
      assert Snap(300.0) == 300.0 by {
        MultipleOnGrid(15);
        SnapFixesExactlyGrid(300.0);
      }
      Doc(d.comps + [placed.comp], d.wires, placed.counts)
  }

  /** Adding two parts of one kind numbers them in turn: after `R<n>` come
      `R<n+1>` and `R<n+2>`, and the two names differ. */
  lemma AddCompTwiceNumbersInTurn(d: Doc, code: string)
    requires PartOfCode(code).Some?
    ensures var pre := Prefix(PartOfCode(code).value);
      var n := CountOf(d.counts, pre);
      var d2 := AddComp(AddComp(d, code), code);
      && |d2.comps| == |d.comps| + 2
      && d2.comps[|d.comps|].name == pre + NatToString(n + 1)
      && d2.comps[|d.comps| + 1].name == pre + NatToString(n + 2)
      && d2.comps[|d.comps|].name != d2.comps[|d.comps| + 1].name
      && CountOf(d2.counts, pre) == n + 2
  {
    var part := PartOfCode(code).value;
    var d1 := AddComp(d, code);
    var d2 := AddComp(d1, code);
    assert d2.comps[|d.comps|] == d1.comps[|d.comps|];
    if d2.comps[|d.comps|].name == d2.comps[|d.comps| + 1].name {
      DefaultNameInjective(part, CountOf(d.counts, Prefix(part)) + 1, part, CountOf(d.counts, Prefix(part)) + 2);
    }
  }

  /** The sequence without its `i`-th element. */
  function RemoveAt<T>(s: seq<T>, i: nat): (r: seq<T>)
    requires i < |s|
    ensures |r| == |s| - 1
    ensures forall k :: 0 <= k < i ==> r[k] == s[k]
    ensures forall k :: i <= k < |r| ==> r[k] == s[k + 1]
  {
    s[..i] + s[i + 1..]
  }

  datatype Target = CompAt(index: nat) | WireAt(index: nat)

  /** `delete_target`: the item goes if it is still in the document;
      a stale target leaves everything as it was. */
  function DeleteTarget(d: Doc, t: Target): (r: Doc)
    ensures r.counts == d.counts
    ensures t.CompAt? ==> r.wires == d.wires
    ensures t.WireAt? ==> r.comps == d.comps
    ensures t.CompAt? && t.index < |d.comps| ==> r.comps == RemoveAt(d.comps, t.index)
    ensures t.WireAt? && t.index < |d.wires| ==> r.wires == RemoveAt(d.wires, t.index)
    ensures t.CompAt? && t.index < |d.comps| ==> multiset(r.comps) + multiset{d.comps[t.index]} == multiset(d.comps)
    ensures t.WireAt? && t.index < |d.wires| ==> multiset(r.wires) + multiset{d.wires[t.index]} == multiset(d.wires)
    ensures (t.CompAt? && t.index >= |d.comps|) || (t.WireAt? && t.index >= |d.wires|) ==> r == d
  {
    match t
    case CompAt(i) =>
      if i < |d.comps| then
        assert d.comps == d.comps[..i] + [d.comps[i]] + d.comps[i + 1..];
        d.(comps := RemoveAt(d.comps, i))
      else d
    case WireAt(i) =>
      if i < |d.wires| then
        assert d.wires == d.wires[..i] + [d.wires[i]] + d.wires[i + 1..];
        d.(wires := RemoveAt(d.wires, i))
      else d
  }

  // ---------------------------------------------------------------- box delete

  /** The axis-aligned box spanned by two drag corners, in either order
      (`sorted([start_x, event.x])`), boundary included. */
  predicate InBox(p: Point, c1: Point, c2: Point) {
    Min(c1.x, c2.x) <= p.x <= Max(c1.x, c2.x) && Min(c1.y, c2.y) <= p.y <= Max(c1.y, c2.y)
  }

  lemma InBoxCornersCommute(p: Point, c1: Point, c2: Point)
    ensures InBox(p, c1, c2) == InBox(p, c2, c1)
  {
  }

  /** The components a box drag keeps: those whose position lies outside. */
  function KeepComps(comps: seq<Component>, c1: Point, c2: Point): (r: seq<Component>)
    ensures |r| <= |comps|
  {
    if |comps| == 0 then []
    else
      var rest := KeepComps(comps[1..], c1, c2);
      if InBox(comps[0].pos, c1, c2) then rest else [comps[0]] + rest
  }

  /** A wire goes only when both of its ends are inside the box. */
  predicate WireInBox(w: Wire, c1: Point, c2: Point) {
    InBox(w.start, c1, c2) && InBox(w.end, c1, c2)
  }

  function KeepWires(wires: seq<Wire>, c1: Point, c2: Point): (r: seq<Wire>)
    ensures |r| <= |wires|
  {
    if |wires| == 0 then []
    else
      var rest := KeepWires(wires[1..], c1, c2);
      if WireInBox(wires[0], c1, c2) then rest else [wires[0]] + rest
  }

  /** The kept components keep their order: keeping distributes over
      concatenation, and a single component stays exactly when it is outside. */
  lemma KeepCompsInOrder(a: seq<Component>, b: seq<Component>, c1: Point, c2: Point)
    ensures KeepComps(a + b, c1, c2) == KeepComps(a, c1, c2) + KeepComps(b, c1, c2)
    ensures forall c :: KeepComps([c], c1, c2) == if InBox(c.pos, c1, c2) then [] else [c]
  {
    KeepCompsAppend(a, b, c1, c2);
    forall c
      ensures KeepComps([c], c1, c2) == if InBox(c.pos, c1, c2) then [] else [c]
    {
      assert [c][1..] == [];
    }
  }

  lemma {:induction false} KeepCompsAppend(a: seq<Component>, b: seq<Component>, c1: Point, c2: Point)
    ensures KeepComps(a + b, c1, c2) == KeepComps(a, c1, c2) + KeepComps(b, c1, c2)
    decreases |a|
  {
    if |a| > 0 {
      var ab := a + b;
      assert ab[0] == a[0] && ab[1..] == a[1..] + b;
      var head := if InBox(a[0].pos, c1, c2) then [] else [a[0]];
      KeepCompsCons(ab, c1, c2);
      KeepCompsCons(a, c1, c2);
      calc {
        KeepComps(ab, c1, c2);
        head + KeepComps(a[1..] + b, c1, c2);
        { KeepCompsAppend(a[1..], b, c1, c2); }
        head + (KeepComps(a[1..], c1, c2) + KeepComps(b, c1, c2));
        (head + KeepComps(a[1..], c1, c2)) + KeepComps(b, c1, c2);
      }
    } else {
      assert a + b == b;
    }
  }

  lemma KeepCompsCons(s: seq<Component>, c1: Point, c2: Point)
    requires |s| > 0
    ensures KeepComps(s, c1, c2) == (if InBox(s[0].pos, c1, c2) then [] else [s[0]]) + KeepComps(s[1..], c1, c2)
  {
  }




  /** The kept wires keep their order, as for components. */
  lemma KeepWiresInOrder(a: seq<Wire>, b: seq<Wire>, c1: Point, c2: Point)
    ensures KeepWires(a + b, c1, c2) == KeepWires(a, c1, c2) + KeepWires(b, c1, c2)
    ensures forall w :: KeepWires([w], c1, c2) == if WireInBox(w, c1, c2) then [] else [w]
  {
    KeepWiresAppend(a, b, c1, c2);
    forall w
      ensures KeepWires([w], c1, c2) == if WireInBox(w, c1, c2) then [] else [w]
    {
      assert [w][1..] == [];
    }
  }

  lemma {:induction false} KeepWiresAppend(a: seq<Wire>, b: seq<Wire>, c1: Point, c2: Point)
    ensures KeepWires(a + b, c1, c2) == KeepWires(a, c1, c2) + KeepWires(b, c1, c2)
    decreases |a|
  {
    if |a| > 0 {
      var ab := a + b;
      assert ab[0] == a[0] && ab[1..] == a[1..] + b;
      var head := if WireInBox(a[0], c1, c2) then [] else [a[0]];
      KeepWiresCons(ab, c1, c2);
      KeepWiresCons(a, c1, c2);
      calc {
        KeepWires(ab, c1, c2);
        head + KeepWires(a[1..] + b, c1, c2);
        { KeepWiresAppend(a[1..], b, c1, c2); }
        head + (KeepWires(a[1..], c1, c2) + KeepWires(b, c1, c2));
        (head + KeepWires(a[1..], c1, c2)) + KeepWires(b, c1, c2);
      }
    } else {
      assert a + b == b;
    }
  }

  lemma KeepWiresCons(s: seq<Wire>, c1: Point, c2: Point)
    requires |s| > 0
    ensures KeepWires(s, c1, c2) == (if WireInBox(s[0], c1, c2) then [] else [s[0]]) + KeepWires(s[1..], c1, c2)
  {
  }




  /** Each component outside the box is kept as often as it occurs; none inside is. */
  lemma {:induction false} KeepCompsMembers(comps: seq<Component>, c1: Point, c2: Point)
    ensures forall c :: c in KeepComps(comps, c1, c2) <==> c in comps && !InBox(c.pos, c1, c2)
    decreases |comps|
  {
    if |comps| > 0 {
      KeepCompsMembers(comps[1..], c1, c2);
      KeepCompsCons(comps, c1, c2);
      assert forall c :: c in comps <==> c == comps[0] || c in comps[1..];
    }
  }

  lemma {:induction false} KeepCompsCount(comps: seq<Component>, c1: Point, c2: Point)
    ensures forall c :: multiset(KeepComps(comps, c1, c2))[c] == if InBox(c.pos, c1, c2) then 0 else multiset(comps)[c]
    decreases |comps|
  {
    if |comps| > 0 {
      var rest := comps[1..];
      var head := if InBox(comps[0].pos, c1, c2) then [] else [comps[0]];
      KeepCompsCount(rest, c1, c2);
      KeepCompsCons(comps, c1, c2);
      assert multiset(comps) == multiset{comps[0]} + multiset(rest) by {
        assert comps == [comps[0]] + rest;
      }
      assert multiset(KeepComps(comps, c1, c2)) == multiset(head) + multiset(KeepComps(rest, c1, c2));
    }
  }

  /** Each wire not wholly inside the box is kept as often as it occurs. */
  lemma {:induction false} KeepWiresMembers(wires: seq<Wire>, c1: Point, c2: Point)
    ensures forall w :: w in KeepWires(wires, c1, c2) <==> w in wires && !WireInBox(w, c1, c2)
    decreases |wires|
  {
    if |wires| > 0 {
      KeepWiresMembers(wires[1..], c1, c2);
      KeepWiresCons(wires, c1, c2);
      assert forall w :: w in wires <==> w == wires[0] || w in wires[1..];
    }
  }

  lemma {:induction false} KeepWiresCount(wires: seq<Wire>, c1: Point, c2: Point)
    ensures forall w :: multiset(KeepWires(wires, c1, c2))[w] == if WireInBox(w, c1, c2) then 0 else multiset(wires)[w]
    decreases |wires|
  {
    if |wires| > 0 {
      var rest := wires[1..];
      var head := if WireInBox(wires[0], c1, c2) then [] else [wires[0]];
      KeepWiresCount(rest, c1, c2);
      KeepWiresCons(wires, c1, c2);
      assert multiset(wires) == multiset{wires[0]} + multiset(rest) by {
        assert wires == [wires[0]] + rest;
      }
      assert multiset(KeepWires(wires, c1, c2)) == multiset(head) + multiset(KeepWires(rest, c1, c2));
    }
  }

  /** The box branch of `on_release` in delete mode. */
  function BoxDelete(d: Doc, c1: Point, c2: Point): (r: Doc)
    ensures r.counts == d.counts
    ensures forall c :: c in r.comps <==> c in d.comps && !InBox(c.pos, c1, c2)
    ensures forall w :: w in r.wires <==> w in d.wires && !WireInBox(w, c1, c2)
    ensures forall c :: multiset(r.comps)[c] == if InBox(c.pos, c1, c2) then 0 else multiset(d.comps)[c]
    ensures forall w :: multiset(r.wires)[w] == if WireInBox(w, c1, c2) then 0 else multiset(d.wires)[w]
  {
    KeepCompsMembers(d.comps, c1, c2);
    KeepWiresMembers(d.wires, c1, c2);
    KeepCompsCount(d.comps, c1, c2);
    KeepWiresCount(d.wires, c1, c2);
    Doc(KeepComps(d.comps, c1, c2), KeepWires(d.wires, c1, c2), d.counts)
  }

  lemma {:induction false} KeepCompsIdempotent(comps: seq<Component>, c1: Point, c2: Point)
    ensures KeepComps(KeepComps(comps, c1, c2), c1, c2) == KeepComps(comps, c1, c2)
    decreases |comps|
  {
    if |comps| > 0 {
      KeepCompsIdempotent(comps[1..], c1, c2);
      var rest := KeepComps(comps[1..], c1, c2);
      if !InBox(comps[0].pos, c1, c2) {
        assert ([comps[0]] + rest)[1..] == rest;
      }
    }
  }

  lemma {:induction false} KeepWiresIdempotent(wires: seq<Wire>, c1: Point, c2: Point)
    ensures KeepWires(KeepWires(wires, c1, c2), c1, c2) == KeepWires(wires, c1, c2)
    decreases |wires|
  {
    if |wires| > 0 {
      KeepWiresIdempotent(wires[1..], c1, c2);
      var rest := KeepWires(wires[1..], c1, c2);
      if !WireInBox(wires[0], c1, c2) {
        assert ([wires[0]] + rest)[1..] == rest;
      }
    }
  }

  /** Dragging the same box a second time removes nothing more. */
  lemma BoxDeleteIdempotent(d: Doc, c1: Point, c2: Point)
    ensures BoxDelete(BoxDelete(d, c1, c2), c1, c2) == BoxDelete(d, c1, c2)
  {
    KeepCompsIdempotent(d.comps, c1, c2);
    KeepWiresIdempotent(d.wires, c1, c2);
  }
}
