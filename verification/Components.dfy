/** Circuit components (components.py): their terminal tables, placement with
    per-prefix default names, absolute terminal positions, the rotate and
    flip toggles, and the rules by which the property dialogs write back. */
module Components {
  import opened Text
  import opened Geometry

  /** A connection point, at `rel` in the component's own frame.  A non-empty
      `customNetName` asks for the net through it to carry that name. */
  datatype Terminal = Terminal(name: string, rel: Point, customNetName: string)

  datatype SourceFunction = Dc | Ac | Pulse | Sin

  /** The source parameters, one string table per source function. */
  type SourceParams = map<SourceFunction, map<string, string>>

  datatype Kind =
    | Resistor
    | Inductor
    | Capacitor
    | Pin
    | Mos(pType: bool, model: string, w: string, l: string)
    | Source(isCurrent: bool, sourceType: SourceFunction, params: SourceParams)

  datatype Component = Component(
    kind: Kind,
    name: string,
    value: string,
    pos: Point,
    rotation: Angle,
    mirror: bool,
    terminals: seq<Terminal>)

  /** The part codes of the toolbar (`add_comp`). */
  datatype Part = ResistorPart | InductorPart | CapacitorPart | NmosPart | PmosPart
                | VoltagePart | CurrentPart | PinPart

  /** The toolbar code of each part; any other code places nothing. */
  function PartOfCode(code: string): (r: Option<Part>)
    ensures r.Some? ==> Code(r.value) == code
  {
    if code == "R" then Some(ResistorPart)
    else if code == "L" then Some(InductorPart)
    else if code == "C" then Some(CapacitorPart)
    else if code == "NMOS" then Some(NmosPart)
    else if code == "PMOS" then Some(PmosPart)
    else if code == "V" then Some(VoltagePart)
    else if code == "I" then Some(CurrentPart)
    else if code == "PIN" then Some(PinPart)
    else None
  }

  function Code(part: Part): string {
    match part
    case ResistorPart => "R"
    case InductorPart => "L"
    case CapacitorPart => "C"
    case NmosPart => "NMOS"
    case PmosPart => "PMOS"
    case VoltagePart => "V"
    case CurrentPart => "I"
    case PinPart => "PIN"
  }

  /** Every part has a code, and the code names that part back. */
  lemma PartCodeRoundTrip(part: Part)
    ensures PartOfCode(Code(part)) == Some(part)
  {
  }

  /** The prefix each class passes to `Component.__init__`. */
  function Prefix(part: Part): string {
    match part
    case ResistorPart => "R"
    case InductorPart => "L"
    case CapacitorPart => "C"
    case NmosPart => "M_N"
    case PmosPart => "M_P"
    case VoltagePart => "V"
    case CurrentPart => "I"
    case PinPart => "PIN"
  }

  lemma PrefixHasNoDigits(part: Part)
    ensures NoDigits(Prefix(part))
  {
  }

  // ---------------------------------------------------------------- terminals

  function Term(name: string, x: real, y: real): Terminal {
    Terminal(name, Point(x, y), "")
  }

  /** The `setup_terminals` table of each part, in declaration order. */
  function TerminalTable(part: Part): seq<Terminal> {
    match part
    case VoltagePart => [Term("+", 0.0, -20.0), Term("-", 0.0, 20.0)]
    case CurrentPart => [Term("in", 0.0, -20.0), Term("out", 0.0, 20.0)]
    case PinPart => [Term("pin", 0.0, 0.0)]
    case NmosPart => MosTerminals()
    case PmosPart => MosTerminals()
    case _ => [Term("n1", -30.0, 0.0), Term("n2", 30.0, 0.0)]
  }

  function MosTerminals(): seq<Terminal> {
    [Term("D", 20.0, -25.0), Term("G", -30.0, 0.0), Term("S", 20.0, 25.0), Term("B", 20.0, 0.0)]
  }

  predicate DistinctTerminalNames(ts: seq<Terminal>) {
    forall i, j :: 0 <= i < j < |ts| ==> ts[i].name != ts[j].name
  }

  /** Within a fresh component no two terminals share a name or a position,
      and no terminal carries an override. */
  lemma TerminalTableWellFormed(part: Part)
    ensures DistinctTerminalNames(TerminalTable(part))
    ensures forall i, j :: 0 <= i < j < |TerminalTable(part)| ==> TerminalTable(part)[i].rel != TerminalTable(part)[j].rel
    ensures forall i :: 0 <= i < |TerminalTable(part)| ==> TerminalTable(part)[i].customNetName == ""
    ensures |TerminalTable(part)| == (match part case PinPart => 1 case NmosPart => 4 case PmosPart => 4 case _ => 2)
  {
  }

  // ---------------------------------------------------------------- sources

  const DefaultParams: SourceParams := map[
    Dc := map["dc_val" := "5"],
    Ac := map["mag" := "1", "phase" := "0"],
    Pulse := map["v1" := "0", "v2" := "5", "td" := "0", "tr" := "1n", "tf" := "1n", "pw" := "10n", "per" := "20n"],
    Sin := map["vo" := "0", "va" := "1", "freq" := "1k", "td" := "0", "theta" := "0"]]

  /** The entries `update_display_value` reads are present. */
  predicate ParamsReadable(params: SourceParams) {
    && Dc in params && "dc_val" in params[Dc]
    && Ac in params && "mag" in params[Ac]
  }

  /** `update_display_value`: the text a source shows for its function. */
  function DisplayValue(f: SourceFunction, params: SourceParams): (s: string)
    requires ParamsReadable(params)
    ensures f == Dc ==> s == "DC " + params[Dc]["dc_val"]
    ensures f == Ac ==> s == "AC " + params[Ac]["mag"]
    ensures f == Pulse ==> s == "PULSE"
    ensures f == Sin ==> s == "SIN"
  {
    match f
    case Dc => "DC " + params[Dc]["dc_val"]
    case Ac => "AC " + params[Ac]["mag"]
    case Pulse => "PULSE"
    case Sin => "SIN"
  }

  /** Reads the source function back from a displayed value. */
  function DisplayedFunction(s: string): Option<SourceFunction> {
    if |s| >= 3 && s[..3] == "DC " then Some(Dc)
    else if |s| >= 3 && s[..3] == "AC " then Some(Ac)
    else if s == "PULSE" then Some(Pulse)
    else if s == "SIN" then Some(Sin)
    else None
  }

  /** The displayed value determines the source function, and for DC and AC
      the parameter it shows follows the three-character tag. */
  lemma DisplayValueDecodes(f: SourceFunction, params: SourceParams)
    requires ParamsReadable(params)
    ensures DisplayedFunction(DisplayValue(f, params)) == Some(f)
    ensures f == Dc ==> DisplayValue(f, params)[3..] == params[Dc]["dc_val"]
    ensures f == Ac ==> DisplayValue(f, params)[3..] == params[Ac]["mag"]
  {
    var s := DisplayValue(f, params);
    match f
    case Dc => assert s[..3] == "DC ";
    case Ac => assert s[..3] == "AC ";
    case Pulse => assert s[..3] == "PUL";
    case Sin => assert s[..3] == "SIN";
  }

  /** Two sources showing the same text use the same function. */
  lemma DisplayValueInjective(f: SourceFunction, g: SourceFunction, p: SourceParams, q: SourceParams)
    requires ParamsReadable(p) && ParamsReadable(q)
    requires DisplayValue(f, p) == DisplayValue(g, q)
    ensures f == g
  {
    DisplayValueDecodes(f, p);
    DisplayValueDecodes(g, q);
  }

  // ---------------------------------------------------------------- placement

  /** The per-prefix counters of `Component._counts`, threaded explicitly. */
  type Counts = map<string, nat>

  function CountOf(counts: Counts, prefix: string): nat {
    if prefix in counts then counts[prefix] else 0
  }

  function KindOf(part: Part): Kind {
    match part
    case ResistorPart => Resistor
    case InductorPart => Inductor
    case CapacitorPart => Capacitor
    case PinPart => Pin
    case NmosPart => Mos(false, "nch", "1u", "0.18u")
    case PmosPart => Mos(true, "pch", "1u", "0.18u")
    case VoltagePart => Source(false, Dc, DefaultParams)
    case CurrentPart => Source(true, Dc, DefaultParams)
  }

  function DefaultValue(part: Part): string {
    match part
    case PinPart => ""
    case VoltagePart => DisplayValue(Dc, DefaultParams)
    case CurrentPart => DisplayValue(Dc, DefaultParams)
    case _ => "1k"
  }

  datatype Placed = Placed(comp: Component, counts: Counts)

  /** `Component.__init__` followed by the subclass constructor: the position
      is snapped, the prefix's counter goes up by one and the new count
      becomes the name's number. */
  function Place(counts: Counts, part: Part, x: real, y: real): (r: Placed)
    ensures r.comp.pos == Point(Snap(x), Snap(y))
    ensures OnGrid(r.comp.pos.x) && OnGrid(r.comp.pos.y)
    ensures r.comp.rotation == 0 && !r.comp.mirror
    ensures CountOf(r.counts, Prefix(part)) == CountOf(counts, Prefix(part)) + 1
    ensures forall p :: p != Prefix(part) ==> CountOf(r.counts, p) == CountOf(counts, p)
    ensures r.comp.name == Prefix(part) + NatToString(CountOf(r.counts, Prefix(part)))
    ensures r.comp.terminals == TerminalTable(part)
  {
    var prefix := Prefix(part);
    var n := CountOf(counts, prefix) + 1;
    var comp := Component(KindOf(part), prefix + NatToString(n), DefaultValue(part),
                          Point(Snap(x), Snap(y)), 0, false, TerminalTable(part));
    Placed(comp, counts[prefix := n])
  }

  /** A default name gives back both its prefix and its number. */
  lemma DefaultNameInjective(p1: Part, n1: nat, p2: Part, n2: nat)
    requires Prefix(p1) + NatToString(n1) == Prefix(p2) + NatToString(n2)
    ensures Prefix(p1) == Prefix(p2) && n1 == n2
  {
    PrefixHasNoDigits(p1);
    PrefixHasNoDigits(p2);
    PrefixDigitsSplit(Prefix(p1), NatToString(n1), Prefix(p2), NatToString(n2));
    NatToStringInjective(n1, n2);
  }

  /** How many of `parts` share the prefix `p`. */
  function PrefixCount(parts: seq<Part>, p: string): (n: nat)
    ensures n <= |parts|
  {
    if |parts| == 0 then 0
    else PrefixCount(parts[..|parts| - 1], p) + (if Prefix(parts[|parts| - 1]) == p then 1 else 0)
  }

  /** The default name of the `i`-th part of a run of placements: its prefix
      and the number of parts with that prefix placed so far, this one included. */
  function NameAt(counts: Counts, parts: seq<Part>, i: nat): string
    requires i < |parts|
  {
    Prefix(parts[i]) + NatToString(CountOf(counts, Prefix(parts[i])) + PrefixCount(parts[..i + 1], Prefix(parts[i])))
  }

  /** A run of toolbar clicks: each part is placed in turn at `at`, the
      counters threading from one placement to the next.  Every name is its
      prefix followed by how many parts of that prefix have been placed so
      far, and no two names coincide. */
  method PlaceAll(counts: Counts, parts: seq<Part>, at: Point) returns (comps: seq<Component>, after: Counts)
    ensures |comps| == |parts|
    ensures forall p :: CountOf(after, p) == CountOf(counts, p) + PrefixCount(parts, p)
    ensures forall i :: 0 <= i < |parts| ==>
      comps[i].name == NameAt(counts, parts, i)
    ensures forall i, j :: 0 <= i < j < |parts| ==> comps[i].name != comps[j].name
  {
    comps, after := [], counts;
    var n := 0;
    while n < |parts|
      invariant 0 <= n <= |parts| && |comps| == n
      invariant CountsAfter(counts, parts, n, after)
      invariant forall i :: 0 <= i < n ==> comps[i].name == NameAt(counts, parts, i)
    {
      comps, after := PlaceNext(counts, parts, n, comps, after, at);
      n := n + 1;
    }
    assert parts[..n] == parts;
    NamesAtDistinct(counts, parts, comps);
  }

  /** One click of a run: the `n`-th part is placed and named. */
  method PlaceNext(counts: Counts, parts: seq<Part>, n: nat, comps0: seq<Component>, after0: Counts, at: Point)
    returns (comps: seq<Component>, after: Counts)
    requires n < |parts| && |comps0| == n && CountsAfter(counts, parts, n, after0)
    requires forall i :: 0 <= i < n ==> comps0[i].name == NameAt(counts, parts, i)
    ensures |comps| == n + 1 && comps[..n] == comps0 && CountsAfter(counts, parts, n + 1, after)
    ensures forall i :: 0 <= i < n + 1 ==> comps[i].name == NameAt(counts, parts, i)
  {
    var placed := Place(after0, parts[n], at.x, at.y);
    PlaceStep(counts, parts, n, after0, at);
    comps, after := comps0 + [placed.comp], placed.counts;
  }

  lemma NamesAtDistinct(counts: Counts, parts: seq<Part>, comps: seq<Component>)
    requires |comps| == |parts|
    requires forall i :: 0 <= i < |parts| ==> comps[i].name == NameAt(counts, parts, i)
    ensures forall i, j :: 0 <= i < j < |parts| ==> comps[i].name != comps[j].name
  {
    forall i, j | 0 <= i < j < |parts|
      ensures comps[i].name != comps[j].name
    {
      NumberedNamesDistinct(counts, parts, i, j);
    }
  }

  /** The counters after the first `n` parts of a run have been placed. */
  ghost predicate CountsAfter(counts: Counts, parts: seq<Part>, n: nat, after: Counts)
    requires n <= |parts|
  {
    forall p :: CountOf(after, p) == CountOf(counts, p) + PrefixCount(parts[..n], p)
  }

  lemma PlaceStep(counts: Counts, parts: seq<Part>, n: nat, after: Counts, at: Point)
    requires n < |parts| && CountsAfter(counts, parts, n, after)
    ensures CountsAfter(counts, parts, n + 1, Place(after, parts[n], at.x, at.y).counts)
    ensures Place(after, parts[n], at.x, at.y).comp.name == NameAt(counts, parts, n)
  {
    var placed := Place(after, parts[n], at.x, at.y);
    var p := Prefix(parts[n]);
    PrefixCountSnoc(parts, n);
    assert CountOf(placed.counts, p) == CountOf(counts, p) + PrefixCount(parts[..n + 1], p);
  }

  lemma PrefixCountSnoc(parts: seq<Part>, n: nat)
    requires n < |parts|
    ensures forall p :: PrefixCount(parts[..n + 1], p) == PrefixCount(parts[..n], p) + (if Prefix(parts[n]) == p then 1 else 0)
  {
    assert parts[..n + 1][..n] == parts[..n];
  }

  /** A later part with the same prefix has seen strictly more of that prefix. */
  lemma PrefixCountGrows(parts: seq<Part>, i: nat, j: nat)
    requires i < j < |parts| && Prefix(parts[i]) == Prefix(parts[j])
    ensures PrefixCount(parts[..i + 1], Prefix(parts[i])) < PrefixCount(parts[..j + 1], Prefix(parts[i]))
  {
    var p := Prefix(parts[i]);
    PrefixCountUpTo(parts, i, j - 1, p);
    assert parts[..j - 1 + 1] == parts[..j];
    PrefixCountStep(parts, j, p);
  }

  lemma PrefixCountStep(parts: seq<Part>, k: nat, p: string)
    requires k < |parts|
    ensures PrefixCount(parts[..k + 1], p) == PrefixCount(parts[..k], p) + (if Prefix(parts[k]) == p then 1 else 0)
  {
    assert parts[..k + 1][..k] == parts[..k];
  }

  lemma {:induction false} PrefixCountUpTo(parts: seq<Part>, i: nat, k: nat, p: string)
    requires i <= k < |parts|
    ensures PrefixCount(parts[..i + 1], p) <= PrefixCount(parts[..k + 1], p)
    decreases k - i
  {
    if i < k {
      PrefixCountUpTo(parts, i, k - 1, p);
      assert parts[..k - 1 + 1] == parts[..k];
      PrefixCountStep(parts, k, p);
    }
  }

  /** Two different positions in a run of placements get different numbered names. */
  lemma NumberedNamesDistinct(counts: Counts, parts: seq<Part>, i: nat, j: nat)
    requires i < j < |parts|
    ensures NameAt(counts, parts, i) != NameAt(counts, parts, j)
  {
    var pi, pj := Prefix(parts[i]), Prefix(parts[j]);
    var ni := CountOf(counts, pi) + PrefixCount(parts[..i + 1], pi);
    var nj := CountOf(counts, pj) + PrefixCount(parts[..j + 1], pj);
    if pi + NatToString(ni) == pj + NatToString(nj) {
      DefaultNameInjective(parts[i], ni, parts[j], nj);
      PrefixCountGrows(parts, i, j);
    }
  }

  // ---------------------------------------------------------------- absolute terminals

  datatype AbsTerminal = AbsTerminal(term: Terminal, at: Point)

  /** Where a terminal at `rel` lands for the component `c`. */
  function TerminalAt(c: Component, rel: Point): Point {
    TransformPoint(rel, c.pos, c.rotation, c.mirror, 1.0)
  }

  /** `get_abs_terminals`: one entry per terminal, in terminal order. */
  function AbsTerminals(c: Component): (r: seq<AbsTerminal>)
    ensures |r| == |c.terminals|
    ensures forall i :: 0 <= i < |r| ==> r[i].term == c.terminals[i]
    ensures forall i :: 0 <= i < |r| ==>
      [r[i].at] == TransformCoords([c.terminals[i].rel], c.pos, c.rotation, c.mirror, 1.0)
  {
    seq(|c.terminals|, i requires 0 <= i < |c.terminals| => AbsTerminal(c.terminals[i], TerminalAt(c, c.terminals[i].rel)))
  }

  /** Seen from the component's position, a terminal sits at its relative
      offset, mirrored and then turned. */
  lemma TerminalOffset(c: Component, rel: Point)
    ensures Sub(TerminalAt(c, rel), c.pos) == RotatePoint(if c.mirror then MirrorX(rel) else rel, c.rotation)
  {
  }

  /** An unrotated, unmirrored component puts its terminals at position plus offset. */
  lemma FreshTerminalsTranslate(c: Component, i: nat)
    requires c.rotation == 0 && !c.mirror && i < |c.terminals|
    ensures AbsTerminals(c)[i].at == Add(c.terminals[i].rel, c.pos)
  {
    TransformIdentityIsTranslation(c.terminals[i].rel, c.pos);
  }

  /** Moving a component by `d` moves each of its terminals by `d`. */
  lemma MoveShiftsTerminals(c: Component, d: Point, i: nat)
    requires i < |c.terminals|
    ensures AbsTerminals(c.(pos := Add(c.pos, d)))[i].at == Add(AbsTerminals(c)[i].at, d)
  {
    TransformShift(c.terminals[i].rel, c.pos, d, c.rotation, c.mirror);
  }

  // ---------------------------------------------------------------- rotate and flip

  lemma MultipleMod(k: int)
    ensures (90 * k) % 360 == 90 * (k % 4)
  {
    var q := k / 4;
    var m := k % 4;
    assert 90 * k == 360 * q + 90 * m;
  }

  lemma QuarterMod(a: Angle)
    ensures (a + 90) % 360 % 90 == 0
    ensures Quarters((a + 90) % 360) == Quarters(a + 90)
  {
    var k := a / 90 + 1;
    assert a + 90 == 90 * k;
    MultipleMod(k);
    var m := k % 4;
    assert (a + 90) % 360 == 90 * m;
    assert (90 * m) / 90 == m;
    assert (a + 90) / 90 == k;
  }

  /** The four angles in [0, 360). */
  lemma AngleCases(a: Angle)
    requires 0 <= a < 360
    ensures a == 0 || a == 90 || a == 180 || a == 270
  {
    var k := a / 90;
    assert a == 90 * k;
  }

  /** `rotate`: a quarter turn counter-clockwise, kept in [0, 360). */
  function Rotate(c: Component): (r: Component)
    ensures 0 <= r.rotation < 360
    ensures Quarters(r.rotation) == (Quarters(c.rotation) + 1) % 4
    ensures r.(rotation := c.rotation) == c
  {
    QuarterMod(c.rotation);
    QuartersOfSum(c.rotation, 90);
    assert Quarters(90) == 1;
    c.(rotation := (c.rotation + 90) % 360)
  }

  /** Four rotations bring a component back, and from 0 the rotation only
      visits 0, 90, 180 and 270. */
  lemma RotateFourTimes(c: Component)
    requires 0 <= c.rotation < 360
    ensures Rotate(Rotate(Rotate(Rotate(c)))) == c
    ensures c.rotation == 0 ==>
      (Rotate(c).rotation == 90 && Rotate(Rotate(c)).rotation == 180 && Rotate(Rotate(Rotate(c))).rotation == 270)
  {
    var r1 := Rotate(c);
    var r2 := Rotate(r1);
    var r3 := Rotate(r2);
    NextQuarter(c);
    NextQuarter(r1);
    NextQuarter(r2);
    NextQuarter(r3);
  }

  /** One rotation steps 0, 90, 180, 270 round to 0 again. */
  lemma NextQuarter(c: Component)
    requires 0 <= c.rotation < 360
    ensures Rotate(c) == c.(rotation := if c.rotation == 270 then 0 else c.rotation + 90)
  {
    AngleCases(c.rotation);
  }

  /** Rotating turns every terminal a quarter turn about the component's position. */
  lemma RotateTurnsTerminals(c: Component, i: nat)
    requires i < |c.terminals|
    ensures Sub(AbsTerminals(Rotate(c))[i].at, c.pos) == RotatePoint(Sub(AbsTerminals(c)[i].at, c.pos), 90)
  {
    var rel := c.terminals[i].rel;
    var m := if c.mirror then MirrorX(rel) else rel;
    TerminalOffset(c, rel);
    TerminalOffset(Rotate(c), rel);
    RotateCompose(m, c.rotation, 90);
    QuarterMod(c.rotation);
  }

  /** `flip`: toggles the mirror flag. */
  function Flip(c: Component): (r: Component)
    ensures r.mirror != c.mirror
    ensures r.(mirror := c.mirror) == c
  {
    c.(mirror := !c.mirror)
  }

  lemma FlipTwice(c: Component)
    ensures Flip(Flip(c)) == c
  {
  }

  /** Flipping reflects every terminal across the component's own (turned)
      vertical axis: undo the turn, negate x, turn again. */
  lemma FlipReflectsTerminals(c: Component, i: nat)
    requires i < |c.terminals|
    ensures Sub(AbsTerminals(Flip(c))[i].at, c.pos)
         == RotatePoint(MirrorX(RotatePoint(Sub(AbsTerminals(c)[i].at, c.pos), -c.rotation)), c.rotation)
  {
    var rel := c.terminals[i].rel;
    var m := if c.mirror then MirrorX(rel) else rel;
    TerminalOffset(c, rel);
    TerminalOffset(Flip(c), rel);
    RotateFullTurn(m, c.rotation);
  }

  // ---------------------------------------------------------------- property dialogs

  /** A dialog field replaces the old text only when it is not empty. */
  function KeepIfEmpty(current: string, field: string): (r: string)
    ensures field != [] ==> r == field
    ensures field == [] ==> r == current
  {
    if field != [] then field else current
  }

  /** Terminal `i` takes `values[i + offset]` as its override when that index exists. */
  function SetNetNames(ts: seq<Terminal>, values: seq<string>, offset: nat): (r: seq<Terminal>)
    ensures |r| == |ts|
    ensures forall i :: 0 <= i < |ts| ==> r[i].name == ts[i].name && r[i].rel == ts[i].rel
    ensures forall i :: 0 <= i < |ts| && i + offset < |values| ==> r[i].customNetName == values[i + offset]
    ensures forall i :: 0 <= i < |ts| && i + offset >= |values| ==> r[i] == ts[i]
  {
    seq(|ts|, i requires 0 <= i < |ts| =>
      if i + offset < |values| then ts[i].(customNetName := values[i + offset]) else ts[i])
  }

  /** `apply_properties` (resistor, inductor, capacitor): name, value, then one
      override per terminal. */
  function ApplyProperties(c: Component, values: seq<string>): (r: Component)
    requires |values| >= 2
    ensures r.name == KeepIfEmpty(c.name, values[0])
    ensures r.value == KeepIfEmpty(c.value, values[1])
    ensures r.terminals == SetNetNames(c.terminals, values, 2)
    ensures r.(name := c.name, value := c.value, terminals := c.terminals) == c
  {
    c.(name := KeepIfEmpty(c.name, values[0]),
       value := KeepIfEmpty(c.value, values[1]),
       terminals := SetNetNames(c.terminals, values, 2))
  }

  function NetNames(ts: seq<Terminal>): (r: seq<string>)
    ensures |r| == |ts|
    ensures forall i :: 0 <= i < |ts| ==> r[i] == ts[i].customNetName
  {
    seq(|ts|, i requires 0 <= i < |ts| => ts[i].customNetName)
  }

  /** The `defaults` list `edit_properties` fills the dialog with. */
  function PropertyDefaults(c: Component): seq<string> {
    [c.name, c.value] + NetNames(c.terminals)
  }

  /** Confirming the dialog unchanged leaves the component as it was. */
  lemma ApplyDefaultsIsIdentity(c: Component)
    ensures ApplyProperties(c, PropertyDefaults(c)) == c
  {
    var r := ApplyProperties(c, PropertyDefaults(c));
    assert r.terminals == c.terminals;
  }

  /** Confirming the same dialog twice is confirming it once. */
  lemma ApplyPropertiesIdempotent(c: Component, values: seq<string>)
    requires |values| >= 2
    ensures ApplyProperties(ApplyProperties(c, values), values) == ApplyProperties(c, values)
  {
    var once := ApplyProperties(c, values);
    assert ApplyProperties(once, values).terminals == once.terminals;
  }

  /** `apply_cmos_props`: name, model, W and L, then overrides from index 4. */
  function ApplyCmosProps(c: Component, values: seq<string>): (r: Component)
    requires c.kind.Mos? && |values| >= 4
    ensures r.name == KeepIfEmpty(c.name, values[0])
    ensures r.kind == c.kind.(model := KeepIfEmpty(c.kind.model, values[1]),
                              w := KeepIfEmpty(c.kind.w, values[2]),
                              l := KeepIfEmpty(c.kind.l, values[3]))
    ensures r.terminals == SetNetNames(c.terminals, values, 4)
    ensures r.(name := c.name, kind := c.kind, terminals := c.terminals) == c
  {
    c.(name := KeepIfEmpty(c.name, values[0]),
       kind := c.kind.(model := KeepIfEmpty(c.kind.model, values[1]),
                       w := KeepIfEmpty(c.kind.w, values[2]),
                       l := KeepIfEmpty(c.kind.l, values[3])),
       terminals := SetNetNames(c.terminals, values, 4))
  }

  function CmosDefaults(c: Component): seq<string>
    requires c.kind.Mos?
  {
    [c.name, c.kind.model, c.kind.w, c.kind.l] + NetNames(c.terminals)
  }

  lemma ApplyCmosDefaultsIsIdentity(c: Component)
    requires c.kind.Mos?
    ensures ApplyCmosProps(c, CmosDefaults(c)) == c
  {
    var r := ApplyCmosProps(c, CmosDefaults(c));
    assert r.terminals == c.terminals;
  }

  /** `apply_pin_props`: the single field renames the pin, unless it is empty. */
  function ApplyPinProps(c: Component, values: seq<string>): (r: Component)
    requires |values| >= 1
    ensures values[0] != [] ==> r.name == values[0]
    ensures values[0] == [] ==> r == c
    ensures r.(name := c.name) == c
  {
    c.(name := KeepIfEmpty(c.name, values[0]))
  }

  /** Confirming the pin dialog with the name it shows changes nothing. */
  lemma ApplyPinDefaultsIsIdentity(c: Component)
    ensures ApplyPinProps(c, [c.name]) == c
  {
  }

  /** Applying the same pin field twice equals applying it once. */
  lemma ApplyPinPropsIdempotent(c: Component, values: seq<string>)
    requires |values| >= 1
    ensures ApplyPinProps(ApplyPinProps(c, values), values) == ApplyPinProps(c, values)
  {
  }

  /** The source dialog's OK: a non-empty name renames; every terminal takes
      its field (an empty field clears the override); the chosen function's
      table is overwritten key for key and the display value recomputed. */
  function ApplySourceProps(c: Component, name: string, netNames: seq<string>,
                            f: SourceFunction, entries: map<string, string>): (r: Component)
    requires c.kind.Source? && ParamsReadable(c.kind.params)
    requires |netNames| == |c.terminals|
    requires f in c.kind.params && entries.Keys == c.kind.params[f].Keys
    ensures r.name == KeepIfEmpty(c.name, name)
    ensures NetNames(r.terminals) == netNames
    ensures r.kind.Source? && r.kind.sourceType == f && r.kind.isCurrent == c.kind.isCurrent
    ensures f in r.kind.params && r.kind.params[f] == entries
    ensures forall g :: g in c.kind.params && g != f ==> g in r.kind.params && r.kind.params[g] == c.kind.params[g]
    ensures ParamsReadable(r.kind.params)
    ensures r.value == DisplayValue(f, r.kind.params)
    ensures |r.terminals| == |c.terminals|
    ensures forall i :: 0 <= i < |r.terminals| ==>
      r.terminals[i].(customNetName := c.terminals[i].customNetName) == c.terminals[i]
    ensures r.kind.params.Keys == c.kind.params.Keys
    ensures r.(name := c.name, kind := c.kind, value := c.value, terminals := c.terminals) == c
  {
    var params := c.kind.params[f := entries];
    c.(name := KeepIfEmpty(c.name, name),
       kind := c.kind.(sourceType := f, params := params),
       value := DisplayValue(f, params),
       terminals := SetNetNames(c.terminals, netNames, 0))
  }

  /** Confirming the source dialog with what it shows (the current name, net
      names, function and table) changes nothing, once the display value is
      the one the table gives. */
  lemma ApplySourceDefaultsIsIdentity(c: Component)
    requires c.kind.Source? && ParamsReadable(c.kind.params)
    requires c.kind.sourceType in c.kind.params
    requires c.value == DisplayValue(c.kind.sourceType, c.kind.params)
    ensures ApplySourceProps(c, c.name, NetNames(c.terminals), c.kind.sourceType,
                             c.kind.params[c.kind.sourceType]) == c
  {
    var r := ApplySourceProps(c, c.name, NetNames(c.terminals), c.kind.sourceType, c.kind.params[c.kind.sourceType]);
    assert r.terminals == c.terminals;
    assert r.kind.params == c.kind.params;
  }

  /** Confirming the source dialog twice with the same fields equals confirming it once. */
  lemma ApplySourcePropsIdempotent(c: Component, name: string, netNames: seq<string>,
                                   f: SourceFunction, entries: map<string, string>)
    requires c.kind.Source? && ParamsReadable(c.kind.params)
    requires |netNames| == |c.terminals|
    requires f in c.kind.params && entries.Keys == c.kind.params[f].Keys
    ensures var once := ApplySourceProps(c, name, netNames, f, entries);
      ApplySourceProps(once, name, netNames, f, entries) == once
  {
    var once := ApplySourceProps(c, name, netNames, f, entries);
    var twice := ApplySourceProps(once, name, netNames, f, entries);
    assert twice.terminals == once.terminals;
    assert twice.kind.params == once.kind.params;
  }
}
