# Visualize_Circuit: connectivity and snapping, in Dafny

A Dafny model of the core of a schematic editor. It covers four things:

- the grid and geometry helpers;
- the components: terminal tables, default names, rotate and flip, property write-back;
- the document operations: place, delete, box delete, wire clicks, drag release;
- the connectivity solver, which turns wires and terminals into named nets for the netlist.

Coordinates are exact real pairs. Every distance test is done on squared distances: `dist(p, q) < t` with `t > 0` holds exactly when `Dist2(p, q) < t * t`.

The modules follow the program:

| module | models |
|---|---|
| `Text` | `str()` of a count; `str.strip()` |
| `Geometry` | `circuit_utils.py` |
| `Components` | `components.py` |
| `Document` | the editor's component and wire lists |
| `Connectivity` | the adjacency graph of `solve_connectivity` and reachability |
| `Resolver` | the flood fill, net naming and netlist node lookup |
| `Snapping` | `get_best_snap_point`, wire-mode clicks and the drag snap |

## Model

| member | source | states |
|---|---|---|
| Text.ParseNatToString | components.py:28 | the decimal text of a count reads back as that count |
| Text.NatToStringInjective | components.py:28 | different counts give different number texts |
| Text.PrefixDigitsSplit | components.py:28 | a digit-free prefix followed by digits splits in exactly one way |
| Text.StripEmptyIffBlank | editor.py:450 | `s.strip() != ""` exactly when `s` has a non-whitespace character |
| Geometry.Dist2 | circuit_utils.py:9-11 | the squared distance is never negative, and is zero exactly for equal points |
| Geometry.Dist2Symmetric | circuit_utils.py:9-11 | distance does not depend on argument order |
| Geometry.WithinDistAxes | circuit_utils.py:9-11 | closer than `t` implies closer than `t` on each axis |
| Geometry.RoundHalfEven | circuit_utils.py:7 | Python `round`: within 1/2 of its argument, and even on a tie |
| Geometry.RoundHalfEvenUnique | circuit_utils.py:7 | those two properties determine the rounding uniquely |
| Geometry.Snap | circuit_utils.py:5-7 | the result is a grid multiple within 10 of the input; on a tie it is an even multiple |
| Geometry.SnapIdempotent | circuit_utils.py:5-7 | snapping twice is snapping once |
| Geometry.SnapFixesExactlyGrid | circuit_utils.py:5-7 | a value is left unchanged exactly when it is on the grid |
| Geometry.SnapNearest | circuit_utils.py:5-7 | no grid multiple is closer than the snapped value |
| Geometry.SnapTiesToEven | circuit_utils.py:5-7 | 10 and -10 snap to 0; 30 and 50 snap to 40 |
| Geometry.RotatePoint | circuit_utils.py:13-19 | a quarter-turn rotation keeps the length |
| Geometry.RotateCompose | circuit_utils.py:13-19 | rotating by `a` then by `b` is rotating by `a + b` |
| Geometry.RotateFullTurn | circuit_utils.py:13-19 | a full turn is the identity, and rotating by `-a` undoes rotating by `a` |
| Geometry.TransformCoords | circuit_utils.py:21-34 | one output per input, in order, each transformed pointwise |
| Geometry.TransformRoundTrip | circuit_utils.py:21-34 | at a non-zero scale the transform has an inverse |
| Geometry.TransformIdentityIsTranslation | circuit_utils.py:21-34 | rotation 0, no mirror and scale 1 give a pure translation |
| Geometry.TransformShift | circuit_utils.py:21-34 | at scale 1, moving the offset by `d` moves every point by `d` |
| Geometry.IsPointOnSegment | circuit_utils.py:36-51 | outside the expanded box is never on the segment; a zero-length segment tests the distance to its point |
| Geometry.OnDegenerateSegment | circuit_utils.py:44-46 | on a zero-length segment the test is exactly "closer than the tolerance" |
| Geometry.OnSegmentSymmetric | circuit_utils.py:36-51 | swapping the two ends does not change the answer |
| Geometry.CollinearInBoxOnSegment | circuit_utils.py:36-51 | a collinear point inside the expanded box is on the segment |
| Geometry.EndpointsOnSegment | circuit_utils.py:36-51 | both ends lie on their own segment |
| Geometry.ClosestPointOnSegment | circuit_utils.py:53-62 | a degenerate segment returns its start; otherwise the result is the clamped projection |
| Geometry.ClosestIsNearest | circuit_utils.py:53-62 | no point of the segment is closer to `p` than the returned point |
| Geometry.ClosestInBox | circuit_utils.py:53-62 | the returned point lies in the segment's bounding box |
| Geometry.NearSegmentIsOnSegment | circuit_utils.py:36-62 | a point closer than `tol` to its nearest segment point passes `is_point_on_segment` |
| Components.PartCodeRoundTrip | editor.py:114-126 | every toolbar code names its part back |
| Components.PartOfCode | editor.py:114-126 | a recognised code is the code of the part it returns |
| Components.TerminalTableWellFormed | components.py:253-390 | per part: terminal names and positions are distinct, overrides are empty, and the count is 1, 2 or 4 |
| Components.DisplayValue | components.py:146-155 | shows `DC <dc_val>`, `AC <mag>`, `PULSE` or `SIN` |
| Components.DisplayValueDecodes | components.py:146-155 | the displayed text gives back the source function, and the DC or AC value |
| Components.DisplayValueInjective | components.py:146-155 | two equal displays mean the same source function |
| Components.Place | components.py:16-36 | position snapped to the grid; rotation 0, not mirrored; that prefix's counter up by one and no other counter changed; the name is prefix plus new count; the part's terminal table |
| Components.DefaultNameInjective | components.py:25-28 | a default name determines both its prefix and its number |
| Components.PlaceAll | components.py:25-28 | in a run of placements, every name is prefix plus its count so far, the counters grow by the per-prefix totals, and no two names coincide |
| Components.NumberedNamesDistinct | components.py:25-28 | two placements of one run never share a default name |
| Components.AbsTerminals | components.py:41-46 | one entry per terminal, in order, each the transform of its relative position |
| Components.TerminalOffset | components.py:41-46 | relative to the component position, a terminal is its (mirrored) offset, rotated |
| Components.FreshTerminalsTranslate | components.py:41-46 | an unrotated, unmirrored component puts each terminal at position plus offset |
| Components.MoveShiftsTerminals | components.py:41-46 | moving the component by `d` moves every terminal by `d` |
| Components.Rotate | components.py:83-85 | the angle stays in [0, 360) and gains one quarter turn; nothing else changes |
| Components.RotateFourTimes | components.py:83-85 | four rotations are the identity; from 0 the angle steps 90, 180, 270 |
| Components.RotateTurnsTerminals | components.py:83-85 | rotating turns every terminal a quarter turn about the component position |
| Components.Flip | components.py:87-89 | toggles the mirror flag and changes nothing else |
| Components.FlipTwice | components.py:87-89 | flipping twice is the identity |
| Components.FlipReflectsTerminals | components.py:87-89 | flipping reflects every terminal across the component's turned axis |
| Components.SetNetNames | components.py:103-105 | terminal `i` takes `values[i + offset]` when that index exists and is otherwise unchanged |
| Components.ApplyProperties | components.py:100-106 | a non-empty field replaces name or value; the overrides come from index 2; nothing else changes |
| Components.ApplyDefaultsIsIdentity | components.py:91-106 | confirming the dialog with its defaults changes nothing |
| Components.ApplyPropertiesIdempotent | components.py:100-106 | confirming the same values twice is confirming them once |
| Components.ApplyCmosProps | components.py:401-408 | name, model, W and L are replaced when non-empty; overrides come from index 4; nothing else changes |
| Components.ApplyCmosDefaultsIsIdentity | components.py:394-408 | confirming the MOS dialog with its defaults changes nothing |
| Components.ApplyPinProps | components.py:318-320 | a non-empty field renames the pin; an empty one changes nothing |
| Components.ApplyPinDefaultsIsIdentity | components.py:316-320 | confirming the pin dialog with the name it shows changes nothing |
| Components.ApplyPinPropsIdempotent | components.py:318-320 | applying the same field twice equals applying it once |
| Components.ApplySourceProps | components.py:217-229 | name kept when the field is empty; every terminal takes its field and keeps its name and offset; the function becomes the chosen one; only its table is replaced and no table is added; the display is recomputed; every other field unchanged |
| Components.ApplySourceDefaultsIsIdentity | components.py:217-229 | confirming the dialog with the current name, net names, function and table changes nothing |
| Components.ApplySourcePropsIdempotent | components.py:217-229 | confirming the same fields twice equals confirming them once |
| Document.AddComp | editor.py:114-126 | a known code appends exactly the component `Place` builds at (300, 300) and takes its counters; an unknown code changes nothing |
| Document.AddCompTwiceNumbersInTurn | editor.py:114-126 | two parts of one kind added after `R<n>` are named `R<n+1>` and `R<n+2>`, which differ, and the counter ends at n+2 |
| Document.RemoveAt | editor.py:216 | the list without one entry, the others in order |
| Document.DeleteTarget | editor.py:213-220 | removes the targeted item and keeps the others in order; a stale target changes nothing |
| Document.InBoxCornersCommute | editor.py:327-328 | the box does not depend on which corner came first |
| Document.BoxDelete | editor.py:323-342 | keeps exactly the components whose position lies outside the box, and the wires not wholly inside, each as often as it occurs |
| Document.KeepCompsInOrder | editor.py:331-338 | the kept components keep their order: keeping distributes over concatenation, and one component stays exactly when it is outside |
| Document.KeepWiresInOrder | editor.py:334-339 | the kept wires keep their order, in the same way |
| Document.KeepCompsMembers | editor.py:331-338 | a component is kept exactly when it is listed and lies outside the box |
| Document.KeepWiresMembers | editor.py:334-339 | a wire is kept exactly when it is listed and not wholly inside the box |
| Document.KeepCompsCount | editor.py:331-338 | each component outside the box is kept as often as it occurs, none inside |
| Document.KeepWiresCount | editor.py:334-339 | each wire not wholly inside is kept as often as it occurs |
| Document.BoxDeleteIdempotent | editor.py:323-342 | the same box a second time removes nothing more |
| Connectivity.AllTerminals | editor.py:410-413 | lists exactly the terminal entries of all components |
| Connectivity.AllTerminalsInOrder | editor.py:410-413 | the list runs component by component, each component's terminals in order |
| Connectivity.TerminalListed | editor.py:410-413 | every component terminal, at its absolute position, is listed |
| Connectivity.AllEdgesExact | editor.py:401-423 | the edge list holds exactly what the four rules call for |
| Connectivity.AddEdge | editor.py:394-400 | adds both directions and creates missing keys; no other adjacency appears |
| Connectivity.BuildAdjacency | editor.py:393-400 | `p` and `q` are adjacent exactly when an edge joins them in either direction |
| Connectivity.BuiltAdjacencySymmetric | editor.py:394-400 | the adjacency is symmetric and every neighbour is a key |
| Connectivity.GraphAdjacentIff | editor.py:392-423 | two points are adjacent exactly when one of the rules links them |
| Connectivity.WireEndsAdjacent | editor.py:401-402 | every wire joins its two ends |
| Connectivity.JunctionAdjacent | editor.py:403-409 | an end of one wire lying on another wire is joined to that wire's start |
| Connectivity.TerminalOnWireAdjacent | editor.py:414-416 | a terminal on a wire is joined to that wire's start |
| Connectivity.NearTerminalsAdjacent | editor.py:417-423 | two listed terminals closer than 15 are joined |
| Connectivity.ReachableSymmetric | editor.py:394-400 | reachability is symmetric, because every edge is added both ways |
| Connectivity.ReachableTrans | editor.py:424-441 | reachability composes |
| Connectivity.ClosedKeepsReach | editor.py:424-441 | nothing outside a closed set is reachable from inside it |
| Connectivity.IsolatedReachesOnlyItself | editor.py:436 | a point that is not a key reaches only itself |
| Connectivity.TJunctionJoins | editor.py:403-409 | a wire starting on the middle of another wire is connected to it |
| Connectivity.TwoWiresApart | editor.py:401-409 | two wires with no end on the other, and no shared end, stay unconnected |
| Connectivity.CrossingStaysApart | editor.py:403-409 | two wires that cross mid-span without an end on the other stay unconnected |
| Resolver.ElementsMembers | editor.py:430-433 | the group's point set holds exactly the listed points |
| Resolver.NoRepeatsPairwise | editor.py:438-440 | "never listed twice" is the same as pairwise distinct |
| Resolver.NetOfMember | editor.py:424-441 | along a symmetric graph every member of a net has the same net |
| Resolver.VisitNeighbours | editor.py:436-441 | appends, without repeats, exactly the unvisited neighbours of `curr`, and marks every neighbour visited |
| Resolver.FloodFill | editor.py:429-441 | the group starts at the seed, holds exactly the seed's net, repeats nothing and shares nothing with earlier groups; the visited set stays closed |
| Resolver.FillBound | editor.py:434-441 | a search never lists more points than the graph has keys, plus the seed |
| Resolver.CollectFirst | editor.py:442-451 | a proposal list is non-empty exactly when some terminal of the group proposes, and its head is the first such proposal |
| Resolver.AutoNameInjective | editor.py:455 | different counter values give different `N_k` names |
| Resolver.GroupName | editor.py:442-456 | the name follows the rule (first pin, else first non-blank custom name, else `N_k`); only an automatic name advances the counter |
| Resolver.Assign | editor.py:457-458 | every point of the group maps to the name; the other keys keep theirs |
| Resolver.SolveStep | editor.py:427-458 | one new group keeps every naming invariant |
| Resolver.SolveSkip | editor.py:429 | a terminal already visited changes nothing |
| Resolver.Solve | editor.py:392-459 | every terminal is a key; every net touched lies wholly in the map under one name; only terminal nets appear; every net is named by the rule; `N_k` names are distinct, numbered in first-met order, and are exactly `N_1` to `N_(c-1)` with none skipped |
| Resolver.SolvedNodeNames | editor.py:465-474 | with the solved map no terminal falls back to an `NC_` name; its node is its net's name |
| Resolver.NodeNames | editor.py:467-474 | one node name per terminal: its position's net name, or `NC_<component>_<terminal>` when the position is not a key |
| Resolver.NonPins | editor.py:465-466 | the components that are not pins, and only those |
| Resolver.NonPinsInOrder | editor.py:465-466 | skipping pins keeps the others' order |
| Resolver.NetlistNodes | editor.py:465-474 | entry i is the node list of the i-th component that is not a pin |
| Snapping.FirstMin | editor.py:371-374 | returns the first least entry, which is the head of a stable sort by distance |
| Snapping.FirstMinUnique | editor.py:371-374 | the first least entry is unique |
| Snapping.TerminalPointsExact | editor.py:225-226 | the candidate terminals are exactly the absolute terminal positions |
| Snapping.EndPoints | editor.py:231-232 | the start then the end of every wire, in wire order, and nothing else |
| Snapping.Projections | editor.py:238-239 | one nearest segment point per wire, in wire order |
| Snapping.ScanAppend | editor.py:222-244 | scanning two lists in a row equals scanning their concatenation |
| Snapping.ScanNoneIff | editor.py:224-236 | a scan finds nothing exactly when no candidate is closer than 15 |
| Snapping.ScanFindsFirstNearest | editor.py:224-236 | a scan's pick is the first near candidate of least distance |
| Snapping.GateIffNoneWithin | editor.py:237 | the projection loop runs exactly when no terminal or wire end lies within 5 |
| Snapping.SearchIsFirstNearest | editor.py:222-244 | for any distance: nothing when no candidate is near, otherwise the first nearest candidate |
| Snapping.BestSnapPointIsFirstNearest | editor.py:222-244 | `None` exactly when no candidate is closer than 15; otherwise the first candidate of least distance, in the order terminals, wire ends, then projections (projections only when nothing lies within 5) |
| Snapping.ClickTargetSnaps | editor.py:265-268 | a wire end is a near candidate or a grid point; with no near candidate it is the snapped click |
| Snapping.TwoClicksDrawWire | editor.py:266-274 | two clicks add one wire between their targets and change nothing else |
| Snapping.PairCands | editor.py:361-364 | the candidates for one target are exactly the terminal pairings closer than 20, each with its shift |
| Snapping.DragCandidates | editor.py:358-370 | exactly the pairings closer than 20; the list is empty exactly when no pairing is that close |
| Snapping.MovedTerminals | editor.py:354-357 | the terminals of the component as if it stood at the raw target |
| Snapping.DragTargetsExact | editor.py:358-370 | the targets are the terminals of every other component, and the wire ends |
| Snapping.PickDragFallback | editor.py:350-351 | with no pairing under 20 the raw target is snapped to the grid |
| Snapping.PickDragClosest | editor.py:371-374 | otherwise the pick is the shift of the closest pairing, the first one in target-then-terminal order on a tie |
| Snapping.ShiftAligns | editor.py:364 | shifting by `o - m` puts that terminal exactly on `o` |
| Snapping.DragSnapFallback | editor.py:344-376 | with no terminal within 20 of a target, the component lands on the grid point nearest the raw target |
| Snapping.DragSnapAligns | editor.py:344-376 | otherwise one of its terminals lands exactly on a target, through the closest pairing, the first one on a tie |
| Snapping.ReleaseDrag | editor.py:344-377 | only the dragged component's position changes, to the drag snap of its start position plus the mouse travel |
| Snapping.ReleaseDragLands | editor.py:344-377 | after the release a terminal sits exactly on the target of the first closest pairing under 20, or with none the component stands on the nearest grid point |

## Left out

- Drawing, dialogs, hit-testing, mouse-move previews, key bindings, the help box and the simulation-settings window. These are all Tk user interface.
- `main.py`, which only wires the UI together.
- Netlist text formatting: the line layout, source parameter formatting and the simulation commands. Only the node lookup is modelled.
- The PULSE and SIN parameter dialogs. Their tables are kept, but are only written back as whole tables.
- `find_closest` click deletion. A deletion target is an index (`Document.Target`).
- Object identity. Components and wires are named by their index in the lists: `other == comp` is index inequality, and `list.remove` is `RemoveAt`.
- `id()`-based canvas tags.
- Geometry.RotatePoint: only quarter turns are modelled, because `rotate` only ever reaches 0, 90, 180 and 270. The floating-point drift of `math.cos(radians(90))` is not modelled.
- Geometry.Dist2: the square root is not modelled. Every comparison `dist < t` is stated as `dist^2 < t^2`, which is equivalent for `t > 0`.
- Floating-point arithmetic in general. Positions are exact reals.
- Connectivity.Graph: the graph's keys are points, not the strings `f"{x},{y}"`. In the program an integer grid point (`"280,300"`) and the same point held as a float (`"280.0,300.0"`) are different keys. The model treats them as one.
- Components.Place: the class-level `_counts` dictionary is passed in and returned explicitly.
- Components.ApplyProperties: requires at least the fields the dialog always supplies. On fewer values the program raises `IndexError`, and that error is not modelled.
- Components.ApplyCmosProps and Components.ApplyPinProps: the same `IndexError` precondition.
- Snapping.FirstMin: `list.sort` is stable, so its head is the first least candidate. The model picks that candidate directly rather than sorting.
- Snapping.SearchIsFirstNearest: stated for an arbitrary distance function. `BestSnapPoint` and `DragSnap` use the squared Euclidean distance.
