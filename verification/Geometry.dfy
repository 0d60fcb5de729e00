/** The geometry kernel of the editor (circuit_utils.py): grid snapping,
    squared distances, quarter-turn rotation, the mirror-rotate-translate-scale
    transform, the tolerance test "point lies on segment" and the clamped
    projection of a point onto a segment.

    Coordinates are exact reals.  `math.sqrt` is never taken: every comparison
    `dist(p, q) < t` of the source is stated as `t > 0 && Dist2(p, q) < t * t`,
    which is equivalent for every real `t`. */
module Geometry {

  datatype Point = Point(x: real, y: real)

  /** Logical grid unit (`GRID_SIZE`). */
  const Grid: real := 20.0

  const Origin: Point := Point(0.0, 0.0)

  function Add(p: Point, q: Point): Point {
    Point(p.x + q.x, p.y + q.y)
  }

  function Sub(p: Point, q: Point): Point {
    Point(p.x - q.x, p.y - q.y)
  }

  function Mul(p: Point, k: real): Point {
    Point(p.x * k, p.y * k)
  }

  function Dot(p: Point, q: Point): real {
    p.x * q.x + p.y * q.y
  }

  function Min(a: real, b: real): real {
    if a <= b then a else b
  }

  function Max(a: real, b: real): real {
    if a <= b then b else a
  }

  // ---------------------------------------------------------------- distance

  /** The square of a real.  Facts about squares are proved once, below, and
      used elsewhere through this name. */
  function Sq(x: real): real {
    x * x
  }

  function Abs(x: real): real {
    if x < 0.0 then -x else x
  }

  lemma MulPos(a: real, b: real)
    requires a > 0.0 && b > 0.0
    ensures a * b > 0.0
  {
  }

  lemma MulNonNeg(a: real, b: real)
    requires a >= 0.0 && b >= 0.0
    ensures a * b >= 0.0
  {
  }

  lemma MulMono(a: real, b: real, c: real)
    requires a >= b && c >= 0.0
    ensures a * c >= b * c
  {
  }

  /** A square is never negative and is zero only at zero. */
  lemma SqFacts(x: real)
    ensures Sq(x) >= 0.0
    ensures x != 0.0 ==> Sq(x) > 0.0
  {
    if x > 0.0 {
      calc { Sq(x); == x * x; > { MulPos(x, x); } 0.0; }
    } else if x < 0.0 {
      calc { Sq(x); == (-x) * (-x); > { MulPos(-x, -x); } 0.0; }
    } else {
      calc { Sq(x); == 0.0 * 0.0; == 0.0; }
    }
  }

  lemma SqNeg(x: real)
    ensures Sq(-x) == Sq(x)
  {
  }

  /** `x * x < t * t` with `t > 0` bounds `x` on both sides by `t`. */
  lemma SqBelow(x: real, t: real)
    requires t > 0.0 && Sq(x) < Sq(t)
    ensures -t < x < t
  {
    if x >= t {
      calc { Sq(x); == x * x; >= { MulMono(x, t, x); } t * x; >= { MulMono(x, t, t); } t * t; == Sq(t); }
    } else if x <= -t {
      calc { Sq(x); == (-x) * (-x); >= { MulMono(-x, t, -x); } t * (-x); >= { MulMono(-x, t, t); } t * t; == Sq(t); }
    }
  }

  /** Square of the Euclidean distance computed by `dist`. */
  function Dist2(p: Point, q: Point): (d: real)
    ensures d >= 0.0
    ensures d == 0.0 <==> p == q
  {
    SqFacts(p.x - q.x);
    SqFacts(p.y - q.y);
    Sq(p.x - q.x) + Sq(p.y - q.y)
  }

  lemma Dist2Symmetric(p: Point, q: Point)
    ensures Dist2(p, q) == Dist2(q, p)
  {
    SqNeg(p.x - q.x);
    SqNeg(p.y - q.y);
  }

  /** `dist(p, q) < t`. */
  predicate WithinDist(p: Point, q: Point, t: real) {
    t > 0.0 && Dist2(p, q) < Sq(t)
  }

  /** Closer than `t` means closer than `t` along each axis. */
  lemma WithinDistAxes(p: Point, q: Point, t: real)
    requires WithinDist(p, q, t)
    ensures -t < p.x - q.x < t && -t < p.y - q.y < t
  {
    SqFacts(p.x - q.x);
    SqFacts(p.y - q.y);
    SqBelow(p.x - q.x, t);
    SqBelow(p.y - q.y, t);
  }

  // ---------------------------------------------------------------- snapping

  /** Python's `round` on a real: nearest integer, ties to the even one. */
  function RoundHalfEven(q: real): (k: int)
    ensures q - 0.5 <= k as real <= q + 0.5
    ensures (k as real - q == 0.5 || q - k as real == 0.5) ==> k % 2 == 0
  {
    var f := q.Floor;
    var frac := q - f as real;
    if frac < 0.5 then f
    else if frac > 0.5 then f + 1
    else if f % 2 == 0 then f
    else f + 1
  }

  /** The two properties above pin the rounding down completely. */
  lemma RoundHalfEvenUnique(q: real, k: int)
    requires q - 0.5 <= k as real <= q + 0.5
    requires (k as real - q == 0.5 || q - k as real == 0.5) ==> k % 2 == 0
    ensures k == RoundHalfEven(q)
  {
  }

  predicate OnGrid(v: real) {
    (v / Grid).Floor as real * Grid == v
  }

  lemma MultipleOnGrid(k: int)
    ensures OnGrid(k as real * Grid)
  {
    assert k as real * Grid / Grid == k as real;
  }

  /** `snap`: the nearest multiple of the grid unit, ties to the even multiple. */
  function Snap(v: real): (r: real)
    ensures OnGrid(r)
    ensures v - 10.0 <= r <= v + 10.0
    ensures (r - v == 10.0 || v - r == 10.0) ==> OnGrid(r / 2.0)
  {
    var k := RoundHalfEven(v / Grid);
    var r := k as real * Grid;
    MultipleOnGrid(k);
    MultipleOnGrid(k / 2);
    assert (r - v == 10.0 || v - r == 10.0) ==> k % 2 == 0 && r / 2.0 == (k / 2) as real * Grid;
    r
  }

  lemma SnapIdempotent(v: real)
    ensures Snap(Snap(v)) == Snap(v)
  {
    var r := Snap(v);
    var k := (r / Grid).Floor;
    assert r / Grid == k as real;
    RoundHalfEvenUnique(r / Grid, k);
  }

  /** A grid value is left where it is, and only grid values are. */
  lemma SnapFixesExactlyGrid(v: real)
    ensures Snap(v) == v <==> OnGrid(v)
  {
    if OnGrid(v) {
      var k := (v / Grid).Floor;
      RoundHalfEvenUnique(v / Grid, k);
    }
  }

  /** No multiple of the grid unit is strictly closer to `v` than `Snap(v)`. */
  lemma SnapNearest(v: real, g: real)
    requires OnGrid(g)
    ensures Abs(v - Snap(v)) <= Abs(v - g)
  {
    var q := v / Grid;
    var k := RoundHalfEven(q);
    var m := (g / Grid).Floor;
    assert g == m as real * Grid;
    assert v - Snap(v) == Grid * (q - k as real);
    assert v - g == Grid * (q - m as real);
    if m != k {
      assert m >= k + 1 || m <= k - 1;
    }
  }

  /** Ties go to the even multiple: 10 snaps to 0 and 30 snaps to 40. */
  lemma SnapTiesToEven()
    ensures Snap(10.0) == 0.0 && Snap(30.0) == 40.0
    ensures Snap(-10.0) == 0.0 && Snap(50.0) == 40.0
  {
    assert (0.5).Floor == 0;
    assert (1.5).Floor == 1;
    assert (-0.5).Floor == -1;
    assert (2.5).Floor == 2;
  }

  // ---------------------------------------------------------------- rotation

  /** Rotation angles in degrees.  Every rotation a component can reach is a
      multiple of a quarter turn (it starts at 0 and `rotate` adds 90). */
  type Angle = a: int | a % 90 == 0

  /** Number of counter-clockwise quarter turns, in 0..3. */
  function Quarters(a: Angle): (n: int)
    ensures 0 <= n < 4
  {
    (a / 90) % 4
  }

  /** `rotate_point` restricted to quarter turns, where `(x cos - y sin, x sin + y cos)`
      is exact: a quarter turn sends `(x, y)` to `(-y, x)`. */
  function RotatePoint(p: Point, a: Angle): (r: Point)
    ensures Dot(r, r) == Dot(p, p)
  {
    var n := Quarters(a);
    if n == 0 then p
    else if n == 1 then Point(-p.y, p.x)
    else if n == 2 then Point(-p.x, -p.y)
    else Point(p.y, -p.x)
  }

  lemma QuartersOfSum(a: Angle, b: Angle)
    ensures Quarters(a + b) == (Quarters(a) + Quarters(b)) % 4
  {
    var i := a / 90;
    var j := b / 90;
    assert a == 90 * i && b == 90 * j;
    assert (a + b) / 90 == i + j;
  }

  /** Rotating by `a` and then by `b` is rotating by `a + b`. */
  lemma RotateCompose(p: Point, a: Angle, b: Angle)
    ensures RotatePoint(RotatePoint(p, a), b) == RotatePoint(p, a + b)
  {
    QuartersOfSum(a, b);
  }

  /** A full turn changes nothing, and rotating back by `-a` undoes a rotation by `a`. */
  lemma RotateFullTurn(p: Point, a: Angle)
    ensures RotatePoint(p, a + 360) == RotatePoint(p, a)
    ensures RotatePoint(RotatePoint(p, a), -a) == p
  {
    RotateCompose(p, a, 360);
    assert Quarters(360) == 0;
    RotateCompose(p, a, -a);
    assert Quarters(0) == 0;
  }

  // ---------------------------------------------------------------- transform

  function MirrorX(p: Point): Point {
    Point(-p.x, p.y)
  }

  /** One point of `transform_coords`: mirror (negate local x), then rotate,
      then translate by the offset, then multiply by the scale. */
  function TransformPoint(p: Point, offset: Point, rotation: Angle, mirror: bool, scale: real): Point {
    var m := if mirror then MirrorX(p) else p;
    Mul(Add(RotatePoint(m, rotation), offset), scale)
  }

  /** `transform_coords`: one output point per input point, in input order. */
  function TransformCoords(ps: seq<Point>, offset: Point, rotation: Angle, mirror: bool, scale: real): (r: seq<Point>)
    ensures |r| == |ps|
    ensures forall i :: 0 <= i < |ps| ==> r[i] == TransformPoint(ps[i], offset, rotation, mirror, scale)
    decreases |ps|
  {
    if |ps| == 0 then []
    else [TransformPoint(ps[0], offset, rotation, mirror, scale)] + TransformCoords(ps[1..], offset, rotation, mirror, scale)
  }

  /** The inverse of `TransformPoint` for a non-zero scale. */
  function UntransformPoint(q: Point, offset: Point, rotation: Angle, mirror: bool, scale: real): Point
    requires scale != 0.0
  {
    var m := RotatePoint(Sub(Mul(q, 1.0 / scale), offset), -rotation);
    if mirror then MirrorX(m) else m
  }

  lemma TransformRoundTrip(p: Point, offset: Point, rotation: Angle, mirror: bool, scale: real)
    requires scale != 0.0
    ensures UntransformPoint(TransformPoint(p, offset, rotation, mirror, scale), offset, rotation, mirror, scale) == p
  {
    var m := if mirror then MirrorX(p) else p;
    var q := TransformPoint(p, offset, rotation, mirror, scale);
    var back := Mul(q, 1.0 / scale);
    assert back.x == (RotatePoint(m, rotation).x + offset.x) * scale * (1.0 / scale);
    assert back.y == (RotatePoint(m, rotation).y + offset.y) * scale * (1.0 / scale);
    assert Sub(back, offset) == RotatePoint(m, rotation);
    RotateFullTurn(m, rotation);
  }

  /** With rotation 0, no mirror and scale 1 the transform is a pure translation. */
  lemma TransformIdentityIsTranslation(p: Point, offset: Point)
    ensures TransformPoint(p, offset, 0, false, 1.0) == Add(p, offset)
  {
    assert Quarters(0) == 0;
  }

  /** At scale 1, moving the offset by `d` moves every transformed point by `d`. */
  lemma TransformShift(p: Point, offset: Point, d: Point, rotation: Angle, mirror: bool)
    ensures TransformPoint(p, Add(offset, d), rotation, mirror, 1.0)
         == Add(TransformPoint(p, offset, rotation, mirror, 1.0), d)
  {
  }

  // ---------------------------------------------------------------- segments

  /** The segment's bounding box grown by `tol` on every side. */
  predicate InExpandedBox(p: Point, a: Point, b: Point, tol: real) {
    && Min(a.x, b.x) - tol <= p.x <= Max(a.x, b.x) + tol
    && Min(a.y, b.y) - tol <= p.y <= Max(a.y, b.y) + tol
  }

  /** The cross product `(x2 - x1) * (y1 - py) - (x1 - px) * (y2 - y1)`; its
      absolute value over the segment length is the distance to the line. */
  function Cross(p: Point, a: Point, b: Point): real {
    (b.x - a.x) * (a.y - p.y) - (a.x - p.x) * (b.y - a.y)
  }

  /** `is_point_on_segment`: inside the expanded box and closer than `tol` to
      the line through `a` and `b`; a zero-length segment is a point test.
      The source's `cross / len < tol` is `cross^2 < tol^2 * len^2` for `tol > 0`
      and never holds for `tol <= 0`. */
  function IsPointOnSegment(p: Point, a: Point, b: Point, tol: real): (r: bool)
    ensures !InExpandedBox(p, a, b, tol) ==> !r
    ensures a == b ==> (r <==> InExpandedBox(p, a, b, tol) && WithinDist(p, a, tol))
  {
    if !InExpandedBox(p, a, b, tol) then false
    else if Dist2(a, b) == 0.0 then WithinDist(p, a, tol)
    else tol > 0.0 && Sq(Cross(p, a, b)) < Sq(tol) * Dist2(a, b)
  }

  /** For a zero-length segment the box test is implied by the distance test,
      so the whole check is "closer than `tol` to the endpoint". */
  lemma OnDegenerateSegment(p: Point, a: Point, tol: real)
    ensures IsPointOnSegment(p, a, a, tol) <==> WithinDist(p, a, tol)
  {
    if WithinDist(p, a, tol) {
      WithinDistAxes(p, a, tol);
    }
  }

  /** Swapping the endpoints does not change the answer. */
  lemma OnSegmentSymmetric(p: Point, a: Point, b: Point, tol: real)
    ensures IsPointOnSegment(p, a, b, tol) == IsPointOnSegment(p, b, a, tol)
  {
    assert Cross(p, b, a) == -Cross(p, a, b);
    SqNeg(Cross(p, a, b));
    Dist2Symmetric(a, b);
  }

  /** A point on the line through a proper segment and inside its expanded
      box is on the segment for any positive tolerance. */
  lemma CollinearInBoxOnSegment(p: Point, a: Point, b: Point, tol: real)
    requires a != b && tol > 0.0 && InExpandedBox(p, a, b, tol) && Cross(p, a, b) == 0.0
    ensures IsPointOnSegment(p, a, b, tol)
  {
    SqFacts(tol);
    MulPos(Sq(tol), Dist2(a, b));
  }

  /** Both endpoints lie on their own segment for any positive tolerance. */
  lemma EndpointsOnSegment(a: Point, b: Point, tol: real)
    requires tol > 0.0
    ensures IsPointOnSegment(a, a, b, tol)
    ensures IsPointOnSegment(b, a, b, tol)
  {
    if a != b {
      CollinearInBoxOnSegment(a, a, b, tol);
      CollinearInBoxOnSegment(b, a, b, tol);
    } else {
      SqFacts(tol);
    }
  }

  // ---------------------------------------------------------------- projection

  /** The point `a + u * (b - a)`. */
  function Lerp(a: Point, b: Point, u: real): Point {
    Add(a, Mul(Sub(b, a), u))
  }

  /** The projection parameter of `get_closest_point_on_segment`, clamped to [0, 1]. */
  function ProjectionParam(p: Point, a: Point, b: Point): (u: real)
    requires a != b
    ensures 0.0 <= u <= 1.0
  {
    var u := Dot(Sub(p, a), Sub(b, a)) / Dist2(b, a);
    if u < 0.0 then 0.0 else if u > 1.0 then 1.0 else u
  }

  /** `get_closest_point_on_segment`. */
  function ClosestPointOnSegment(p: Point, a: Point, b: Point): (r: Point)
    ensures a == b ==> r == a
    ensures a != b ==> r == Lerp(a, b, ProjectionParam(p, a, b))
  {
    var l := Sub(b, a);
    if l.x == 0.0 && l.y == 0.0 then a else Lerp(a, b, ProjectionParam(p, a, b))
  }

  lemma SqDiff(x: real, y: real)
    ensures Sq(x - y) == Sq(x) - 2.0 * x * y + Sq(y)
  {
  }

  lemma SqScale(s: real, x: real)
    ensures Sq(s * x) == Sq(s) * Sq(x)
  {
  }

  /** Squared distance from `p` to the point at parameter `s` along the line. */
  lemma DistAlongLine(p: Point, a: Point, b: Point, s: real)
    ensures Dist2(p, Lerp(a, b, s))
         == Dist2(p, a) - 2.0 * s * Dot(Sub(p, a), Sub(b, a)) + Sq(s) * Dist2(b, a)
  {
    var v := Sub(p, a);
    var l := Sub(b, a);
    var c := Lerp(a, b, s);
    assert p.x - c.x == v.x - s * l.x;
    assert p.y - c.y == v.y - s * l.y;
    SqDiff(v.x, s * l.x);
    SqDiff(v.y, s * l.y);
    SqScale(s, l.x);
    SqScale(s, l.y);
  }

  /** The difference of the quadratic `f(s) = P - 2 s D + s^2 L` at two parameters. */
  lemma QuadraticGap(pp: real, d: real, l: real, t: real, u: real)
    ensures (pp - 2.0 * t * d + Sq(t) * l) - (pp - 2.0 * u * d + Sq(u) * l)
         == (t - u) * ((t + u) * l - 2.0 * d)
  {
  }

  /** The gap is non-negative at the clamped vertex `u` of the parabola. */
  lemma QuadraticGapNonNeg(d: real, l: real, t: real, u: real)
    requires l > 0.0 && 0.0 <= t <= 1.0
    requires (d < 0.0 && u == 0.0) || (d > l && u == 1.0) || u * l == d
    ensures (t - u) * ((t + u) * l - 2.0 * d) >= 0.0
  {
    if d < 0.0 && u == 0.0 {
      MulNonNeg(t, t * l - 2.0 * d);
    } else if d > l && u == 1.0 {
      MulNonNeg(1.0 - t, 2.0 * d - (t + 1.0) * l);
    } else {
      calc {
        (t - u) * ((t + u) * l - 2.0 * d);
        == (t - u) * ((t - u) * l);
        == Sq(t - u) * l;
        >= { SqFacts(t - u); MulNonNeg(Sq(t - u), l); } 0.0;
      }
    }
  }

  /** The quadratic `f(s) = P - 2 s D + s^2 L` with `L > 0` takes its least
      value over [0, 1] at `D / L` clamped to [0, 1]. */
  lemma QuadraticMinimum(pp: real, d: real, l: real, t: real, u: real)
    requires l > 0.0 && 0.0 <= t <= 1.0
    requires u == (if d / l < 0.0 then 0.0 else if d / l > 1.0 then 1.0 else d / l)
    ensures pp - 2.0 * u * d + Sq(u) * l <= pp - 2.0 * t * d + Sq(t) * l
  {
    assert (d < 0.0 && u == 0.0) || (d > l && u == 1.0) || u * l == d;
    QuadraticGap(pp, d, l, t, u);
    QuadraticGapNonNeg(d, l, t, u);
  }

  /** The projection is the point of the segment nearest to `p`. */
  lemma ClosestIsNearest(p: Point, a: Point, b: Point, t: real)
    requires 0.0 <= t <= 1.0
    ensures Dist2(p, ClosestPointOnSegment(p, a, b)) <= Dist2(p, Lerp(a, b, t))
  {
    if a != b {
      var d := Dot(Sub(p, a), Sub(b, a));
      var l := Dist2(b, a);
      var u := ProjectionParam(p, a, b);
      assert ClosestPointOnSegment(p, a, b) == Lerp(a, b, u);
      calc {
        Dist2(p, Lerp(a, b, u));
        == { DistAlongLine(p, a, b, u); }
        Dist2(p, a) - 2.0 * u * d + Sq(u) * l;
        <= { QuadraticMinimum(Dist2(p, a), d, l, t, u); }
        Dist2(p, a) - 2.0 * t * d + Sq(t) * l;
        == { DistAlongLine(p, a, b, t); }
        Dist2(p, Lerp(a, b, t));
      }
    } else {
      assert Lerp(a, b, t) == a;
    }
  }

  /** `a + u * (b - a)` with `u` in [0, 1] lies between `a` and `b`. */
  lemma LerpBetween(a: real, b: real, u: real)
    requires 0.0 <= u <= 1.0
    ensures Min(a, b) <= a + (b - a) * u <= Max(a, b)
  {
    if a <= b {
      MulNonNeg(b - a, u);
      MulNonNeg(b - a, 1.0 - u);
    } else {
      MulNonNeg(a - b, u);
      MulNonNeg(a - b, 1.0 - u);
    }
  }

  /** The projection is inside the segment's bounding box. */
  lemma ClosestInBox(p: Point, a: Point, b: Point)
    ensures InExpandedBox(ClosestPointOnSegment(p, a, b), a, b, 0.0)
  {
    if a != b {
      var u := ProjectionParam(p, a, b);
      LerpBetween(a.x, b.x, u);
      LerpBetween(a.y, b.y, u);
    }
  }

  /** Lagrange's identity in the plane: cross^2 + dot^2 = |l|^2 |w|^2. */
  lemma CrossBound(l: Point, w: Point)
    ensures Sq(w.x * l.y - l.x * w.y) <= (Sq(l.x) + Sq(l.y)) * (Sq(w.x) + Sq(w.y))
  {
    var c := w.x * l.y - l.x * w.y;
    var d := l.x * w.x + l.y * w.y;
    assert Sq(c) + Sq(d) == (Sq(l.x) + Sq(l.y)) * (Sq(w.x) + Sq(w.y));
    SqFacts(d);
  }

  lemma MulStrict(l: real, w: real, t: real)
    requires l > 0.0 && w < t
    ensures l * w < l * t
  {
    MulPos(l, t - w);
  }

  /** Measured from any point of the line, the cross product is the same. */
  lemma CrossFromLinePoint(p: Point, a: Point, b: Point, u: real)
    ensures Cross(p, a, b)
         == (p.x - Lerp(a, b, u).x) * (b.y - a.y) - (b.x - a.x) * (p.y - Lerp(a, b, u).y)
  {
  }

  /** Closer than `tol` to a point of the segment's box puts `p` in the expanded box. */
  lemma NearBoxPoint(p: Point, c: Point, a: Point, b: Point, tol: real)
    requires InExpandedBox(c, a, b, 0.0) && WithinDist(p, c, tol)
    ensures InExpandedBox(p, a, b, tol)
  {
    WithinDistAxes(p, c, tol);
  }

  /** Closer than `tol` to a point `c` of the line puts `p` closer than `tol` to the line. */
  lemma NearLinePoint(p: Point, a: Point, b: Point, u: real, tol: real)
    requires a != b && WithinDist(p, Lerp(a, b, u), tol)
    ensures Sq(Cross(p, a, b)) < Sq(tol) * Dist2(a, b)
  {
    var c := Lerp(a, b, u);
    var l := Sub(b, a);
    var w := Sub(p, c);
    var len2 := Dist2(a, b);
    var d := Dist2(p, c);
    assert Sq(l.x) + Sq(l.y) == len2 by { Dist2Symmetric(a, b); }
    assert Sq(w.x) + Sq(w.y) == d;
    calc {
      Sq(Cross(p, a, b));
      == { CrossFromLinePoint(p, a, b, u); }
      Sq(w.x * l.y - l.x * w.y);
      <= { CrossBound(l, w); }
      len2 * d;
      < { MulStrict(len2, d, Sq(tol)); }
      len2 * Sq(tol);
    }
  }

  /** Whatever is closer than `tol` to the segment passes the on-segment test:
      the box test and the line-distance test only ever accept more. */
  lemma NearSegmentIsOnSegment(p: Point, a: Point, b: Point, tol: real)
    requires WithinDist(p, ClosestPointOnSegment(p, a, b), tol)
    ensures IsPointOnSegment(p, a, b, tol)
  {
    ClosestInBox(p, a, b);
    NearBoxPoint(p, ClosestPointOnSegment(p, a, b), a, b, tol);
    if a != b {
      NearLinePoint(p, a, b, ProjectionParam(p, a, b), tol);
    }
  }
}
