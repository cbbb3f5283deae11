/** Cubic curves over exact reals, and what halving does to them.

  The polar form of a cubic takes three parameters; it is symmetric, affine in each of them,
  and gives the curve when all three agree.  The control points of the part of the curve
  between parameters a and b are its values at (a,a,a), (a,a,b), (a,b,b) and (b,b,b).
 */
module Bezier {

  datatype Point = Point(x: real, y: real)

  datatype Cubic = Cubic(p1: Point, p2: Point, p3: Point, p4: Point)

  function Lerp(a: real, b: real, t: real): real {
    a + (b - a) * t
  }

  function Quad(c1: real, c2: real, c3: real, u: real, v: real): real {
    Lerp(Lerp(c1, c2, u), Lerp(c2, c3, u), v)
  }

  function Polar(c1: real, c2: real, c3: real, c4: real, u: real, v: real, w: real): real {
    Lerp(Quad(c1, c2, c3, u, v), Quad(c2, c3, c4, u, v), w)
  }

  lemma QuadSymmetric(c1: real, c2: real, c3: real, u: real, v: real)
    ensures Quad(c1, c2, c3, u, v) == Quad(c1, c2, c3, v, u)
  {
    var d, e := c2 - c1, c3 - c2;
    assert Quad(c1, c2, c3, u, v) == c1 + d * u + d * v + (e - d) * (u * v);
    assert Quad(c1, c2, c3, v, u) == c1 + d * v + d * u + (e - d) * (v * u);
  }

  lemma PolarSymmetric(c1: real, c2: real, c3: real, c4: real, u: real, v: real, w: real)
    ensures Polar(c1, c2, c3, c4, u, v, w) == Polar(c1, c2, c3, c4, v, u, w)
    ensures Polar(c1, c2, c3, c4, u, v, w) == Polar(c1, c2, c3, c4, u, w, v)
  {
    QuadSymmetric(c1, c2, c3, u, v);
    QuadSymmetric(c2, c3, c4, u, v);
    QuadSymmetric(Lerp(c1, c2, u), Lerp(c2, c3, u), Lerp(c3, c4, u), v, w);
  }

  lemma LerpMidpoint(a: real, b: real, s: real, t: real)
    ensures (Lerp(a, b, s) + Lerp(a, b, t)) * 0.5 == Lerp(a, b, (s + t) * 0.5)
  {
    assert (b - a) * s + (b - a) * t == (b - a) * (s + t);
  }

  lemma PolarMidpoint(c1: real, c2: real, c3: real, c4: real, u: real, v: real, s: real, t: real)
    ensures (Polar(c1, c2, c3, c4, u, v, s) + Polar(c1, c2, c3, c4, u, v, t)) * 0.5
         == Polar(c1, c2, c3, c4, u, v, (s + t) * 0.5)
  {
    LerpMidpoint(Quad(c1, c2, c3, u, v), Quad(c2, c3, c4, u, v), s, t);
  }

  function PolarPoint(c: Cubic, u: real, v: real, w: real): Point {
    Point(Polar(c.p1.x, c.p2.x, c.p3.x, c.p4.x, u, v, w), Polar(c.p1.y, c.p2.y, c.p3.y, c.p4.y, u, v, w))
  }

  /** The point of the curve at parameter t. */
  function Eval(c: Cubic, t: real): Point {
    PolarPoint(c, t, t, t)
  }

  /** One coordinate of the curve, by the Bernstein polynomials. */
  function Bernstein(c1: real, c2: real, c3: real, c4: real, t: real): real {
    var u := 1.0 - t;
    c1 * (u * u * u) + c2 * (3.0 * (u * u * t)) + c3 * (3.0 * (u * t * t)) + c4 * (t * t * t)
  }

  function Poly2(a0: real, a1: real, a2: real, t: real): real { a0 + a1 * t + a2 * (t * t) }

  function Poly3(a0: real, a1: real, a2: real, a3: real, t: real): real {
    a0 + a1 * t + a2 * (t * t) + a3 * (t * t * t)
  }

  /** Both in powers of t. */
  function Powers(c1: real, c2: real, c3: real, c4: real, t: real): real {
    Poly3(c1, 3.0 * (c2 - c1), 3.0 * (c3 - 2.0 * c2 + c1), c4 - 3.0 * c3 + 3.0 * c2 - c1, t)
  }

  lemma QuadInPowers(c1: real, c2: real, c3: real, t: real)
    ensures Quad(c1, c2, c3, t, t) == Poly2(c1, 2.0 * (c2 - c1), c3 - 2.0 * c2 + c1, t)
  {
  }

  lemma LerpInPowers(a0: real, a1: real, a2: real, b0: real, b1: real, b2: real, t: real)
    ensures Lerp(Poly2(a0, a1, a2, t), Poly2(b0, b1, b2, t), t) == Poly3(a0, a1 + b0 - a0, a2 + b1 - a1, b2 - a2, t)
  {
    assert ((b1 - a1) * t) * t == (b1 - a1) * (t * t);
    assert ((b2 - a2) * (t * t)) * t == (b2 - a2) * (t * t * t);
  }

  lemma PolarInPowers(c1: real, c2: real, c3: real, c4: real, t: real)
    ensures Polar(c1, c2, c3, c4, t, t, t) == Powers(c1, c2, c3, c4, t)
  {
    QuadInPowers(c1, c2, c3, t);
    QuadInPowers(c2, c3, c4, t);
    LerpInPowers(c1, 2.0 * (c2 - c1), c3 - 2.0 * c2 + c1, c2, 2.0 * (c3 - c2), c4 - 2.0 * c3 + c2, t);
    hide Lerp, Quad, Poly2, Poly3;
  }

  lemma BernsteinInPowers(c1: real, c2: real, c3: real, c4: real, t: real)
    ensures Bernstein(c1, c2, c3, c4, t) == Powers(c1, c2, c3, c4, t)
  {
    var u := 1.0 - t;
    assert u * u * u == 1.0 - 3.0 * t + 3.0 * (t * t) - t * t * t;
    assert u * u * t == t - 2.0 * (t * t) + t * t * t;
    assert u * t * t == t * t - t * t * t;
  }

  /** The curve is the Bezier curve of its four points. */
  lemma EvalIsBernstein(c: Cubic, t: real)
    ensures Eval(c, t).x == Bernstein(c.p1.x, c.p2.x, c.p3.x, c.p4.x, t)
    ensures Eval(c, t).y == Bernstein(c.p1.y, c.p2.y, c.p3.y, c.p4.y, t)
  {
    PolarInPowers(c.p1.x, c.p2.x, c.p3.x, c.p4.x, t);
    PolarInPowers(c.p1.y, c.p2.y, c.p3.y, c.p4.y, t);
    BernsteinInPowers(c.p1.x, c.p2.x, c.p3.x, c.p4.x, t);
    BernsteinInPowers(c.p1.y, c.p2.y, c.p3.y, c.p4.y, t);
    hide Polar, Bernstein, Powers;
  }

  /** The part of the curve between two parameters, as a cubic of its own. */
  function Part(c: Cubic, a: real, b: real): Cubic {
    Cubic(PolarPoint(c, a, a, a), PolarPoint(c, a, a, b), PolarPoint(c, a, b, b), PolarPoint(c, b, b, b))
  }

  function Mid(p: Point, q: Point): Point {
    Point((p.x + q.x) * 0.5, (p.y + q.y) * 0.5)
  }

  lemma PolarPointSymmetric(c: Cubic, u: real, v: real, w: real)
    ensures PolarPoint(c, u, v, w) == PolarPoint(c, v, u, w) == PolarPoint(c, u, w, v)
  {
    PolarSymmetric(c.p1.x, c.p2.x, c.p3.x, c.p4.x, u, v, w);
    PolarSymmetric(c.p1.y, c.p2.y, c.p3.y, c.p4.y, u, v, w);
  }

  lemma PolarPointMid(c: Cubic, u: real, v: real, s: real, t: real)
    ensures Mid(PolarPoint(c, u, v, s), PolarPoint(c, u, v, t)) == PolarPoint(c, u, v, (s + t) * 0.5)
  {
    PolarMidpoint(c.p1.x, c.p2.x, c.p3.x, c.p4.x, u, v, s, t);
    PolarMidpoint(c.p1.y, c.p2.y, c.p3.y, c.p4.y, u, v, s, t);
  }

  /** The two halves, by repeated midpoints. */
  function LeftHalf(c: Cubic): Cubic {
    var p12, p23, p34 := Mid(c.p1, c.p2), Mid(c.p2, c.p3), Mid(c.p3, c.p4);
    var p123, p234 := Mid(p12, p23), Mid(p23, p34);
    Cubic(c.p1, p12, p123, Mid(p123, p234))
  }

  function RightHalf(c: Cubic): Cubic {
    var p12, p23, p34 := Mid(c.p1, c.p2), Mid(c.p2, c.p3), Mid(c.p3, c.p4);
    var p123, p234 := Mid(p12, p23), Mid(p23, p34);
    Cubic(Mid(p123, p234), p234, p34, c.p4)
  }

  /** Halving a part of the curve gives the two parts on either side of the middle parameter. */
  lemma HalvesAreParts(c: Cubic, a: real, b: real)
    ensures LeftHalf(Part(c, a, b)) == Part(c, a, (a + b) * 0.5)
    ensures RightHalf(Part(c, a, b)) == Part(c, (a + b) * 0.5, b)
  {
    var m := (a + b) * 0.5;
    var q := Part(c, a, b);
    var p12, p23, p34 := Mid(q.p1, q.p2), Mid(q.p2, q.p3), Mid(q.p3, q.p4);
    assert p12 == PolarPoint(c, a, a, m) by {
      PolarPointMid(c, a, a, a, b);
    }
    assert p23 == PolarPoint(c, a, b, m) by {
      PolarPointSymmetric(c, a, a, b);
      PolarPointMid(c, a, b, a, b);
    }
    assert p34 == PolarPoint(c, b, b, m) by {
      PolarPointSymmetric(c, a, b, b);
      PolarPointSymmetric(c, b, a, b);
      PolarPointMid(c, b, b, a, b);
    }
    assert Mid(p12, p23) == PolarPoint(c, a, m, m) by {
      PolarPointSymmetric(c, a, a, m);
      PolarPointSymmetric(c, a, b, m);
      PolarPointMid(c, a, m, a, b);
    }
    assert Mid(p23, p34) == PolarPoint(c, b, m, m) by {
      PolarPointSymmetric(c, a, b, m);
      PolarPointSymmetric(c, b, a, m);
      PolarPointSymmetric(c, b, b, m);
      PolarPointMid(c, b, m, a, b);
    }
    assert Mid(Mid(p12, p23), Mid(p23, p34)) == PolarPoint(c, m, m, m) by {
      PolarPointSymmetric(c, a, m, m);
      PolarPointSymmetric(c, m, a, m);
      PolarPointSymmetric(c, b, m, m);
      PolarPointSymmetric(c, m, b, m);
      PolarPointMid(c, m, m, a, b);
    }
    PolarPointSymmetric(c, m, m, b);
    PolarPointSymmetric(c, m, b, m);
    PolarPointSymmetric(c, m, b, b);
    PolarPointSymmetric(c, b, m, b);
  }

  lemma WholeCurve(c: Cubic)
    ensures Part(c, 0.0, 1.0) == c
  {
  }

  // ---------------------------------------------------------------- flatness

  function Abs(x: real): real { if x < 0.0 then -x else x }

  function Cross(a: Point, b: Point): real { a.x * b.y - a.y * b.x }

  function Minus(p: Point, q: Point): Point { Point(p.x - q.x, p.y - q.y) }

  function ChordSquare(c: Cubic): real {
    var d := Minus(c.p4, c.p1);
    d.x * d.x + d.y * d.y
  }

  /** The cross product with the chord: chord length times signed distance from the chord line. */
  function FromChord(c: Cubic, p: Point): real {
    Cross(Minus(p, c.p4), Minus(c.p4, c.p1))
  }

  function ControlDeviation(c: Cubic): real {
    Abs(FromChord(c, c.p2)) + Abs(FromChord(c, c.p3))
  }

  /** The program's test that a curve may be replaced by its chord. */
  predicate IsFlat(c: Cubic, tol: real) {
    ControlDeviation(c) * ControlDeviation(c) < tol * ChordSquare(c)
  }

  lemma CrossLerp(p: Point, q: Point, o: Point, d: Point, t: real)
    ensures Cross(Minus(Point(Lerp(p.x, q.x, t), Lerp(p.y, q.y, t)), o), d)
         == Lerp(Cross(Minus(p, o), d), Cross(Minus(q, o), d), t)
  {
    var px, py, qx, qy := p.x, p.y, q.x, q.y;
    calc {
      Cross(Minus(Point(Lerp(px, qx, t), Lerp(py, qy, t)), o), d);
      (px + (qx - px) * t - o.x) * d.y - (py + (qy - py) * t - o.y) * d.x;
      (px - o.x) * d.y - (py - o.y) * d.x + ((qx - px) * t) * d.y - ((qy - py) * t) * d.x;
      (px - o.x) * d.y - (py - o.y) * d.x + ((qx - px) * d.y - (qy - py) * d.x) * t;
    }
  }

  lemma NonNegativeProduct(x: real, y: real)
    requires x >= 0.0 && y >= 0.0
    ensures x * y >= 0.0
  {
  }

  lemma LerpBounds(a: real, b: real, t: real, m: real)
    requires 0.0 <= t <= 1.0 && -m <= a <= m && -m <= b <= m
    ensures -m <= Lerp(a, b, t) <= m
  {
    var u := 1.0 - t;
    assert Lerp(a, b, t) == a * u + b * t;
    NonNegativeProduct(m - a, u);
    NonNegativeProduct(m + a, u);
    NonNegativeProduct(m - b, t);
    NonNegativeProduct(m + b, t);
    assert m * u + m * t == m;
  }

  function LerpPoint(p: Point, q: Point, t: real): Point {
    Point(Lerp(p.x, q.x, t), Lerp(p.y, q.y, t))
  }

  lemma DeviationBound(p: Point, q: Point, o: Point, d: Point, t: real, m: real)
    requires 0.0 <= t <= 1.0
    requires Abs(Cross(Minus(p, o), d)) <= m && Abs(Cross(Minus(q, o), d)) <= m
    ensures Abs(Cross(Minus(LerpPoint(p, q, t), o), d)) <= m
  {
    CrossLerp(p, q, o, d, t);
    LerpBounds(Cross(Minus(p, o), d), Cross(Minus(q, o), d), t, m);
  }

  /** The curve deviates from a line no more than its control points do. */
  lemma CurveDeviation(c: Cubic, o: Point, d: Point, t: real, m: real)
    requires 0.0 <= t <= 1.0
    requires Abs(Cross(Minus(c.p1, o), d)) <= m && Abs(Cross(Minus(c.p2, o), d)) <= m
    requires Abs(Cross(Minus(c.p3, o), d)) <= m && Abs(Cross(Minus(c.p4, o), d)) <= m
    ensures Abs(Cross(Minus(Eval(c, t), o), d)) <= m
  {
    var a1, a2, a3 := LerpPoint(c.p1, c.p2, t), LerpPoint(c.p2, c.p3, t), LerpPoint(c.p3, c.p4, t);
    DeviationBound(c.p1, c.p2, o, d, t, m);
    DeviationBound(c.p2, c.p3, o, d, t, m);
    DeviationBound(c.p3, c.p4, o, d, t, m);
    var b1, b2 := LerpPoint(a1, a2, t), LerpPoint(a2, a3, t);
    DeviationBound(a1, a2, o, d, t, m);
    DeviationBound(a2, a3, o, d, t, m);
    DeviationBound(b1, b2, o, d, t, m);
    EvalIsNestedLerp(c, t);
  }

  lemma EvalIsNestedLerp(c: Cubic, t: real)
    ensures Eval(c, t) == LerpPoint(LerpPoint(LerpPoint(c.p1, c.p2, t), LerpPoint(c.p2, c.p3, t), t),
                                    LerpPoint(LerpPoint(c.p2, c.p3, t), LerpPoint(c.p3, c.p4, t), t), t)
  {
  }

  lemma CrossOfChordEnds(c: Cubic)
    ensures FromChord(c, c.p1) == 0.0 && FromChord(c, c.p4) == 0.0
  {
  }

  lemma CurveNearChord(c: Cubic, t: real)
    requires 0.0 <= t <= 1.0
    ensures Abs(FromChord(c, Eval(c, t))) <= ControlDeviation(c)
  {
    CrossOfChordEnds(c);
    CurveDeviation(c, c.p4, Minus(c.p4, c.p1), t, ControlDeviation(c));
  }

  lemma FlatCurveDeviates(c: Cubic, tol: real, t: real)
    requires IsFlat(c, tol) && 0.0 <= t <= 1.0
    ensures FromChord(c, Eval(c, t)) * FromChord(c, Eval(c, t)) < tol * ChordSquare(c)
  {
    hide FromChord, ControlDeviation, ChordSquare;
    CurveNearChord(c, t);
    var k, m, bound := FromChord(c, Eval(c, t)), ControlDeviation(c), tol * ChordSquare(c);
    assert m * m < bound;
    SquareMonotone(k, m, bound);
  }

  /** p is nearer than the square root of tol to the line through a and b: the cross product is the
      distance times the length from a to b. */
  predicate NearLineThrough(p: Point, a: Point, b: Point, tol: real) {
    var dx, dy := b.x - a.x, b.y - a.y;
    var cross := (p.x - b.x) * dy - (p.y - b.y) * dx;
    cross * cross < tol * (dx * dx + dy * dy)
  }

  lemma DeviationIs(c: Cubic, p: Point, tol: real)
    ensures NearLineThrough(p, c.p1, c.p4, tol) <==> FromChord(c, p) * FromChord(c, p) < tol * ChordSquare(c)
  {
    var dx, dy := c.p4.x - c.p1.x, c.p4.y - c.p1.y;
    assert FromChord(c, p) == (p.x - c.p4.x) * dy - (p.y - c.p4.y) * dx;
    assert ChordSquare(c) == dx * dx + dy * dy;
    hide FromChord, ChordSquare;
  }

  /** A curve that passes the flatness test stays that near to its chord, at every parameter. */
  lemma FlatCurveIsNearItsChord(c: Cubic, tol: real, t: real)
    requires IsFlat(c, tol) && 0.0 <= t <= 1.0
    ensures NearLineThrough(Eval(c, t), c.p1, c.p4, tol)
  {
    FlatCurveDeviates(c, tol, t);
    DeviationIs(c, Eval(c, t), tol);
    hide Eval, IsFlat, FromChord, ChordSquare, NearLineThrough;
  }

  /** The test itself: the distances of the two middle control points from the chord, taken
      together. */
  lemma FlatTestIs(c: Cubic, tol: real)
    ensures var dx, dy := c.p4.x - c.p1.x, c.p4.y - c.p1.y;
      var d2, d3 := (c.p2.x - c.p4.x) * dy - (c.p2.y - c.p4.y) * dx, (c.p3.x - c.p4.x) * dy - (c.p3.y - c.p4.y) * dx;
      && ControlDeviation(c) == (if d2 < 0.0 then -d2 else d2) + (if d3 < 0.0 then -d3 else d3)
      && ChordSquare(c) == dx * dx + dy * dy
    ensures IsFlat(c, tol) <==> ControlDeviation(c) * ControlDeviation(c) < tol * ChordSquare(c)
  {
    hide FromChord, ChordSquare, IsFlat;
    FromChordIs(c, c.p2);
    FromChordIs(c, c.p3);
    FlatIff(c, tol);
  }

  lemma FromChordIs(c: Cubic, p: Point)
    ensures var dx, dy := c.p4.x - c.p1.x, c.p4.y - c.p1.y;
      FromChord(c, p) == (p.x - c.p4.x) * dy - (p.y - c.p4.y) * dx && ChordSquare(c) == dx * dx + dy * dy
  {
  }

  lemma FlatIff(c: Cubic, tol: real)
    ensures IsFlat(c, tol) <==> ControlDeviation(c) * ControlDeviation(c) < tol * ChordSquare(c)
  {
    hide ControlDeviation, ChordSquare;
  }

  lemma SquareMonotone(k: real, m: real, bound: real)
    requires Abs(k) <= m && m * m < bound
    ensures k * k < bound
  {
    assert Abs(k) * Abs(k) <= Abs(k) * m <= m * m;
  }

  // ---------------------------------------------------------------- subdivision

  const MAX_LEVEL: nat := 10

  /** The parameter width of a piece, in 1/1024. */
  function Width(level: nat): (w: nat)
    requires level <= MAX_LEVEL
    ensures w >= 1
    decreases MAX_LEVEL - level
  {
    if level == MAX_LEVEL then 1 else 2 * Width(level + 1)
  }

  function Dyadic(k: int): real { k as real / 1024.0 }

  /** The recursion: a piece is emitted, dropped at the deepest level, or halved. */
  datatype Pieces = Emitted | Dropped | Halved(left: Pieces, right: Pieces)

  ghost predicate Fits(p: Pieces, level: nat) {
    match p
    case Halved(l, r) => level < MAX_LEVEL && Fits(l, level + 1) && Fits(r, level + 1)
    case _ => level <= MAX_LEVEL
  }

  function Subdivide(c: Cubic, tol: real, level: nat): (p: Pieces)
    requires level <= MAX_LEVEL
    ensures Fits(p, level)
    decreases MAX_LEVEL - level
  {
    if IsFlat(c, tol) then Emitted
    else if level + 1 > MAX_LEVEL then Dropped
    else Halved(Subdivide(LeftHalf(c), tol, level + 1), Subdivide(RightHalf(c), tol, level + 1))
  }

  /** The end parameters, in 1/1024, of the pieces that are emitted. */
  function EndParams(p: Pieces, level: nat, lo: nat): seq<nat>
    requires Fits(p, level)
  {
    match p
    case Emitted => [lo + Width(level)]
    case Dropped => []
    case Halved(l, r) => EndParams(l, level + 1, lo) + EndParams(r, level + 1, lo + Width(level + 1))
  }

  ghost predicate IncreasingIn(s: seq<nat>, lo: nat, hi: nat) {
    && lo <= hi && |s| <= hi - lo
    && (forall i :: 0 <= i < |s| ==> lo < s[i] <= hi)
    && (forall i, j :: 0 <= i < j < |s| ==> s[i] < s[j])
  }

  lemma IncreasingConcat(s: seq<nat>, t: seq<nat>, lo: nat, mid: nat, hi: nat)
    requires IncreasingIn(s, lo, mid) && IncreasingIn(t, mid, hi)
    ensures IncreasingIn(s + t, lo, hi)
  {
  }

  /** Emitted parameters lie in the piece, strictly increase, and are no more than its width. */
  lemma {:induction false} ParamsIncrease(p: Pieces, level: nat, lo: nat)
    requires Fits(p, level)
    ensures IncreasingIn(EndParams(p, level, lo), lo, lo + Width(level))
  {
    if p.Halved? {
      var mid := lo + Width(level + 1);
      ParamsIncrease(p.left, level + 1, lo);
      ParamsIncrease(p.right, level + 1, mid);
      IncreasingConcat(EndParams(p.left, level + 1, lo), EndParams(p.right, level + 1, mid),
                       lo, mid, lo + Width(level));
    }
  }

  /** The points emitted by nsvg__flattenCubicBez. */
  function FlatPoints(c: Cubic, tol: real, level: nat): seq<Point>
    requires level <= MAX_LEVEL
    decreases MAX_LEVEL - level
  {
    if IsFlat(c, tol) then [c.p4]
    else if level + 1 > MAX_LEVEL then []
    else FlatPoints(LeftHalf(c), tol, level + 1) + FlatPoints(RightHalf(c), tol, level + 1)
  }

  lemma DyadicMiddle(lo: nat, level: nat)
    requires level < MAX_LEVEL
    ensures (Dyadic(lo) + Dyadic(lo + Width(level))) * 0.5 == Dyadic(lo + Width(level + 1))
  {
    var w := Width(level + 1);
    assert Width(level) == 2 * w;
    assert (lo + 2 * w) as real == lo as real + 2.0 * w as real;
  }

  lemma TwoParts(orig: Cubic, level: nat, lo: nat)
    requires level < MAX_LEVEL
    ensures var c, mid, w := Part(orig, Dyadic(lo), Dyadic(lo + Width(level))), lo + Width(level + 1), Width(level + 1);
      && LeftHalf(c) == Part(orig, Dyadic(lo), Dyadic(mid)) && RightHalf(c) == Part(orig, Dyadic(mid), Dyadic(mid + w))
      && mid + w == lo + Width(level)
  {
    HalvesAreParts(orig, Dyadic(lo), Dyadic(lo + Width(level)));
    DyadicMiddle(lo, level);
    hide LeftHalf, RightHalf, Part, Dyadic;
  }

  lemma EndOfPart(orig: Cubic, a: real, b: real)
    ensures Part(orig, a, b).p4 == Eval(orig, b)
  {
  }

  /** Every emitted point is the original curve at its parameter. */
  lemma {:induction false} PointsLieOnCurve(c: Cubic, orig: Cubic, tol: real, level: nat, lo: nat)
    requires level <= MAX_LEVEL
    requires c == Part(orig, Dyadic(lo), Dyadic(lo + Width(level)))
    ensures var s := EndParams(Subdivide(c, tol, level), level, lo);
            var p := FlatPoints(c, tol, level);
            |p| == |s| && forall i :: 0 <= i < |p| ==> p[i] == Eval(orig, Dyadic(s[i]))
    decreases MAX_LEVEL - level
  {
    hide IsFlat, PolarPoint, LeftHalf, RightHalf, Part, Dyadic, Eval, Width;
    if IsFlat(c, tol) {
      EndOfPart(orig, Dyadic(lo), Dyadic(lo + Width(level)));
    } else if level < MAX_LEVEL {
      var mid := lo + Width(level + 1);
      TwoParts(orig, level, lo);
      PointsLieOnCurve(LeftHalf(c), orig, tol, level + 1, lo);
      PointsLieOnCurve(RightHalf(c), orig, tol, level + 1, mid);
    }
  }

  /** Flattening keeps meaning: the emitted points are the original curve at strictly
      increasing multiples of 1/1024, at most 1024 of them. */
  lemma FlatteningKeepsMeaning(c: Cubic, tol: real)
    ensures var s := EndParams(Subdivide(c, tol, 0), 0, 0);
            var p := FlatPoints(c, tol, 0);
            && |p| == |s| <= 1024
            && (forall i :: 0 <= i < |s| ==> 0 < s[i] <= 1024 && p[i] == Eval(c, Dyadic(s[i])))
            && (forall i, j :: 0 <= i < j < |s| ==> s[i] < s[j])
  {
    assert Width(0) == 1024;
    hide IsFlat, PolarPoint, LeftHalf, RightHalf, EndParams, FlatPoints;
    WholeCurve(c);
    assert Dyadic(0) == 0.0 && Dyadic(1024) == 1.0;
    ParamsIncrease(Subdivide(c, tol, 0), 0, 0);
    PointsLieOnCurve(c, c, tol, 0, 0);
  }

  // ---------------------------------------------------------------- every piece is near its chord

  lemma LerpAffine(x: real, y: real, a: real, b: real, t: real)
    ensures Lerp(Lerp(x, y, a), Lerp(x, y, b), t) == Lerp(x, y, Lerp(a, b, t))
  {
    assert (y - x) * a + ((y - x) * b - (y - x) * a) * t == (y - x) * (a + (b - a) * t);
  }

  lemma PolarPointAffine(c: Cubic, u: real, v: real, a: real, b: real, t: real)
    ensures LerpPoint(PolarPoint(c, u, v, a), PolarPoint(c, u, v, b), t) == PolarPoint(c, u, v, Lerp(a, b, t))
  {
    LerpAffine(Quad(c.p1.x, c.p2.x, c.p3.x, u, v), Quad(c.p2.x, c.p3.x, c.p4.x, u, v), a, b, t);
    LerpAffine(Quad(c.p1.y, c.p2.y, c.p3.y, u, v), Quad(c.p2.y, c.p3.y, c.p4.y, u, v), a, b, t);
    hide Quad, Lerp;
  }

  /** A part of the curve is the curve, between the two parameters. */
  lemma PartEval(c: Cubic, a: real, b: real, t: real)
    ensures Eval(Part(c, a, b), t) == Eval(c, Lerp(a, b, t))
  {
    var m := Lerp(a, b, t);
    EvalIsNestedLerp(Part(c, a, b), t);
    PolarPointAffine(c, a, a, a, b, t);
    PolarPointAffine(c, a, b, a, b, t);
    PolarPointAffine(c, b, b, a, b, t);
    PolarPointSymmetric(c, a, b, a);
    PolarPointSymmetric(c, a, b, m);
    PolarPointSymmetric(c, b, b, a);
    PolarPointSymmetric(c, a, b, b);
    PolarPointAffine(c, a, m, a, b, t);
    PolarPointSymmetric(c, a, m, a);
    PolarPointSymmetric(c, a, m, b);
    PolarPointSymmetric(c, a, a, m);
    PolarPointAffine(c, b, m, a, b, t);
    PolarPointSymmetric(c, b, m, a);
    PolarPointSymmetric(c, b, m, b);
    PolarPointSymmetric(c, b, b, m);
    PolarPointAffine(c, m, m, a, b, t);
    PolarPointSymmetric(c, m, m, a);
    PolarPointSymmetric(c, m, a, m);
    PolarPointSymmetric(c, m, m, b);
    PolarPointSymmetric(c, m, b, m);
    hide PolarPoint, LerpPoint, Lerp;
  }

  /** No piece is dropped. */
  predicate Whole(p: Pieces) {
    match p
    case Emitted => true
    case Dropped => false
    case Halved(l, r) => Whole(l) && Whole(r)
  }

  /** Where piece k starts when there is no gap. */
  function StartOf(s: seq<nat>, lo: nat, k: nat): nat
    requires k < |s|
  {
    if k == 0 then lo else s[k - 1]
  }

  /** Flat pieces without a gap, from lo to hi. */
  ghost predicate FlatPieces(orig: Cubic, tol: real, s: seq<nat>, lo: nat, hi: nat) {
    && s != [] && s[|s| - 1] == hi
    && forall k :: 0 <= k < |s| ==> IsFlat(Part(orig, Dyadic(StartOf(s, lo, k)), Dyadic(s[k])), tol)
  }

  lemma FlatPiecesConcat(orig: Cubic, tol: real, s: seq<nat>, t: seq<nat>, lo: nat, mid: nat, hi: nat)
    requires FlatPieces(orig, tol, s, lo, mid) && FlatPieces(orig, tol, t, mid, hi)
    ensures FlatPieces(orig, tol, s + t, lo, hi)
  {
    hide IsFlat, Part, Dyadic;
    forall k | 0 <= k < |s + t|
      ensures IsFlat(Part(orig, Dyadic(StartOf(s + t, lo, k)), Dyadic((s + t)[k])), tol)
    {
      if k < |s| {
        assert StartOf(s + t, lo, k) == StartOf(s, lo, k);
      } else {
        assert StartOf(s + t, lo, k) == StartOf(t, mid, k - |s|);
      }
    }
  }

  lemma OnePiece(orig: Cubic, tol: real, level: nat, lo: nat)
    requires level <= MAX_LEVEL && IsFlat(Part(orig, Dyadic(lo), Dyadic(lo + Width(level))), tol)
    ensures FlatPieces(orig, tol, [lo + Width(level)], lo, lo + Width(level))
  {
    hide IsFlat, Part, Dyadic;
  }

  /** Pieces that are all emitted leave no gap, and each is flat. */
  lemma {:induction false} PiecesAreFlat(c: Cubic, orig: Cubic, tol: real, level: nat, lo: nat)
    requires level <= MAX_LEVEL && c == Part(orig, Dyadic(lo), Dyadic(lo + Width(level)))
    requires Whole(Subdivide(c, tol, level))
    ensures FlatPieces(orig, tol, EndParams(Subdivide(c, tol, level), level, lo), lo, lo + Width(level))
    decreases MAX_LEVEL - level
  {
    hide IsFlat, LeftHalf, RightHalf, Part, Dyadic, FlatPieces, Width;
    if IsFlat(c, tol) {
      OnePiece(orig, tol, level, lo);
    } else {
      var mid := lo + Width(level + 1);
      TwoParts(orig, level, lo);
      PiecesAreFlat(LeftHalf(c), orig, tol, level + 1, lo);
      PiecesAreFlat(RightHalf(c), orig, tol, level + 1, mid);
      FlatPiecesConcat(orig, tol, EndParams(Subdivide(LeftHalf(c), tol, level + 1), level + 1, lo),
                       EndParams(Subdivide(RightHalf(c), tol, level + 1), level + 1, mid), lo, mid, lo + Width(level));
    }
  }

  lemma PartIsNear(c: Cubic, a: real, b: real, tol: real, t: real)
    requires IsFlat(Part(c, a, b), tol) && 0.0 <= t <= 1.0
    ensures NearLineThrough(Eval(c, Lerp(a, b, t)), Eval(c, a), Eval(c, b), tol)
  {
    PartEval(c, a, b, t);
    FlatCurveIsNearItsChord(Part(c, a, b), tol, t);
    hide IsFlat, NearLineThrough, PolarPoint;
  }

  /** What flattening is for: when no piece had to be dropped at the tenth halving, the emitted points
      end with the curve's, and the curve stays near the line through each two in a row. */
  lemma FlattenedIsNear(c: Cubic, tol: real, k: nat, t: real)
    requires Whole(Subdivide(c, tol, 0)) && k < |FlatPoints(c, tol, 0)| && 0.0 <= t <= 1.0
    ensures var p, s := FlatPoints(c, tol, 0), EndParams(Subdivide(c, tol, 0), 0, 0);
      && |p| == |s| && p[|p| - 1] == c.p4
      && var a, b := (if k == 0 then 0 else s[k - 1]) as real / 1024.0, s[k] as real / 1024.0;
         NearLineThrough(Eval(c, Lerp(a, b, t)), if k == 0 then c.p1 else p[k - 1], p[k], tol)
  {
    hide IsFlat, Part, Eval, EndParams, FlatPoints, NearLineThrough, Whole, Subdivide, Lerp;
    PiecesMeet(c, tol);
    var s := EndParams(Subdivide(c, tol, 0), 0, 0);
    PartIsNear(c, Dyadic(StartOf(s, 0, k)), Dyadic(s[k]), tol, t);
  }

  lemma PiecesMeet(c: Cubic, tol: real)
    requires Whole(Subdivide(c, tol, 0))
    ensures var p, s := FlatPoints(c, tol, 0), EndParams(Subdivide(c, tol, 0), 0, 0);
      && |p| == |s| > 0 && p[|p| - 1] == c.p4 && Eval(c, 0.0) == c.p1
      && (forall k :: 0 <= k < |s| ==> p[k] == Eval(c, Dyadic(s[k])))
      && forall k :: 0 <= k < |s| ==> IsFlat(Part(c, Dyadic(StartOf(s, 0, k)), Dyadic(s[k])), tol)
  {
    assert Width(0) == 1024 && Dyadic(0) == 0.0 && Dyadic(1024) == 1.0;
    hide IsFlat, Part, Eval, EndParams, FlatPoints, Whole, Subdivide, Width, Dyadic;
    WholeCurve(c);
    PointsLieOnCurve(c, c, tol, 0, 0);
    PiecesAreFlat(c, c, tol, 0, 0);
    EndsOfCurve(c);
  }

  lemma EndsOfCurve(c: Cubic)
    ensures Eval(c, 0.0) == c.p1 && Eval(c, 1.0) == c.p4
  {
  }
}
