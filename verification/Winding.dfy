/** How often an outline winds around a point, from the edges alone.

  An edge counts with its direction for a point when it crosses the point's row at the point or to
  its left.  What the rasteriser draws is compared with this number.
 */
module Winding {
  import opened Bezier
  import opened Outline

  function EdgeWinding(e: Edge, p: Point): int {
    if e.y0 <= p.y < e.y1 && (e.x1 - e.x0) * (p.y - e.y0) <= (p.x - e.x0) * (e.y1 - e.y0) then e.dir else 0
  }

  function WindingOf(edges: seq<Edge>, p: Point): int {
    if edges == [] then 0 else EdgeWinding(edges[0], p) + WindingOf(edges[1..], p)
  }

  /** Positive on one side of the line through a segment, negative on the other. */
  function Side(s: Seg, p: Point): real {
    (s.b.x - s.a.x) * (p.y - s.a.y) - (s.b.y - s.a.y) * (p.x - s.a.x)
  }

  function SegWinding(s: Seg, p: Point): int {
    if s.a.y <= p.y < s.b.y && Side(s, p) <= 0.0 then 1
    else if s.b.y <= p.y < s.a.y && Side(s, p) >= 0.0 then -1
    else 0
  }

  function SegsWinding(segs: seq<Seg>, p: Point): int {
    if segs == [] then 0 else SegWinding(segs[0], p) + SegsWinding(segs[1..], p)
  }

  lemma {:induction false} WindingConcat(s: seq<Edge>, t: seq<Edge>, p: Point)
    ensures WindingOf(s + t, p) == WindingOf(s, p) + WindingOf(t, p)
  {
    if s == [] {
      assert s + t == t;
    } else {
      assert (s + t)[1..] == s[1..] + t;
      WindingConcat(s[1..], t, p);
    }
  }

  lemma SideReversed(a: Point, b: Point, p: Point)
    ensures Side(Seg(b, a), p) == -Side(Seg(a, b), p)
  {
    var ux, uy, vx, vy := b.x - a.x, b.y - a.y, p.x - a.x, p.y - a.y;
    assert (-ux) * (vy - uy) - (-uy) * (vx - ux) == -(ux * vy - uy * vx);
  }

  lemma EdgeWinds(s: Seg, p: Point)
    ensures WindingOf(EdgeOf(s), p) == SegWinding(s, p)
  {
    SideReversed(s.a, s.b, p);
    if EdgeOf(s) != [] {
      var e := EdgeOf(s)[0];
      assert EdgeOf(s)[1..] == [];
      assert EdgeWinding(e, p) == SegWinding(s, p);
    }
  }

  /** Edges wind like the segments they are made of. */
  lemma {:induction false} EdgesWindLikeSegments(segs: seq<Seg>, p: Point)
    ensures WindingOf(EdgesOf(segs), p) == SegsWinding(segs, p)
  {
    if segs != [] {
      EdgeWinds(segs[0], p);
      WindingConcat(EdgeOf(segs[0]), EdgesOf(segs[1..]), p);
      EdgesWindLikeSegments(segs[1..], p);
    }
  }

  lemma {:induction false} WindingSplit(edges: seq<Edge>, i: nat, p: Point)
    requires i < |edges|
    ensures WindingOf(edges, p) == EdgeWinding(edges[i], p) + WindingOf(edges[..i] + edges[i + 1..], p)
  {
    assert edges == edges[..i] + ([edges[i]] + edges[i + 1..]);
    WindingConcat(edges[..i], [edges[i]] + edges[i + 1..], p);
    WindingConcat(edges[..i], edges[i + 1..], p);
  }

  /** The order of the edges does not matter. */
  lemma {:induction false} WindingPermuted(s: seq<Edge>, t: seq<Edge>, p: Point)
    requires multiset(s) == multiset(t)
    ensures WindingOf(s, p) == WindingOf(t, p)
    decreases |s|
  {
    if s == [] {
      assert |multiset(t)| == 0;
    } else {
      assert s[0] in multiset(t);
      var i :| 0 <= i < |t| && t[i] == s[0];
      RemoveOne(s, t, i);
      WindingPermuted(s[1..], t[..i] + t[i + 1..], p);
      WindingSplit(t, i, p);
    }
  }

  /** A placed edge winds around a point of the bitmap, in sub-scanlines, as the edge itself does
      around the point it comes from. */
  lemma PlacedEdgeWinds(e: Edge, tx: real, ty: real, x: real, y: real)
    ensures EdgeWinding(Placed(e, tx, ty), Point(tx + x, (ty + y) * 5.0)) == EdgeWinding(e, Point(x, y))
  {
    var dx, dy, vx, vy := e.x1 - e.x0, e.y1 - e.y0, x - e.x0, y - e.y0;
    assert (ty + e.y1) * 5.0 - (ty + e.y0) * 5.0 == 5.0 * dy;
    assert (ty + y) * 5.0 - (ty + e.y0) * 5.0 == 5.0 * vy;
    assert dx * (5.0 * vy) == 5.0 * (dx * vy) && vx * (5.0 * dy) == 5.0 * (vx * dy);
  }

  lemma {:induction false} PlacedWinds(edges: seq<Edge>, tx: real, ty: real, x: real, y: real)
    ensures WindingOf(PlacedAll(edges, tx, ty), Point(tx + x, (ty + y) * 5.0)) == WindingOf(edges, Point(x, y))
  {
    if edges != [] {
      PlacedEdgeWinds(edges[0], tx, ty, x, y);
      PlacedWinds(edges[1..], tx, ty, x, y);
    }
  }

  // --------------------------------------------------------------------------- parallelograms

  /** What a share of a length can be. */
  ghost predicate Shares(k: real, p: real, a: real) {
    && (p == 0.0 ==> a == 0.0)
    && (0.0 < k < 1.0 ==> (p > 0.0 ==> 0.0 < a < p) && (p < 0.0 ==> p < a < 0.0))
    && (k < 0.0 ==> (p > 0.0 ==> a < 0.0) && (p < 0.0 ==> a > 0.0))
    && (k > 1.0 ==> (p > 0.0 ==> a > p) && (p < 0.0 ==> a < p))
    && (k == 0.0 ==> a == 0.0) && (k == 1.0 ==> a == p)
  }

  function Share(k: real, p: real): real { k * p }

  lemma ShareIs(k: real, p: real)
    ensures Shares(k, p, Share(k, p))
  {
    var j := k - 1.0;
    assert k * p == p + j * p;
    ProductSign(k, p);
    ProductSign(j, p);
  }

  lemma ProductSign(x: real, y: real)
    ensures (x > 0.0 && y > 0.0) || (x < 0.0 && y < 0.0) ==> x * y > 0.0
    ensures (x > 0.0 && y < 0.0) || (x < 0.0 && y > 0.0) ==> x * y < 0.0
    ensures x == 0.0 || y == 0.0 ==> x * y == 0.0
  {
  }

  /** The winding of a segment from height y to height z, for a point at height h on the side of
      the sign of k. */
  function Half(y: real, z: real, h: real, k: real): int {
    if y <= h < z && k <= 0.0 then 1 else if z <= h < y && k >= 0.0 then -1 else 0
  }

  /** The four sides of a parallelogram, for a point `a` along the height p of one pair of sides
      and `b` along the height q of the other. */
  lemma FourSides(p: real, q: real, a: real, b: real, s: real, t: real)
    requires Shares(s, p, a) && Shares(t, q, b) && (p != 0.0 || q != 0.0)
    ensures var w := Half(0.0, p, a + b, t) + Half(p, p + q, a + b, 1.0 - s)
                     + Half(p + q, q, a + b, 1.0 - t) + Half(q, 0.0, a + b, s);
      && (0.0 < s < 1.0 && 0.0 < t < 1.0 ==> w == -1)
      && (s < 0.0 || s > 1.0 || t < 0.0 || t > 1.0 ==> w == 0)
  {
  }

  function Plus(p: Point, q: Point): Point { Point(p.x + q.x, p.y + q.y) }

  /** The point that is s of the way along e and t of the way along f from a. */
  function Combined(a: Point, e: Point, f: Point, s: real, t: real): Point {
    Point(a.x + (Share(s, e.x) + Share(t, f.x)), a.y + (Share(s, e.y) + Share(t, f.y)))
  }

  lemma SideIs(o: Point, d: Point, k: real, l: real, e: Point, f: Point)
    ensures Side(Seg(o, Plus(o, d)), Combined(o, e, f, k, l)) == k * Cross(d, e) + l * Cross(d, f)
  {
    var x, y := k * e.x + l * f.x, k * e.y + l * f.y;
    assert d.x * y - d.y * x == k * (d.x * e.y - d.y * e.x) + l * (d.x * f.y - d.y * f.x);
  }

  lemma HalfSign(y: real, z: real, h: real, k: real, c: real)
    requires c > 0.0
    ensures Half(y, z, h, k * c) == Half(y, z, h, k)
  {
    ProductSign(k, c);
  }

  lemma AtCorners(a: Point, e: Point, f: Point, s: real, t: real)
    ensures var p := Combined(a, e, f, s, t);
      && p == Combined(Plus(a, e), e, f, s - 1.0, t) == Combined(Plus(Plus(a, e), f), e, f, s - 1.0, t - 1.0)
      && p == Combined(Plus(a, f), e, f, s, t - 1.0)
  {
    assert (s - 1.0) * e.x == s * e.x - e.x && (s - 1.0) * e.y == s * e.y - e.y;
    assert (t - 1.0) * f.x == t * f.x - f.x && (t - 1.0) * f.y == t * f.y - f.y;
  }

  /** A segment along d from a corner o: the side of the point is the sign of `side`. */
  lemma SideWinds(o: Point, d: Point, k: real, l: real, e: Point, f: Point, side: real)
    requires k * Cross(d, e) + l * Cross(d, f) == side * Cross(e, f) && Cross(e, f) > 0.0
    ensures SegWinding(Seg(o, Plus(o, d)), Combined(o, e, f, k, l)) == Half(0.0, d.y, Share(k, e.y) + Share(l, f.y), side)
  {
    SideIs(o, d, k, l, e, f);
    HalfSign(0.0, d.y, Share(k, e.y) + Share(l, f.y), side, Cross(e, f));
    hide Side, Cross;
  }

  lemma HalfShift(y: real, z: real, h: real, k: real, c: real)
    ensures Half(y + c, z + c, h + c, k) == Half(y, z, h, k)
  {
  }

  lemma FirstSides(a: Point, e: Point, f: Point, s: real, t: real)
    requires Cross(e, f) > 0.0
    ensures var b, c, p, h := Plus(a, e), Plus(Plus(a, e), f), Combined(a, e, f, s, t), Share(s, e.y) + Share(t, f.y);
      && SegWinding(Seg(a, b), p) == Half(0.0, e.y, h, t)
      && SegWinding(Seg(b, c), p) == Half(e.y, e.y + f.y, h, 1.0 - s)
  {
    var h := Share(s, e.y) + Share(t, f.y);
    CrossTurns(e, f);
    AtCorners(a, e, f, s, t);
    assert (s - 1.0) * Cross(f, e) == (1.0 - s) * Cross(e, f);
    LessOne(s, e.y);
    SideWinds(a, e, s, t, e, f, t);
    SideWinds(Plus(a, e), f, s - 1.0, t, e, f, 1.0 - s);
    HalfShift(0.0, f.y, h - e.y, 1.0 - s, e.y);
    hide SegWinding, Half, Cross, Combined, Plus, Share;
  }

  lemma LessOne(k: real, p: real)
    ensures Share(k - 1.0, p) == Share(k, p) - p
  {
  }

  lemma CrossTurns(e: Point, f: Point)
    ensures Cross(f, e) == -Cross(e, f) && Cross(e, e) == 0.0 && Cross(f, f) == 0.0
    ensures Cross(Neg(e), e) == 0.0 && Cross(Neg(e), f) == -Cross(e, f)
    ensures Cross(Neg(f), f) == 0.0 && Cross(Neg(f), e) == Cross(e, f)
  {
  }

  lemma LastSides(a: Point, e: Point, f: Point, s: real, t: real)
    requires Cross(e, f) > 0.0
    ensures var c, d, p, h := Plus(Plus(a, e), f), Plus(a, f), Combined(a, e, f, s, t), Share(s, e.y) + Share(t, f.y);
      && SegWinding(Seg(c, d), p) == Half(e.y + f.y, f.y, h, 1.0 - t)
      && SegWinding(Seg(d, a), p) == Half(f.y, 0.0, h, s)
  {
    var c, d, h := Plus(Plus(a, e), f), Plus(a, f), Share(s, e.y) + Share(t, f.y);
    CrossTurns(e, f);
    AtCorners(a, e, f, s, t);
    assert (t - 1.0) * Cross(Neg(e), f) == (1.0 - t) * Cross(e, f);
    LessOne(s, e.y);
    LessOne(t, f.y);
    assert Plus(c, Neg(e)) == d && Plus(d, Neg(f)) == a;
    SideWinds(c, Neg(e), s - 1.0, t - 1.0, e, f, 1.0 - t);
    SideWinds(d, Neg(f), s, t - 1.0, e, f, s);
    HalfShift(0.0, -e.y, h - e.y - f.y, 1.0 - t, e.y + f.y);
    HalfShift(0.0, -f.y, h - f.y, s, f.y);
    hide SegWinding, Half, Cross, Combined, Share;
  }

  /** A parallelogram winds once around the points inside it, and not around those outside. */
  lemma ParallelogramWinds(a: Point, e: Point, f: Point, s: real, t: real)
    requires Cross(e, f) > 0.0
    ensures var b, c, d, p := Plus(a, e), Plus(Plus(a, e), f), Plus(a, f), Combined(a, e, f, s, t);
      var w := SegWinding(Seg(a, b), p) + SegWinding(Seg(b, c), p) + SegWinding(Seg(c, d), p) + SegWinding(Seg(d, a), p);
      && (0.0 < s < 1.0 && 0.0 < t < 1.0 ==> w == -1)
      && (s < 0.0 || s > 1.0 || t < 0.0 || t > 1.0 ==> w == 0)
  {
    FirstSides(a, e, f, s, t);
    LastSides(a, e, f, s, t);
    ShareIs(s, e.y);
    ShareIs(t, f.y);
    NotFlat(e, f);
    FourSides(e.y, f.y, Share(s, e.y), Share(t, f.y), s, t);
    hide SegWinding, Half, Cross, Combined, Plus, Shares, Share;
  }

  lemma NotFlat(e: Point, f: Point)
    requires Cross(e, f) > 0.0
    ensures e.y != 0.0 || f.y != 0.0
  {
  }
}
