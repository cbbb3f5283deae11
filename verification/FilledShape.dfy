/** Where a filled shape lies: the polygon that its outline becomes, and the path it comes from. */
module FilledShape {
  import opened Bezier
  import opened Outline

  /** q is a point of curve k of the path, scaled: its Bernstein form at t. */
  predicate OnCurve(pts: seq<Point>, k: nat, t: real, sx: real, sy: real, q: Point)
    requires 3 * k + 3 < |pts|
  {
    var a, b, c, d := pts[3 * k], pts[3 * k + 1], pts[3 * k + 2], pts[3 * k + 3];
    && 0.0 <= t <= 1.0
    && q.x == Bernstein(a.x * sx, b.x * sx, c.x * sx, d.x * sx, t)
    && q.y == Bernstein(a.y * sy, b.y * sy, c.y * sy, d.y * sy, t)
  }

  /** q is a point of the path: its start, or on one of its curves. */
  ghost predicate OnPath(pts: seq<Point>, sx: real, sy: real, q: Point) {
    (pts != [] && q == Point(pts[0].x * sx, pts[0].y * sy))
    || exists k: nat, t :: 3 * k + 3 < |pts| && OnCurve(pts, k, t, sx, sy, q)
  }

  ghost predicate AllOnPath(pts: seq<Point>, sx: real, sy: real, points: seq<PathPoint>) {
    forall i :: 0 <= i < |points| ==> OnPath(pts, sx, sy, points[i].p)
  }

  /** Curve k is that of points 3k to 3k + 3. */
  lemma CurveIs(pts: seq<Point>, k: nat, t: real, sx: real, sy: real)
    requires 3 * k + 3 < |pts| && 0.0 <= t <= 1.0
    ensures k < Curves(pts) && OnCurve(pts, k, t, sx, sy, Eval(CubicAt(pts, k, sx, sy), t))
  {
    EvalIsBernstein(CubicAt(pts, k, sx, sy), t);
    hide Bernstein, Eval;
  }

  lemma CurveIsOnPath(pts: seq<Point>, k: nat, t: real, sx: real, sy: real)
    requires k < Curves(pts) && 0.0 <= t <= 1.0
    ensures OnPath(pts, sx, sy, Eval(CubicAt(pts, k, sx, sy), t))
  {
    CurveIs(pts, k, t, sx, sy);
    hide OnCurve, CubicAt, Eval;
  }

  /** What flattening hands over lies on the curve. */
  lemma FlatPathIsOnPath(pts: seq<Point>, k: nat, sx: real, sy: real, tess: real, corner: bool)
    requires k < Curves(pts)
    ensures AllOnPath(pts, sx, sy, FlatPath(CubicAt(pts, k, sx, sy), tess, 0, corner))
  {
    var c := CubicAt(pts, k, sx, sy);
    var q, s := FlatPath(c, tess, 0, corner), EndParams(Subdivide(c, tess, 0), 0, 0);
    FlatPathPoints(c, tess, 0, 0, corner);
    FlatteningKeepsMeaning(c, tess);
    forall i | 0 <= i < |q|
      ensures OnPath(pts, sx, sy, q[i].p)
    {
      CurveIsOnPath(pts, k, Dyadic(s[i]), sx, sy);
    }
    hide OnPath, CubicAt, FlatPath, FlatPoints, EndParams, Subdivide, Eval;
  }

  /** Adding points adds or drops them, and moves none. */
  lemma {:induction false} AddPointsKeep(points: seq<PathPoint>, qs: seq<PathPoint>, tol: real, pts: seq<Point>, sx: real, sy: real)
    requires AllOnPath(pts, sx, sy, points) && AllOnPath(pts, sx, sy, qs)
    ensures AllOnPath(pts, sx, sy, AddPoints(points, qs, tol))
    decreases |qs|
  {
    hide OnPath, Close;
    if qs != [] {
      AddPointsKeep(AddPoint(points, qs[0], tol), qs[1..], tol, pts, sx, sy);
    }
  }

  lemma {:induction false} CurvePointsOnPath(points: seq<PathPoint>, pts: seq<Point>, k: nat, sx: real, sy: real,
                                             tess: real, dist: real, corner: bool)
    requires k <= Curves(pts) && AllOnPath(pts, sx, sy, points)
    ensures AllOnPath(pts, sx, sy, CurvePoints(points, pts, k, sx, sy, tess, dist, corner))
    decreases Curves(pts) - k
  {
    hide AllOnPath, FlatPath, CubicAt, AddPoints;
    if k < Curves(pts) {
      var q := FlatPath(CubicAt(pts, k, sx, sy), tess, 0, corner);
      FlatPathIsOnPath(pts, k, sx, sy, tess, corner);
      AddPointsKeep(points, q, dist, pts, sx, sy);
      CurvePointsOnPath(AddPoints(points, q, dist), pts, k + 1, sx, sy, tess, dist, corner);
    }
  }

  /** Every vertex of the polygon that is filled is a point of the path, scaled. */
  lemma PolygonIsOnPath(path: Path, sx: real, sy: real, tess: real, dist: real)
    requires |path.pts| % 3 == 1
    ensures AllOnPath(path.pts, sx, sy, PathPolygon(path, sx, sy, tess, dist))
  {
    var start := PathPoint(Scaled(path.pts[0], sx, sy), false);
    assert OnPath(path.pts, sx, sy, start.p);
    CurvePointsOnPath(AddPoint([], start, dist), path.pts, 0, sx, sy, tess, dist, false);
    hide OnPath, CurvePoints, Close;
  }

  // ---------------------------------------------------------------- nothing is left out

  /** p and q are nearer than dist. */
  predicate Near(p: Point, q: Point, dist: real) {
    (q.x - p.x) * (q.x - p.x) + (q.y - p.y) * (q.y - p.y) < dist * dist
  }

  /** No two vertices in a row are that near. */
  ghost predicate Apart(points: seq<PathPoint>, dist: real) {
    forall i :: 0 <= i < |points| - 1 ==> !Near(points[i].p, points[i + 1].p, dist)
  }

  /** q is a vertex, or nearer to one than dist. */
  ghost predicate Kept(points: seq<PathPoint>, q: Point, dist: real) {
    exists i :: 0 <= i < |points| && (points[i].p == q || Near(points[i].p, q, dist))
  }

  /** A point that is near to the last vertex is left out, any other becomes a vertex; vertices stay
      where they are. */
  lemma AddPointIs(points: seq<PathPoint>, q: PathPoint, dist: real)
    requires Apart(points, dist)
    ensures var r := AddPoint(points, q, dist);
      && Apart(r, dist) && |points| <= |r| && Kept(r, q.p, dist)
      && (forall i :: 0 <= i < |points| ==> r[i].p == points[i].p)
      && (|r| == |points| <==> points != [] && Near(points[|points| - 1].p, q.p, dist))
      && (r[|r| - 1].corner <==> q.corner || (|r| == |points| && points[|r| - 1].corner))
  {
    var r, n := AddPoint(points, q, dist), |points|;
    if n > 0 {
      assert Close(points[n - 1].p, q.p, dist) <==> Near(points[n - 1].p, q.p, dist);
    }
    hide Close, Near;
    assert r[|r| - 1].p == q.p || Near(r[|r| - 1].p, q.p, dist);
  }

  /** The same for a list of points. */
  lemma {:induction false} AddPointsAre(points: seq<PathPoint>, qs: seq<PathPoint>, dist: real)
    requires Apart(points, dist)
    ensures var r := AddPoints(points, qs, dist);
      && Apart(r, dist) && |points| <= |r|
      && (forall i :: 0 <= i < |points| ==> r[i].p == points[i].p)
      && forall k :: 0 <= k < |qs| ==> Kept(r, qs[k].p, dist)
    decreases |qs|
  {
    hide Near;
    if qs != [] {
      var next := AddPoint(points, qs[0], dist);
      AddPointIs(points, qs[0], dist);
      AddPointsAre(next, qs[1..], dist);
      StaysKept(next, AddPoints(next, qs[1..], dist), qs[0].p, dist);
      forall k | 0 <= k < |qs|
        ensures Kept(AddPoints(next, qs[1..], dist), qs[k].p, dist)
      {
        assert k > 0 ==> qs[1..][k - 1] == qs[k];
      }
    }
  }

  lemma StaysKept(points: seq<PathPoint>, r: seq<PathPoint>, q: Point, dist: real)
    requires Kept(points, q, dist) && |points| <= |r| && forall i :: 0 <= i < |points| ==> r[i].p == points[i].p
    ensures Kept(r, q, dist)
  {
    hide Near;
    var i :| 0 <= i < |points| && (points[i].p == q || Near(points[i].p, q, dist));
    assert r[i].p == points[i].p;
  }

  lemma {:induction false} CurvePointsAre(points: seq<PathPoint>, pts: seq<Point>, k: nat, j: nat, sx: real, sy: real,
                                          tess: real, dist: real, corner: bool)
    requires k <= Curves(pts) && Apart(points, dist)
    ensures var r := CurvePoints(points, pts, k, sx, sy, tess, dist, corner);
      && Apart(r, dist) && |points| <= |r|
      && (forall i :: 0 <= i < |points| ==> r[i].p == points[i].p)
      && (k <= j < Curves(pts) ==>
            forall i :: 0 <= i < |FlatPath(CubicAt(pts, j, sx, sy), tess, 0, corner)| ==>
              Kept(r, FlatPath(CubicAt(pts, j, sx, sy), tess, 0, corner)[i].p, dist))
    decreases Curves(pts) - k
  {
    hide FlatPath, CubicAt, AddPoints, Kept, Apart;
    if k < Curves(pts) {
      var q := FlatPath(CubicAt(pts, k, sx, sy), tess, 0, corner);
      var next := AddPoints(points, q, dist);
      AddPointsAre(points, q, dist);
      CurvePointsAre(next, pts, k + 1, j, sx, sy, tess, dist, corner);
      if j == k {
        var r := CurvePoints(next, pts, k + 1, sx, sy, tess, dist, corner);
        forall i | 0 <= i < |q|
          ensures Kept(r, q[i].p, dist)
        {
          StaysKept(next, r, q[i].p, dist);
        }
      }
    }
  }

  /** Every flattened point of every curve is a vertex of the polygon or near one, vertices in a row
      are not near each other, and the polygon begins with the start of the path. */
  lemma PolygonKeepsPath(path: Path, sx: real, sy: real, tess: real, dist: real, k: nat, i: nat)
    requires |path.pts| % 3 == 1 && 3 * k + 3 < |path.pts| && i < |FlatPoints(CubicAt(path.pts, k, sx, sy), tess, 0)|
    ensures var r := PathPolygon(path, sx, sy, tess, dist);
      && Apart(r, dist) && r != [] && r[0].p == Point(path.pts[0].x * sx, path.pts[0].y * sy)
      && Kept(r, FlatPoints(CubicAt(path.pts, k, sx, sy), tess, 0)[i], dist)
  {
    var start, c := PathPoint(Scaled(path.pts[0], sx, sy), false), CubicAt(path.pts, k, sx, sy);
    var first := AddPoint([], start, dist);
    FlatPathPoints(c, tess, 0, 0, false);
    hide FlatPath, FlatPoints, CubicAt, Kept, Near, Close, CurvePoints;
    CurvePointsAre(first, path.pts, 0, k, sx, sy, tess, dist, false);
    var mid := CurvePoints(first, path.pts, 0, sx, sy, tess, dist, false);
    AddPointIs(mid, start, dist);
    StaysKept(mid, AddPoint(mid, start, dist), FlatPoints(c, tess, 0)[i], dist);
  }

  // ---------------------------------------------------------------- the closed polygon

  lemma {:induction false} ChainIs(prev: Point, ps: seq<Point>, i: nat)
    requires i < |ps|
    ensures |Chain(prev, ps)| == |ps| && Chain(prev, ps)[i] == Seg(if i == 0 then prev else ps[i - 1], ps[i])
    decreases |ps|
  {
    if i > 0 {
      ChainIs(ps[0], ps[1..], i - 1);
    } else if |ps| > 1 {
      ChainIs(ps[0], ps[1..], 0);
    }
  }

  /** Side i of the polygon runs to vertex i from the one before, the first from the last. */
  lemma PolygonSides(points: seq<Point>, i: nat)
    requires i < |points|
    ensures |PolygonSegs(points)| == |points|
    ensures PolygonSegs(points)[i] == Seg(points[if i == 0 then |points| - 1 else i - 1], points[i])
  {
    ChainIs(points[|points| - 1], points, i);
  }
}
