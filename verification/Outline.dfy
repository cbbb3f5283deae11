/** Outlines: from curves and strokes to oriented edges.

  Every shape becomes a list of directed segments; horizontal ones are dropped and the others
  are stored with y0 < y1 and the direction they were drawn in.  Trigonometry and square roots
  enter as parameters: the unit vectors they produce may be any vectors at all.
 */
module Outline {
  import opened Bezier

  datatype Edge = Edge(x0: real, y0: real, x1: real, y1: real, dir: int) {
    ghost predicate Valid() { y0 < y1 && (dir == 1 || dir == -1) }
  }

  /** A directed segment of an outline. */
  datatype Seg = Seg(a: Point, b: Point)

  function EdgeOf(s: Seg): seq<Edge> {
    if s.a.y == s.b.y then []
    else if s.a.y < s.b.y then [Edge(s.a.x, s.a.y, s.b.x, s.b.y, 1)]
    else [Edge(s.b.x, s.b.y, s.a.x, s.a.y, -1)]
  }

  function EdgesOf(segs: seq<Seg>): seq<Edge> {
    if segs == [] then [] else EdgeOf(segs[0]) + EdgesOf(segs[1..])
  }

  lemma {:induction false} EdgesOfConcat(s: seq<Seg>, t: seq<Seg>)
    ensures EdgesOf(s + t) == EdgesOf(s) + EdgesOf(t)
  {
    if s == [] {
      assert s + t == t;
    } else {
      assert (s + t)[1..] == s[1..] + t;
      EdgesOfConcat(s[1..], t);
    }
  }

  /** `done` is the first part of `all`, `rest` what remains. */
  ghost predicate Splits(done: seq<Seg>, rest: seq<Seg>, all: seq<Seg>) {
    done + rest == all
  }

  lemma SplitsStart(all: seq<Seg>)
    ensures Splits([], all, all)
  {
  }

  lemma SplitsMove(done: seq<Seg>, one: seq<Seg>, rest: seq<Seg>, all: seq<Seg>)
    requires Splits(done, one + rest, all)
    ensures Splits(done + one, rest, all)
  {
    assert (done + one) + rest == done + (one + rest);
  }

  lemma SplitsEnd(done: seq<Seg>, all: seq<Seg>)
    requires Splits(done, [], all)
    ensures done == all
  {
  }

  lemma EdgesAppend(base: seq<Edge>, done: seq<Seg>, one: seq<Seg>)
    ensures base + EdgesOf(done) + EdgesOf(one) == base + EdgesOf(done + one)
  {
    EdgesOfConcat(done, one);
    assert base + EdgesOf(done) + EdgesOf(one) == base + (EdgesOf(done) + EdgesOf(one));
  }

  lemma {:induction false} EdgesAreValid(segs: seq<Seg>)
    ensures forall i :: 0 <= i < |EdgesOf(segs)| ==> EdgesOf(segs)[i].Valid()
  {
    if segs != [] {
      EdgesAreValid(segs[1..]);
    }
  }

  // ---------------------------------------------------------------- crossings of a scan height

  function Crossing(e: Edge, h: real): int {
    if e.y0 <= h < e.y1 then e.dir else 0
  }

  function CrossSum(edges: seq<Edge>, h: real): int {
    if edges == [] then 0 else Crossing(edges[0], h) + CrossSum(edges[1..], h)
  }

  /** The edges crossing any height cancel. */
  ghost predicate Balanced(edges: seq<Edge>) {
    forall h: real :: CrossSum(edges, h) == 0
  }

  lemma {:induction false} CrossSumConcat(s: seq<Edge>, t: seq<Edge>, h: real)
    ensures CrossSum(s + t, h) == CrossSum(s, h) + CrossSum(t, h)
  {
    if s == [] {
      assert s + t == t;
    } else {
      assert (s + t)[1..] == s[1..] + t;
      CrossSumConcat(s[1..], t, h);
    }
  }

  function At(p: Point, h: real): int { if p.y <= h then 1 else 0 }

  /** A segment's net crossing depends on its end points only. */
  function SegSum(segs: seq<Seg>, h: real): int {
    if segs == [] then 0 else At(segs[0].a, h) - At(segs[0].b, h) + SegSum(segs[1..], h)
  }

  lemma {:induction false} SegSumConcat(s: seq<Seg>, t: seq<Seg>, h: real)
    ensures SegSum(s + t, h) == SegSum(s, h) + SegSum(t, h)
  {
    if s == [] {
      assert s + t == t;
    } else {
      assert (s + t)[1..] == s[1..] + t;
      SegSumConcat(s[1..], t, h);
    }
  }

  lemma {:induction false} EdgesCrossLikeSegments(segs: seq<Seg>, h: real)
    ensures CrossSum(EdgesOf(segs), h) == SegSum(segs, h)
  {
    if segs != [] {
      EdgesCrossLikeSegments(segs[1..], h);
      CrossSumConcat(EdgeOf(segs[0]), EdgesOf(segs[1..]), h);
      assert CrossSum(EdgeOf(segs[0]), h) == At(segs[0].a, h) - At(segs[0].b, h);
    }
  }

  // ---------------------------------------------------------------- polylines

  /** The segments from prev through all the points of rest. */
  function Chain(prev: Point, rest: seq<Point>): seq<Seg>
    decreases rest
  {
    if rest == [] then [] else [Seg(prev, rest[0])] + Chain(rest[0], rest[1..])
  }

  lemma {:induction false} ChainTelescopes(prev: Point, rest: seq<Point>, h: real)
    ensures SegSum(Chain(prev, rest), h)
         == At(prev, h) - At(if rest == [] then prev else rest[|rest| - 1], h)
    decreases rest
  {
    if rest != [] {
      ChainTelescopes(rest[0], rest[1..], h);
    }
  }

  lemma ChainStep(prev: Point, ps: seq<Point>, i: nat)
    requires i < |ps|
    ensures Chain(prev, ps[i..]) == [Seg(prev, ps[i])] + Chain(ps[i], ps[i + 1..])
  {
    assert ps[i..][1..] == ps[i + 1..];
  }

  lemma ChainEnd(prev: Point, ps: seq<Point>)
    ensures Chain(prev, ps[|ps|..]) == []
  {
  }

  /** The closed polygon through the points. */
  function PolygonSegs(points: seq<Point>): seq<Seg> {
    if points == [] then [] else Chain(points[|points| - 1], points)
  }

  // ---------------------------------------------------------------- filled shapes

  datatype PathPoint = PathPoint(p: Point, corner: bool)

  /** A path: a start point followed by groups of three control points. */
  datatype Path = Path(pts: seq<Point>) {
    ghost predicate Valid() { |pts| % 3 == 1 }
  }

  ghost predicate AllValid(paths: seq<Path>) {
    forall i :: 0 <= i < |paths| ==> paths[i].Valid()
  }

  function Scaled(p: Point, sx: real, sy: real): Point { Point(p.x * sx, p.y * sy) }

  predicate Close(p: Point, q: Point, tol: real) {
    var dx, dy := q.x - p.x, q.y - p.y;
    dx * dx + dy * dy < tol * tol
  }

  function AddPoint(points: seq<PathPoint>, q: PathPoint, tol: real): seq<PathPoint> {
    var n := |points|;
    if n > 0 && Close(points[n - 1].p, q.p, tol)
    then points[n - 1 := PathPoint(points[n - 1].p, points[n - 1].corner || q.corner)]
    else points + [q]
  }

  function AddPoints(points: seq<PathPoint>, qs: seq<PathPoint>, tol: real): seq<PathPoint>
    decreases qs
  {
    if qs == [] then points else AddPoints(AddPoint(points, qs[0], tol), qs[1..], tol)
  }

  lemma {:induction false} AddPointsConcat(points: seq<PathPoint>, s: seq<PathPoint>, t: seq<PathPoint>, tol: real)
    ensures AddPoints(points, s + t, tol) == AddPoints(AddPoints(points, s, tol), t, tol)
    decreases s
  {
    if s == [] {
      assert s + t == t;
    } else {
      assert (s + t)[1..] == s[1..] + t;
      AddPointsConcat(AddPoint(points, s[0], tol), s[1..], t, tol);
    }
  }

  /** Path points handed to AddPoint by the flattening of one cubic. */
  function FlatPath(c: Cubic, tol: real, level: nat, corner: bool): seq<PathPoint>
    requires level <= MAX_LEVEL
    decreases MAX_LEVEL - level
  {
    if IsFlat(c, tol) then [PathPoint(c.p4, corner)]
    else if level + 1 > MAX_LEVEL then []
    else FlatPath(LeftHalf(c), tol, level + 1, false) + FlatPath(RightHalf(c), tol, level + 1, corner)
  }

  /** Path points match points and their end parameters; a corner is at parameter `end` only, and is
      one when `corner` says so. */
  ghost predicate Matches(q: seq<PathPoint>, p: seq<Point>, s: seq<nat>, corner: bool, end: nat) {
    |q| == |p| == |s|
    && forall i :: 0 <= i < |q| ==> q[i].p == p[i] && (q[i].corner <==> corner && s[i] == end)
  }

  lemma MatchesConcat(q1: seq<PathPoint>, p1: seq<Point>, s1: seq<nat>, mid: nat,
                      q2: seq<PathPoint>, p2: seq<Point>, s2: seq<nat>, corner: bool, end: nat)
    requires Matches(q1, p1, s1, false, mid) && Matches(q2, p2, s2, corner, end)
    requires forall i :: 0 <= i < |s1| ==> s1[i] < end
    ensures Matches(q1 + q2, p1 + p2, s1 + s2, corner, end)
  {
  }

  /** What halving does to the three descriptions of a piece. */
  lemma HalvedPiece(c: Cubic, tol: real, level: nat, lo: nat, corner: bool)
    requires level < MAX_LEVEL && !IsFlat(c, tol)
    ensures var l, r, mid := LeftHalf(c), RightHalf(c), lo + Width(level + 1);
            && FlatPath(c, tol, level, corner)
               == FlatPath(l, tol, level + 1, false) + FlatPath(r, tol, level + 1, corner)
            && FlatPoints(c, tol, level) == FlatPoints(l, tol, level + 1) + FlatPoints(r, tol, level + 1)
            && EndParams(Subdivide(c, tol, level), level, lo)
               == EndParams(Subdivide(l, tol, level + 1), level + 1, lo)
                  + EndParams(Subdivide(r, tol, level + 1), level + 1, mid)
            && mid + Width(level + 1) == lo + Width(level)
  {
    hide IsFlat, LeftHalf, RightHalf;
  }

  /** The flattened path points are those of the exact subdivision, and only the end of the curve
      is a corner. */
  ghost predicate Traced(c: Cubic, tol: real, level: nat, lo: nat, corner: bool)
    requires level <= MAX_LEVEL
  {
    Matches(FlatPath(c, tol, level, corner), FlatPoints(c, tol, level),
            EndParams(Subdivide(c, tol, level), level, lo), corner, lo + Width(level))
  }

  lemma WholePiece(c: Cubic, tol: real, level: nat, lo: nat, corner: bool)
    requires level <= MAX_LEVEL && (IsFlat(c, tol) || level == MAX_LEVEL)
    ensures Traced(c, tol, level, lo, corner)
  {
    hide IsFlat, LeftHalf, RightHalf;
  }

  lemma TwoHalves(c: Cubic, tol: real, level: nat, lo: nat, corner: bool)
    requires level < MAX_LEVEL && !IsFlat(c, tol)
    requires Traced(LeftHalf(c), tol, level + 1, lo, false)
    requires Traced(RightHalf(c), tol, level + 1, lo + Width(level + 1), corner)
    ensures Traced(c, tol, level, lo, corner)
  {
    hide IsFlat, LeftHalf, RightHalf, Matches, FlatPath, FlatPoints, EndParams, Subdivide;
    var l, r, mid := LeftHalf(c), RightHalf(c), lo + Width(level + 1);
    HalvedPiece(c, tol, level, lo, corner);
    ParamsIncrease(Subdivide(l, tol, level + 1), level + 1, lo);
    MatchesConcat(FlatPath(l, tol, level + 1, false), FlatPoints(l, tol, level + 1),
                  EndParams(Subdivide(l, tol, level + 1), level + 1, lo), mid,
                  FlatPath(r, tol, level + 1, corner), FlatPoints(r, tol, level + 1),
                  EndParams(Subdivide(r, tol, level + 1), level + 1, mid), corner, lo + Width(level));
  }

  lemma {:induction false} FlatPathPoints(c: Cubic, tol: real, level: nat, lo: nat, corner: bool)
    requires level <= MAX_LEVEL
    ensures Traced(c, tol, level, lo, corner)
    decreases MAX_LEVEL - level
  {
    hide IsFlat, LeftHalf, RightHalf, Traced;
    if IsFlat(c, tol) || level == MAX_LEVEL {
      WholePiece(c, tol, level, lo, corner);
    } else {
      FlatPathPoints(LeftHalf(c), tol, level + 1, lo, false);
      FlatPathPoints(RightHalf(c), tol, level + 1, lo + Width(level + 1), corner);
      TwoHalves(c, tol, level, lo, corner);
    }
  }

  /** Curve k of a path occupies its points 3k .. 3k + 3. */
  function Curves(pts: seq<Point>): int { (|pts| - 1) / 3 }

  function CubicAt(pts: seq<Point>, k: nat, sx: real, sy: real): Cubic
    requires k < Curves(pts)
  {
    Cubic(Scaled(pts[3 * k], sx, sy), Scaled(pts[3 * k + 1], sx, sy),
          Scaled(pts[3 * k + 2], sx, sy), Scaled(pts[3 * k + 3], sx, sy))
  }

  /** The flattened points of a path from curve k on. */
  function CurvePoints(points: seq<PathPoint>, pts: seq<Point>, k: nat, sx: real, sy: real,
                       tess: real, dist: real, corner: bool): seq<PathPoint>
    requires k <= Curves(pts)
    decreases Curves(pts) - k
  {
    if k == Curves(pts) then points
    else CurvePoints(AddPoints(points, FlatPath(CubicAt(pts, k, sx, sy), tess, 0, corner), dist),
                     pts, k + 1, sx, sy, tess, dist, corner)
  }

  function PathPolygon(path: Path, sx: real, sy: real, tess: real, dist: real): seq<PathPoint>
    requires path.Valid()
  {
    var start := PathPoint(Scaled(path.pts[0], sx, sy), false);
    AddPoint(CurvePoints(AddPoint([], start, dist), path.pts, 0, sx, sy, tess, dist, false), start, dist)
  }

  function Positions(points: seq<PathPoint>): (r: seq<Point>)
    ensures |r| == |points|
    ensures forall i :: 0 <= i < |r| ==> r[i] == points[i].p
  {
    seq(|points|, i requires 0 <= i < |points| => points[i].p)
  }

  function ShapeSegs(paths: seq<Path>, sx: real, sy: real, tess: real, dist: real): seq<Seg>
    requires AllValid(paths)
  {
    if paths == [] then []
    else PolygonSegs(Positions(PathPolygon(paths[0], sx, sy, tess, dist)))
         + ShapeSegs(paths[1..], sx, sy, tess, dist)
  }

  lemma ShapeStep(paths: seq<Path>, k: nat, sx: real, sy: real, tess: real, dist: real)
    requires AllValid(paths) && k < |paths|
    ensures ShapeSegs(paths[k..], sx, sy, tess, dist)
         == PolygonSegs(Positions(PathPolygon(paths[k], sx, sy, tess, dist)))
            + ShapeSegs(paths[k + 1..], sx, sy, tess, dist)
  {
    hide PathPolygon, PolygonSegs;
    assert paths[k..][1..] == paths[k + 1..];
  }

  lemma ShapeAdvance(paths: seq<Path>, k: nat, sx: real, sy: real, tess: real, dist: real,
                     base: seq<Edge>, done: seq<Seg>, all: seq<Seg>)
    requires AllValid(paths) && k < |paths|
    requires Splits(done, ShapeSegs(paths[k..], sx, sy, tess, dist), all)
    ensures var one := PolygonSegs(Positions(PathPolygon(paths[k], sx, sy, tess, dist)));
            && Splits(done + one, ShapeSegs(paths[k + 1..], sx, sy, tess, dist), all)
            && base + EdgesOf(done) + EdgesOf(one) == base + EdgesOf(done + one)
  {
    hide PathPolygon, PolygonSegs, Positions, Splits, EdgesOf, ShapeSegs;
    var one := PolygonSegs(Positions(PathPolygon(paths[k], sx, sy, tess, dist)));
    ShapeStep(paths, k, sx, sy, tess, dist);
    SplitsMove(done, one, ShapeSegs(paths[k + 1..], sx, sy, tess, dist), all);
    EdgesAppend(base, done, one);
  }

  lemma ShapeEnd(paths: seq<Path>, sx: real, sy: real, tess: real, dist: real)
    requires AllValid(paths)
    ensures ShapeSegs(paths[|paths|..], sx, sy, tess, dist) == []
  {
  }

  lemma EmptyPolygon(points: seq<Point>)
    requires points == []
    ensures PolygonSegs(points) == []
  {
  }

  /** Filled shapes close. */
  lemma {:induction false} ShapesClose(paths: seq<Path>, sx: real, sy: real, tess: real, dist: real)
    requires AllValid(paths)
    ensures Balanced(EdgesOf(ShapeSegs(paths, sx, sy, tess, dist)))
  {
    var segs := ShapeSegs(paths, sx, sy, tess, dist);
    forall h: real
      ensures CrossSum(EdgesOf(segs), h) == 0
    {
      EdgesCrossLikeSegments(segs, h);
      ShapeSegSum(paths, sx, sy, tess, dist, h);
    }
  }

  lemma {:induction false} ShapeSegSum(paths: seq<Path>, sx: real, sy: real, tess: real, dist: real, h: real)
    requires AllValid(paths)
    ensures SegSum(ShapeSegs(paths, sx, sy, tess, dist), h) == 0
  {
    if paths != [] {
      var points := Positions(PathPolygon(paths[0], sx, sy, tess, dist));
      if points != [] {
        ChainTelescopes(points[|points| - 1], points, h);
      }
      SegSumConcat(PolygonSegs(points), ShapeSegs(paths[1..], sx, sy, tess, dist), h);
      ShapeSegSum(paths[1..], sx, sy, tess, dist, h);
    }
  }

  // ---------------------------------------------------------------- strokes

  /** A path point prepared for stroking: segment direction, extrusion and join flags. */
  datatype StrokePoint = StrokePoint(p: Point, d: Point, m: Point, corner: bool, bevel: bool, left: bool)

  /** The two sides of the stroke built so far. */
  datatype Rails = Rails(l: Point, r: Point)

  datatype LineCap = ButtCap | RoundCap | SquareCap

  datatype LineJoin = MiterJoin | RoundJoin | BevelJoin

  /** A turn of a round join: the division count the angle asks for, and the unit vectors
      along the arc. */
  datatype Turn = Turn(n: int, arc: nat -> Point)

  /** Everything about a stroke except its points. */
  datatype Style = Style(join: LineJoin, cap: LineCap, width: real, divs: int,
                         startDir: Point, startLen: real, endDir: Point, capArc: nat -> Point, turns: nat -> Turn)

  /** Divisions per half circle: never fewer than two. */
  function CapDivs(st: Style): (n: nat)
    ensures n >= 2
  {
    if st.divs < 2 then 2 else st.divs
  }

  function Off(p: Point, d: Point, k: real): Point { Point(p.x + d.x * k, p.y + d.y * k) }

  /** The direction turned by a quarter. */
  function Normal(d: Point): Point { Point(d.y, -d.x) }

  function RoundCapPoint(st: Style, p: Point, d: Point, i: nat): Point {
    var w, u := st.width * 0.5, st.capArc(i);
    var ax, ay, n := u.x * w, u.y * w, Normal(d);
    Point(p.x - n.x * ax - d.x * ay, p.y - n.y * ax - d.y * ay)
  }

  function RoundCapLine(st: Style, p: Point, d: Point, i: nat): seq<Point>
    requires i <= CapDivs(st)
    decreases CapDivs(st) - i
  {
    if i == CapDivs(st) then [] else [RoundCapPoint(st, p, d, i)] + RoundCapLine(st, p, d, i + 1)
  }

  lemma {:induction false} RoundCapLineAt(st: Style, p: Point, d: Point, i: nat, k: nat)
    requires i + k < CapDivs(st)
    ensures |RoundCapLine(st, p, d, i)| == CapDivs(st) - i
    ensures RoundCapLine(st, p, d, i)[k] == RoundCapPoint(st, p, d, i + k)
    decreases CapDivs(st) - i
  {
    if i + 1 < CapDivs(st) {
      RoundCapLineAt(st, p, d, i + 1, if k > 0 then k - 1 else 0);
    }
  }

  /** The line drawn around the end of a stroke, from its left to its right. */
  function CapLine(st: Style, p: Point, d: Point): (line: seq<Point>)
    ensures |line| >= 2
  {
    var w, n := st.width * 0.5, Normal(d);
    match st.cap
    case ButtCap => [Off(p, n, -w), Off(p, n, w)]
    case SquareCap => var q := Off(p, d, -w); [Off(q, n, -w), Off(q, n, w)]
    case RoundCap =>
      RoundCapLineAt(st, p, d, 0, 0);
      RoundCapLine(st, p, d, 0)
  }

  function CapRails(line: seq<Point>): Rails
    requires line != []
  {
    Rails(line[0], line[|line| - 1])
  }

  /** The cap line, and the two edges that connect it to the rails. */
  function CapSegs(rails: Rails, line: seq<Point>, connect: bool): seq<Seg>
    requires line != []
  {
    Chain(line[0], line[1..])
    + if connect then [Seg(rails.l, line[0]), Seg(line[|line| - 1], rails.r)] else []
  }

  lemma UnconnectedCap(r: Rails, s: Rails, line: seq<Point>)
    requires line != []
    ensures CapSegs(r, line, false) == CapSegs(s, line, false)
  {
  }

  datatype Joined = Joined(segs: seq<Seg>, rails: Rails)

  /** Corner points of a join: both sides for the incoming and for the outgoing direction. */
  function SideIn(p0: StrokePoint, p1: StrokePoint, k: real): Point { Off(p1.p, Normal(p0.d), k) }

  function SideOut(p1: StrokePoint, k: real): Point { Off(p1.p, Normal(p1.d), k) }

  function Bevel(rails: Rails, p0: StrokePoint, p1: StrokePoint, w: real): Joined {
    var l0, r0 := SideIn(p0, p1, -w), SideIn(p0, p1, w);
    var l1, r1 := SideOut(p1, -w), SideOut(p1, w);
    Joined([Seg(l0, rails.l), Seg(l1, l0), Seg(rails.r, r0), Seg(r0, r1)], Rails(l1, r1))
  }

  function Miter(rails: Rails, p0: StrokePoint, p1: StrokePoint, w: real): Joined {
    if p1.left then
      var l1, r0, r1 := Off(p1.p, p1.m, -w), SideIn(p0, p1, w), SideOut(p1, w);
      Joined([Seg(l1, rails.l), Seg(rails.r, r0), Seg(r0, r1)], Rails(l1, r1))
    else
      var l0, l1, r1 := SideIn(p0, p1, -w), SideOut(p1, -w), Off(p1.p, p1.m, w);
      Joined([Seg(l0, rails.l), Seg(l1, l0), Seg(rails.r, r1)], Rails(l1, r1))
  }

  function Straight(rails: Rails, p1: StrokePoint, w: real): Joined {
    var l, r := Off(p1.p, p1.m, -w), Off(p1.p, p1.m, w);
    Joined([Seg(l, rails.l), Seg(rails.r, r)], Rails(l, r))
  }

  function TurnDivs(raw: int, ncap: nat): int {
    var n := if raw < 2 then 2 else raw;
    if n > ncap then ncap else n
  }

  function RoundFrom(rails: Rails, p: Point, turn: Turn, w: real, i: nat, n: int): Joined
    decreases n - i
  {
    if i >= n then Joined([], rails)
    else
      var u := turn.arc(i);
      var l, r := Off(p, u, -w), Off(p, u, w);
      var rest := RoundFrom(Rails(l, r), p, turn, w, i + 1, n);
      Joined([Seg(l, rails.l), Seg(rails.r, r)] + rest.segs, rest.rails)
  }

  lemma RoundStep(rails: Rails, p: Point, turn: Turn, w: real, i: nat, n: int)
    requires i < n
    ensures var r := Rails(Off(p, turn.arc(i), -w), Off(p, turn.arc(i), w));
            var rest := RoundFrom(r, p, turn, w, i + 1, n);
            RoundFrom(rails, p, turn, w, i, n) == Joined([Seg(r.l, rails.l), Seg(rails.r, r.r)] + rest.segs, rest.rails)
  {
  }

  lemma RoundEnd(rails: Rails, p: Point, turn: Turn, w: real, i: nat, n: int)
    requires i >= n
    ensures RoundFrom(rails, p, turn, w, i, n) == Joined([], rails)
  {
  }

  lemma RoundAdvance(rails: Rails, p: Point, turn: Turn, w: real, i: nat, n: int,
                     base: seq<Edge>, done: seq<Seg>, all: Joined)
    requires i < n
    requires Splits(done, RoundFrom(rails, p, turn, w, i, n).segs, all.segs)
    requires RoundFrom(rails, p, turn, w, i, n).rails == all.rails
    ensures var r := Rails(Off(p, turn.arc(i), -w), Off(p, turn.arc(i), w));
            var one := [Seg(r.l, rails.l), Seg(rails.r, r.r)];
            var rest := RoundFrom(r, p, turn, w, i + 1, n);
            && Splits(done + one, rest.segs, all.segs) && rest.rails == all.rails
            && done + [Seg(r.l, rails.l)] + [Seg(rails.r, r.r)] == done + one
  {
    hide Off, Splits;
    var r := Rails(Off(p, turn.arc(i), -w), Off(p, turn.arc(i), w));
    RoundStep(rails, p, turn, w, i, n);
    SplitsMove(done, [Seg(r.l, rails.l), Seg(rails.r, r.r)], RoundFrom(r, p, turn, w, i + 1, n).segs, all.segs);
  }

  function Join(st: Style, rails: Rails, p0: StrokePoint, p1: StrokePoint, turn: Turn): Joined {
    var w := st.width * 0.5;
    if p1.corner then
      if st.join == RoundJoin then RoundFrom(rails, p1.p, turn, w, 0, TurnDivs(turn.n, CapDivs(st)))
      else if st.join == BevelJoin || p1.bevel then Bevel(rails, p0, p1, w)
      else Miter(rails, p0, p1, w)
    else Straight(rails, p1, w)
  }

  function Prev(i: nat, n: nat): nat { if i == 0 then if n == 0 then 0 else n - 1 else i - 1 }

  /** The joins at points i .. e - 1. */
  function JoinsFrom(st: Style, rails: Rails, points: seq<StrokePoint>, i: nat, e: nat): Joined
    requires e <= |points|
    decreases e - i
  {
    if i >= e then Joined([], rails)
    else
      var one := Join(st, rails, points[Prev(i, |points|)], points[i], st.turns(i));
      var rest := JoinsFrom(st, one.rails, points, i + 1, e);
      Joined(one.segs + rest.segs, rest.rails)
  }

  lemma JoinsStep(st: Style, rails: Rails, points: seq<StrokePoint>, i: nat, e: nat)
    requires i < e <= |points|
    ensures var one := Join(st, rails, points[Prev(i, |points|)], points[i], st.turns(i));
            var rest := JoinsFrom(st, one.rails, points, i + 1, e);
            JoinsFrom(st, rails, points, i, e) == Joined(one.segs + rest.segs, rest.rails)
  {
  }

  /** One more join: the segments done so far grow by those of the join. */
  lemma JoinsAdvance(st: Style, rails: Rails, points: seq<StrokePoint>, i: nat, e: nat,
                     base: seq<Edge>, done: seq<Seg>, all: Joined)
    requires i < e <= |points|
    requires Splits(done, JoinsFrom(st, rails, points, i, e).segs, all.segs)
    requires JoinsFrom(st, rails, points, i, e).rails == all.rails
    ensures var one := Join(st, rails, points[Prev(i, |points|)], points[i], st.turns(i));
            var rest := JoinsFrom(st, one.rails, points, i + 1, e);
            && Splits(done + one.segs, rest.segs, all.segs) && rest.rails == all.rails
            && base + EdgesOf(done) + EdgesOf(one.segs) == base + EdgesOf(done + one.segs)
  {
    hide Join, Splits, EdgesOf;
    var one := Join(st, rails, points[Prev(i, |points|)], points[i], st.turns(i));
    JoinsStep(st, rails, points, i, e);
    SplitsMove(done, one.segs, JoinsFrom(st, one.rails, points, i + 1, e).segs, all.segs);
    EdgesAppend(base, done, one.segs);
  }

  lemma JoinsEnd(st: Style, rails: Rails, points: seq<StrokePoint>, e: nat)
    requires e <= |points|
    ensures JoinsFrom(st, rails, points, e, e) == Joined([], rails)
  {
  }

  /** Start of a closed stroke: both sides of the middle of the segment from p0 to p1. */
  function ClosedStart(st: Style, p0: StrokePoint): Rails {
    var w := st.width * 0.5;
    var q := Off(p0.p, st.startDir, st.startLen * 0.5);
    Rails(Off(q, Normal(st.startDir), -w), Off(q, Normal(st.startDir), w))
  }

  function Neg(d: Point): Point { Point(-d.x, -d.y) }

  /** nsvg__expandStroke. */
  function StrokeSegs(st: Style, points: seq<StrokePoint>, closed: bool): seq<Seg>
    requires if closed then |points| >= 1 else |points| >= 2
  {
    var n := |points|;
    if closed then
      var first := ClosedStart(st, points[n - 1]);
      var run := JoinsFrom(st, first, points, 0, n);
      run.segs + [Seg(first.l, run.rails.l), Seg(run.rails.r, first.r)]
    else
      var line := CapLine(st, points[0].p, st.startDir);
      var run := JoinsFrom(st, CapRails(line), points, 1, n - 1);
      var end := CapLine(st, points[n - 1].p, Neg(st.endDir));
      CapSegs(CapRails(line), line, false) + run.segs
      + CapSegs(Rails(run.rails.r, run.rails.l), end, true)
  }

  // ---------------------------------------------------------------- strokes close

  /** What a join contributes at height h: it moves both rails. */
  ghost predicate MovesRails(j: Joined, rails: Rails, h: real) {
    SegSum(j.segs, h) == At(j.rails.l, h) - At(rails.l, h) + At(rails.r, h) - At(j.rails.r, h)
  }

  lemma {:induction false} RoundMovesRails(rails: Rails, p: Point, turn: Turn, w: real, i: nat, n: int, h: real)
    ensures MovesRails(RoundFrom(rails, p, turn, w, i, n), rails, h)
    decreases n - i
  {
    if i < n {
      var u := turn.arc(i);
      var l, r := Off(p, u, -w), Off(p, u, w);
      var rest := RoundFrom(Rails(l, r), p, turn, w, i + 1, n);
      RoundMovesRails(Rails(l, r), p, turn, w, i + 1, n, h);
      SegSumConcat([Seg(l, rails.l), Seg(rails.r, r)], rest.segs, h);
      SegSumTwo(Seg(l, rails.l), Seg(rails.r, r), h);
    }
  }

  lemma SegSumTwo(s: Seg, t: Seg, h: real)
    ensures SegSum([s, t], h) == At(s.a, h) - At(s.b, h) + At(t.a, h) - At(t.b, h)
  {
    assert [s, t][1..] == [t];
    assert SegSum([t], h) == At(t.a, h) - At(t.b, h);
  }

  lemma SegSumThree(s: Seg, t: Seg, u: Seg, h: real)
    ensures SegSum([s, t, u], h)
         == At(s.a, h) - At(s.b, h) + At(t.a, h) - At(t.b, h) + At(u.a, h) - At(u.b, h)
  {
    assert [s, t, u] == [s] + [t, u];
    SegSumTwo(t, u, h);
  }

  lemma SegSumFour(s: Seg, t: Seg, u: Seg, v: Seg, h: real)
    ensures SegSum([s, t, u, v], h)
         == At(s.a, h) - At(s.b, h) + At(t.a, h) - At(t.b, h)
            + At(u.a, h) - At(u.b, h) + At(v.a, h) - At(v.b, h)
  {
    assert [s, t, u, v] == [s] + [t, u, v];
    SegSumThree(t, u, v, h);
  }

  lemma JoinMovesRails(st: Style, rails: Rails, p0: StrokePoint, p1: StrokePoint, turn: Turn, h: real)
    ensures MovesRails(Join(st, rails, p0, p1, turn), rails, h)
  {
    var j, w := Join(st, rails, p0, p1, turn), st.width * 0.5;
    if !p1.corner {
      SegSumTwo(j.segs[0], j.segs[1], h);
    } else if st.join == RoundJoin {
      RoundMovesRails(rails, p1.p, turn, w, 0, TurnDivs(turn.n, CapDivs(st)), h);
    } else if st.join == BevelJoin || p1.bevel {
      SegSumFour(j.segs[0], j.segs[1], j.segs[2], j.segs[3], h);
    } else {
      SegSumThree(j.segs[0], j.segs[1], j.segs[2], h);
    }
  }

  lemma {:induction false} JoinsMoveRails(st: Style, rails: Rails, points: seq<StrokePoint>, i: nat, e: nat, h: real)
    requires e <= |points|
    ensures MovesRails(JoinsFrom(st, rails, points, i, e), rails, h)
    decreases e - i
  {
    if i < e {
      var p0, p1 := points[Prev(i, |points|)], points[i];
      var one := Join(st, rails, p0, p1, st.turns(i));
      JoinMovesRails(st, rails, p0, p1, st.turns(i), h);
      JoinsMoveRails(st, one.rails, points, i + 1, e, h);
      SegSumConcat(one.segs, JoinsFrom(st, one.rails, points, i + 1, e).segs, h);
    }
  }

  lemma CapSum(rails: Rails, line: seq<Point>, connect: bool, h: real)
    requires line != []
    ensures SegSum(CapSegs(rails, line, connect), h)
         == if connect then At(rails.l, h) - At(rails.r, h)
            else At(CapRails(line).l, h) - At(CapRails(line).r, h)
  {
    ChainTelescopes(line[0], line[1..], h);
    if connect {
      SegSumTwo(Seg(rails.l, line[0]), Seg(line[|line| - 1], rails.r), h);
      SegSumConcat(Chain(line[0], line[1..]), [Seg(rails.l, line[0]), Seg(line[|line| - 1], rails.r)], h);
    } else {
      assert CapSegs(rails, line, connect) == Chain(line[0], line[1..]);
    }
  }

  /** Strokes close: open or closed, with any joins and caps. */
  lemma StrokesClose(st: Style, points: seq<StrokePoint>, closed: bool)
    requires if closed then |points| >= 1 else |points| >= 2
    ensures Balanced(EdgesOf(StrokeSegs(st, points, closed)))
  {
    forall h: real
      ensures CrossSum(EdgesOf(StrokeSegs(st, points, closed)), h) == 0
    {
      EdgesCrossLikeSegments(StrokeSegs(st, points, closed), h);
      if closed {
        ClosedStrokeSum(st, points, h);
      } else {
        OpenStrokeSum(st, points, h);
      }
    }
  }

  lemma ClosedStrokeSum(st: Style, points: seq<StrokePoint>, h: real)
    requires |points| >= 1
    ensures SegSum(StrokeSegs(st, points, true), h) == 0
  {
    var n := |points|;
    var first := ClosedStart(st, points[n - 1]);
    var run := JoinsFrom(st, first, points, 0, n);
    JoinsMoveRails(st, first, points, 0, n, h);
    SegSumTwo(Seg(first.l, run.rails.l), Seg(run.rails.r, first.r), h);
    SegSumConcat(run.segs, [Seg(first.l, run.rails.l), Seg(run.rails.r, first.r)], h);
  }

  lemma OpenStrokeSum(st: Style, points: seq<StrokePoint>, h: real)
    requires |points| >= 2
    ensures SegSum(StrokeSegs(st, points, false), h) == 0
  {
    var n := |points|;
    var line := CapLine(st, points[0].p, st.startDir);
    var run := JoinsFrom(st, CapRails(line), points, 1, n - 1);
    var end := CapLine(st, points[n - 1].p, Neg(st.endDir));
    var flipped := Rails(run.rails.r, run.rails.l);
    var start := CapSegs(CapRails(line), line, false);
    CapSum(CapRails(line), line, false, h);
    JoinsMoveRails(st, CapRails(line), points, 1, n - 1, h);
    CapSum(flipped, end, true, h);
    SegSumConcat(start, run.segs, h);
    SegSumConcat(start + run.segs, CapSegs(flipped, end, true), h);
  }

  // ---------------------------------------------------------------- placement on the bitmap

  /** Translation, and scaling of y to sub-scanlines. */
  function Placed(e: Edge, tx: real, ty: real): Edge {
    Edge(tx + e.x0, (ty + e.y0) * 5.0, tx + e.x1, (ty + e.y1) * 5.0, e.dir)
  }

  function PlacedAll(edges: seq<Edge>, tx: real, ty: real): seq<Edge> {
    if edges == [] then [] else [Placed(edges[0], tx, ty)] + PlacedAll(edges[1..], tx, ty)
  }

  lemma {:induction false} PlacedCrossSum(edges: seq<Edge>, tx: real, ty: real, h: real)
    ensures CrossSum(PlacedAll(edges, tx, ty), h) == CrossSum(edges, h / 5.0 - ty)
  {
    if edges != [] {
      PlacedCrossSum(edges[1..], tx, ty, h);
    }
  }

  lemma PlacementKeepsBalance(edges: seq<Edge>, tx: real, ty: real)
    requires Balanced(edges)
    ensures Balanced(PlacedAll(edges, tx, ty))
  {
    forall h: real
      ensures CrossSum(PlacedAll(edges, tx, ty), h) == 0
    {
      PlacedCrossSum(edges, tx, ty, h);
    }
  }

  lemma {:induction false} PlacementKeepsValid(edges: seq<Edge>, tx: real, ty: real)
    requires forall i :: 0 <= i < |edges| ==> edges[i].Valid()
    ensures |PlacedAll(edges, tx, ty)| == |edges|
    ensures forall i :: 0 <= i < |edges| ==> PlacedAll(edges, tx, ty)[i].Valid()
  {
    if edges != [] {
      PlacementKeepsValid(edges[1..], tx, ty);
    }
  }

  // ---------------------------------------------------------------- sorting

  lemma {:induction false} CrossSumRemove(edges: seq<Edge>, k: nat, h: real)
    requires k < |edges|
    ensures CrossSum(edges, h) == Crossing(edges[k], h) + CrossSum(edges[..k] + edges[k + 1..], h)
  {
    CrossSumConcat(edges[..k], edges[k + 1..], h);
    CrossSumConcat(edges[..k], edges[k..], h);
    assert edges == edges[..k] + edges[k..];
    assert edges[k..][1..] == edges[k + 1..];
  }

  lemma RemoveOne(s: seq<Edge>, t: seq<Edge>, k: nat)
    requires multiset(s) == multiset(t) && s != [] && k < |t| && t[k] == s[0]
    ensures multiset(s[1..]) == multiset(t[..k] + t[k + 1..])
  {
    var a, b := t[..k], t[k + 1..];
    assert s == [s[0]] + s[1..];
    assert t == a + ([t[k]] + b);
    calc {
      multiset(s[1..]);
      multiset(s) - multiset{s[0]};
      multiset(t) - multiset{t[k]};
      multiset(a) + (multiset{t[k]} + multiset(b)) - multiset{t[k]};
      multiset(a) + multiset(b);
      multiset(a + b);
    }
  }

  /** The order of the edge table does not matter to the crossings. */
  lemma {:induction false} CrossSumPermuted(s: seq<Edge>, t: seq<Edge>, h: real)
    requires multiset(s) == multiset(t)
    ensures CrossSum(s, h) == CrossSum(t, h)
    decreases s
  {
    assert |multiset(s)| == |s| && |multiset(t)| == |t|;
    if s != [] {
      assert s[0] in multiset(t);
      var k :| 0 <= k < |t| && t[k] == s[0];
      CrossSumRemove(t, k, h);
      RemoveOne(s, t, k);
      CrossSumPermuted(s[1..], t[..k] + t[k + 1..], h);
    }
  }
}
