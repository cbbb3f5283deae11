/** The rasteriser object: points and edges under construction, the coverage of one row, and
  the loops that fill them and draw into a bitmap. */
module Rasterizer {
  import opened Bytes
  import opened Bezier
  import opened Coverage
  import opened Outline
  import opened Sweep
  import Blend
  import Gradient

  class Rasterizer {
    const tessTol: real := 0.25
    const distTol: real := 0.01
    var points: seq<PathPoint>
    var edges: seq<Edge>
    var scanline: array<byte>

    constructor (width: nat)
      ensures points == [] && edges == [] && fresh(scanline) && scanline.Length == width
    {
      points, edges := [], [];
      scanline := new byte[width](_ => 0);
    }

    // ---------------------------------------------------------------- edges and points

    /** nsvg__addEdge.  `base` and `done` name the edges before the current outline part and the
        segments of that part added so far. */
    method AddEdge(s: Seg, ghost base: seq<Edge>, ghost done: seq<Seg>)
      requires edges == base + EdgesOf(done)
      modifies `edges
      ensures edges == base + EdgesOf(done + [s])
    {
      EdgesOfConcat(done, [s]);
      assert EdgesOf([s]) == EdgeOf(s);
      if s.a.y == s.b.y {
        return;
      }
      if s.a.y < s.b.y {
        edges := edges + [Edge(s.a.x, s.a.y, s.b.x, s.b.y, 1)];
      } else {
        edges := edges + [Edge(s.b.x, s.b.y, s.a.x, s.a.y, -1)];
      }
    }

    /** nsvg__addPathPoint. */
    method AddPathPoint(p: Point, corner: bool)
      modifies `points
      ensures points == AddPoint(old(points), PathPoint(p, corner), distTol)
    {
      var n := |points|;
      if n > 0 {
        var last := points[n - 1];
        if Close(last.p, p, distTol) {
          points := points[n - 1 := PathPoint(last.p, last.corner || corner)];
          return;
        }
      }
      points := points + [PathPoint(p, corner)];
    }

    /** nsvg__flattenCubicBez: the recursion emits the points of FlatPath, in order. */
    method FlattenCubicBez(c: Cubic, level: nat, corner: bool)
      requires level <= MAX_LEVEL
      modifies `points
      ensures points == AddPoints(old(points), FlatPath(c, tessTol, level, corner), distTol)
      decreases MAX_LEVEL - level
    {
      hide IsFlat, Mid;
      var p12, p23, p34 := Mid(c.p1, c.p2), Mid(c.p2, c.p3), Mid(c.p3, c.p4);
      var p123 := Mid(p12, p23);
      if IsFlat(c, tessTol) {
        AddPathPoint(c.p4, corner);
        return;
      }
      if level + 1 > MAX_LEVEL {
        return;
      }
      var p234 := Mid(p23, p34);
      var p1234 := Mid(p123, p234);
      ghost var l := FlatPath(LeftHalf(c), tessTol, level + 1, false);
      ghost var r := FlatPath(RightHalf(c), tessTol, level + 1, corner);
      AddPointsConcat(points, l, r, distTol);
      FlattenCubicBez(Cubic(c.p1, p12, p123, p1234), level + 1, false);
      FlattenCubicBez(Cubic(p1234, p234, p34, c.p4), level + 1, corner);
    }

    /** The edges of one closed polygon, the last point joined to the first. */
    method BuildEdges()
      modifies `edges
      ensures edges == old(edges) + EdgesOf(PolygonSegs(Positions(points)))
    {
      ghost var ps, base := Positions(points), edges;
      ghost var all := PolygonSegs(ps);
      ghost var done: seq<Seg> := [];
      assert EdgesOf([]) == [];
      SplitsStart(all);
      assert points != [] ==> all == Chain(ps[|ps| - 1], ps[0..]);
      hide EdgesOf, Chain, PolygonSegs, Splits;
      var i, j := 0, |points| - 1;
      while i < |points|
        invariant 0 <= i <= |points| && j == if i == 0 then |points| - 1 else i - 1
        invariant edges == base + EdgesOf(done)
        invariant if points == [] then done == [] else Splits(done, Chain(ps[j], ps[i..]), all)
      {
        ChainStep(ps[j], ps, i);
        SplitsMove(done, [Seg(ps[j], ps[i])], Chain(ps[i], ps[i + 1..]), all);
        AddEdge(Seg(points[j].p, points[i].p), base, done);
        done := done + [Seg(ps[j], ps[i])];
        j := i;
        i := i + 1;
      }
      if points != [] {
        ChainEnd(ps[j], ps);
        SplitsEnd(done, all);
      } else {
        EmptyPolygon(ps);
      }
    }

    /** nsvg__flattenShape. */
    method FlattenShape(paths: seq<Path>, sx: real, sy: real)
      requires AllValid(paths)
      modifies this
      ensures edges == old(edges) + EdgesOf(ShapeSegs(paths, sx, sy, 0.25, 0.01))
      ensures scanline == old(scanline)
    {
      ghost var base, all := edges, ShapeSegs(paths, sx, sy, tessTol, distTol);
      ghost var done: seq<Seg> := [];
      assert EdgesOf([]) == [];
      SplitsStart(all);
      assert paths[0..] == paths;
      hide EdgesOf, ShapeSegs, PathPolygon, PolygonSegs, Positions, Splits;
      var k := 0;
      while k < |paths|
        invariant 0 <= k <= |paths| && scanline == old(scanline)
        invariant edges == base + EdgesOf(done)
        invariant Splits(done, ShapeSegs(paths[k..], sx, sy, tessTol, distTol), all)
      {
        ShapeAdvance(paths, k, sx, sy, tessTol, distTol, base, done, all);
        FlattenPath(paths[k], sx, sy);
        BuildEdges();
        done := done + PolygonSegs(Positions(points));
        k := k + 1;
      }
      ShapeEnd(paths, sx, sy, tessTol, distTol);
      SplitsEnd(done, all);
    }

    method FlattenPath(path: Path, sx: real, sy: real)
      requires path.Valid()
      modifies `points
      ensures points == PathPolygon(path, sx, sy, 0.25, 0.01)
    {
      hide FlatPath;
      points := [];
      var pts := path.pts;
      AddPathPoint(Scaled(pts[0], sx, sy), false);
      ghost var start := points;
      var i := 0;
      ghost var k := 0;
      while i < |pts| - 1
        invariant i == 3 * k && 0 <= k <= Curves(pts) && |pts| == 3 * Curves(pts) + 1
        invariant CurvePoints(points, pts, k, sx, sy, tessTol, distTol, false)
               == CurvePoints(start, pts, 0, sx, sy, tessTol, distTol, false)
      {
        FlattenCubicBez(Cubic(Scaled(pts[i], sx, sy), Scaled(pts[i + 1], sx, sy),
                              Scaled(pts[i + 2], sx, sy), Scaled(pts[i + 3], sx, sy)), 0, false);
        i := i + 3;
        k := k + 1;
      }
      AddPathPoint(Scaled(pts[0], sx, sy), false);
    }

    // ---------------------------------------------------------------- strokes

    /** nsvg__buttCap, nsvg__squareCap and nsvg__roundCap. */
    method AddCap(st: Style, rails: Rails, p: Point, d: Point, connect: bool) returns (r: Rails)
      modifies `edges
      ensures edges == old(edges) + EdgesOf(CapSegs(rails, CapLine(st, p, d), connect))
      ensures r == CapRails(CapLine(st, p, d))
    {
      assert EdgesOf([]) == [];
      hide EdgesOf, Off;
      ghost var base, line := edges, CapLine(st, p, d);
      ghost var done: seq<Seg> := [];
      if st.cap == RoundCap {
        r := AddArc(st, p, d);
        done := Chain(line[0], line[1..]);
      } else {
        var w, n := st.width * 0.5, Normal(d);
        var q := if st.cap == SquareCap then Off(p, d, -w) else p;
        r := Rails(Off(q, n, -w), Off(q, n, w));
        AddEdge(Seg(r.l, r.r), base, []);
        done := [Seg(r.l, r.r)];
        assert line[1..] == [line[1]];
        assert Chain(line[1], []) == [];
        assert Chain(line[0], line[1..]) == done;
      }
      if connect {
        AddEdge(Seg(rails.l, r.l), base, done);
        AddEdge(Seg(r.r, rails.r), base, done + [Seg(rails.l, r.l)]);
        assert done + [Seg(rails.l, r.l)] + [Seg(r.r, rails.r)] == CapSegs(rails, line, connect);
      } else {
        assert CapSegs(rails, line, connect) == done;
      }
    }

    /** The loop of nsvg__roundCap. */
    method AddArc(st: Style, p: Point, d: Point) returns (r: Rails)
      requires st.cap == RoundCap
      modifies `edges
      ensures edges == old(edges) + EdgesOf(Chain(CapLine(st, p, d)[0], CapLine(st, p, d)[1..]))
      ensures r == CapRails(CapLine(st, p, d))
    {
      assert EdgesOf([]) == [];
      hide EdgesOf, RoundCapPoint;
      var ncap, prev, i := CapDivs(st), Point(0.0, 0.0), 0;
      r := Rails(Point(0.0, 0.0), Point(0.0, 0.0));
      ghost var base, line := edges, RoundCapLine(st, p, d, 0);
      ghost var done: seq<Seg> := [];
      RoundCapLineAt(st, p, d, 0, 0);
      while i < ncap
        invariant 0 <= i <= ncap && |line| == ncap
        invariant edges == base + EdgesOf(done)
        invariant if i == 0 then done == []
                  else prev == line[i - 1] && done + Chain(prev, line[i..]) == Chain(line[0], line[1..])
        invariant i > 0 ==> r.l == line[0]
        invariant i == ncap ==> r.r == line[ncap - 1]
      {
        var q := RoundCapPoint(st, p, d, i);
        RoundCapLineAt(st, p, d, 0, i);
        if i > 0 {
          assert line[i..][1..] == line[i + 1..];
          AddEdge(Seg(prev, q), base, done);
          done := done + [Seg(prev, q)];
        }
        prev := q;
        if i == 0 {
          r := Rails(q, r.r);
        } else if i == ncap - 1 {
          r := Rails(r.l, q);
        }
        i := i + 1;
      }
      assert Chain(prev, []) == [];
      assert done == Chain(line[0], line[1..]);
    }

    /** nsvg__bevelJoin. */
    method AddBevel(rails: Rails, p0: StrokePoint, p1: StrokePoint, w: real) returns (r: Rails)
      modifies `edges
      ensures edges == old(edges) + EdgesOf(Bevel(rails, p0, p1, w).segs) && r == Bevel(rails, p0, p1, w).rails
    {
      ghost var base, s := edges, Bevel(rails, p0, p1, w).segs;
      var l0, r0 := SideIn(p0, p1, -w), SideIn(p0, p1, w);
      var l1, r1 := SideOut(p1, -w), SideOut(p1, w);
      AddEdge(Seg(l0, rails.l), base, s[..0]);
      AddEdge(Seg(l1, l0), base, s[..1]);
      assert s[..1] + [s[1]] == s[..2];
      AddEdge(Seg(rails.r, r0), base, s[..2]);
      assert s[..2] + [s[2]] == s[..3];
      AddEdge(Seg(r0, r1), base, s[..3]);
      assert s[..3] + [s[3]] == s;
      r := Rails(l1, r1);
    }

    /** nsvg__miterJoin. */
    method AddMiter(rails: Rails, p0: StrokePoint, p1: StrokePoint, w: real) returns (r: Rails)
      modifies `edges
      ensures edges == old(edges) + EdgesOf(Miter(rails, p0, p1, w).segs) && r == Miter(rails, p0, p1, w).rails
    {
      ghost var base, s := edges, Miter(rails, p0, p1, w).segs;
      if p1.left {
        var l1 := Off(p1.p, p1.m, -w);
        AddEdge(Seg(l1, rails.l), base, s[..0]);
        var r0, r1 := SideIn(p0, p1, w), SideOut(p1, w);
        AddEdge(Seg(rails.r, r0), base, s[..1]);
        assert s[..1] + [s[1]] == s[..2];
        AddEdge(Seg(r0, r1), base, s[..2]);
        assert s[..2] + [s[2]] == s;
        r := Rails(l1, r1);
      } else {
        var l0, l1 := SideIn(p0, p1, -w), SideOut(p1, -w);
        AddEdge(Seg(l0, rails.l), base, s[..0]);
        AddEdge(Seg(l1, l0), base, s[..1]);
        assert s[..1] + [s[1]] == s[..2];
        var r1 := Off(p1.p, p1.m, w);
        AddEdge(Seg(rails.r, r1), base, s[..2]);
        assert s[..2] + [s[2]] == s;
        r := Rails(l1, r1);
      }
    }

    /** nsvg__straightJoin. */
    method AddStraight(rails: Rails, p1: StrokePoint, w: real) returns (r: Rails)
      modifies `edges
      ensures edges == old(edges) + EdgesOf(Straight(rails, p1, w).segs) && r == Straight(rails, p1, w).rails
    {
      ghost var base, s := edges, Straight(rails, p1, w).segs;
      r := Rails(Off(p1.p, p1.m, -w), Off(p1.p, p1.m, w));
      AddEdge(Seg(r.l, rails.l), base, s[..0]);
      AddEdge(Seg(rails.r, r.r), base, s[..1]);
      assert s[..1] + [s[1]] == s;
    }

    /** nsvg__roundJoin. */
    method AddRound(rails: Rails, p: Point, turn: Turn, w: real, ncap: nat) returns (r: Rails)
      modifies `edges
      ensures var j := RoundFrom(rails, p, turn, w, 0, TurnDivs(turn.n, ncap));
              edges == old(edges) + EdgesOf(j.segs) && r == j.rails
    {
      ghost var base, all := edges, RoundFrom(rails, p, turn, w, 0, TurnDivs(turn.n, ncap));
      ghost var done: seq<Seg> := [];
      assert EdgesOf([]) == [];
      SplitsStart(all.segs);
      var n := turn.n;
      if n < 2 {
        n := 2;
      }
      if n > ncap {
        n := ncap;
      }
      hide EdgesOf, RoundFrom, Splits, Off;
      var i := 0;
      r := rails;
      while i < n
        invariant 0 <= i && (i <= n || n <= 0)
        invariant edges == base + EdgesOf(done)
        invariant Splits(done, RoundFrom(r, p, turn, w, i, n).segs, all.segs)
        invariant RoundFrom(r, p, turn, w, i, n).rails == all.rails
      {
        var u := turn.arc(i);
        var l1, r1 := Off(p, u, -w), Off(p, u, w);
        ghost var one := [Seg(l1, r.l), Seg(r.r, r1)];
        RoundAdvance(r, p, turn, w, i, n, base, done, all);
        AddEdge(Seg(l1, r.l), base, done);
        AddEdge(Seg(r.r, r1), base, done + [Seg(l1, r.l)]);
        done := done + one;
        r := Rails(l1, r1);
        i := i + 1;
      }
      RoundEnd(r, p, turn, w, i, n);
      SplitsEnd(done, all.segs);
    }

    method AddJoin(st: Style, rails: Rails, p0: StrokePoint, p1: StrokePoint, turn: Turn) returns (r: Rails)
      modifies `edges
      ensures edges == old(edges) + EdgesOf(Join(st, rails, p0, p1, turn).segs)
      ensures r == Join(st, rails, p0, p1, turn).rails
    {
      var w := st.width * 0.5;
      if p1.corner {
        if st.join == RoundJoin {
          r := AddRound(rails, p1.p, turn, w, CapDivs(st));
        } else if st.join == BevelJoin || p1.bevel {
          r := AddBevel(rails, p0, p1, w);
        } else {
          r := AddMiter(rails, p0, p1, w);
        }
      } else {
        r := AddStraight(rails, p1, w);
      }
    }

    /** The join loop of nsvg__expandStroke: points s .. e - 1, p0 trailing p1. */
    method AddJoins(st: Style, rails: Rails, ps: seq<StrokePoint>, s: nat, e: nat) returns (r: Rails)
      requires s <= e <= |ps|
      modifies `edges
      ensures edges == old(edges) + EdgesOf(JoinsFrom(st, rails, ps, s, e).segs)
      ensures r == JoinsFrom(st, rails, ps, s, e).rails
    {
      ghost var base, all := edges, JoinsFrom(st, rails, ps, s, e);
      ghost var done: seq<Seg> := [];
      assert EdgesOf([]) == [];
      SplitsStart(all.segs);
      hide EdgesOf, Join, JoinsFrom, Splits;
      var p0, j := Prev(s, |ps|), s;
      r := rails;
      while j < e
        invariant s <= j <= e && (j < e ==> p0 == Prev(j, |ps|))
        invariant edges == base + EdgesOf(done)
        invariant Splits(done, JoinsFrom(st, r, ps, j, e).segs, all.segs)
        invariant JoinsFrom(st, r, ps, j, e).rails == all.rails
      {
        ghost var one := Join(st, r, ps[p0], ps[j], st.turns(j));
        JoinsAdvance(st, r, ps, j, e, base, done, all);
        r := AddJoin(st, r, ps[p0], ps[j], st.turns(j));
        done := done + one.segs;
        p0 := j;
        j := j + 1;
      }
      JoinsEnd(st, r, ps, e);
      SplitsEnd(done, all.segs);
    }

    /** nsvg__expandStroke. */
    method ExpandStroke(st: Style, ps: seq<StrokePoint>, closed: bool)
      requires if closed then |ps| >= 1 else |ps| >= 2
      modifies `edges
      ensures edges == old(edges) + EdgesOf(StrokeSegs(st, ps, closed))
    {
      hide EdgesOf, JoinsFrom, CapLine, CapSegs;
      var n := |ps|;
      ghost var base := edges;
      if closed {
        var first := ClosedStart(st, ps[n - 1]);
        ghost var run := JoinsFrom(st, first, ps, 0, n).segs;
        var r := AddJoins(st, first, ps, 0, n);
        AddEdge(Seg(first.l, r.l), base, run);
        AddEdge(Seg(r.r, first.r), base, run + [Seg(first.l, r.l)]);
        assert run + [Seg(first.l, r.l)] + [Seg(r.r, first.r)] == StrokeSegs(st, ps, closed);
      } else {
        var zero := Rails(Point(0.0, 0.0), Point(0.0, 0.0));
        var r := AddCap(st, zero, ps[0].p, st.startDir, false);
        ghost var line := CapLine(st, ps[0].p, st.startDir);
        ghost var start := CapSegs(zero, line, false);
        ghost var run := JoinsFrom(st, r, ps, 1, n - 1).segs;
        r := AddJoins(st, r, ps, 1, n - 1);
        var flipped := Rails(r.r, r.l);
        r := AddCap(st, flipped, ps[n - 1].p, Neg(st.endDir), true);
        ghost var end := CapSegs(flipped, CapLine(st, ps[n - 1].p, Neg(st.endDir)), true);
        EdgesAppend(base, start, run);
        EdgesAppend(base, start + run, end);
        UnconnectedCap(zero, CapRails(line), line);
      }
    }

    /** Scaling and translating the finished edges in place. */
    method PlaceEdges(tx: real, ty: real)
      modifies `edges
      ensures edges == PlacedAll(old(edges), tx, ty)
    {
      var i := 0;
      ghost var was := edges;
      while i < |edges|
        invariant 0 <= i <= |edges| == |was|
        invariant edges[..i] + PlacedAll(edges[i..], tx, ty) == PlacedAll(was, tx, ty)
        invariant edges[i..] == was[i..]
      {
        var e := edges[i];
        assert edges[i..][1..] == edges[i + 1..];
        ghost var before := edges;
        edges := edges[i := Edge(tx + e.x0, (ty + e.y0) * 5.0, tx + e.x1, (ty + e.y1) * 5.0, e.dir)];
        assert edges[..i + 1] == before[..i] + [Placed(e, tx, ty)];
        assert edges[i + 1..] == before[i + 1..];
        i := i + 1;
      }
    }

    // ---------------------------------------------------------------- drawing

    method ClearRow(width: nat)
      requires width <= scanline.Length
      modifies scanline
      ensures forall p :: 0 <= p < width ==> scanline[p] == 0
    {
      var k := 0;
      while k < width
        invariant 0 <= k <= width
        invariant forall p :: 0 <= p < k ==> scanline[p] == 0
      {
        scanline[k] := 0;
        k := k + 1;
      }
    }

    /** The five sub-scanlines of row y: updates the sweep state and fills the coverage row.
        The window [xmin, xmax] contains every covered pixel. */
    method CoverRow(y: nat, width: nat, rule: FillRule, s0: State) returns (t: State, xmin: int, xmax: int)
      requires Table(edges) && width <= scanline.Length
      requires s0 == StateAfter(edges, y * SUBSAMPLES)
      modifies scanline
      ensures t == StateAfter(edges, (y + 1) * SUBSAMPLES)
      ensures forall p :: 0 <= p < width ==> scanline[p] == RowCover(edges, rule, y, p)
      ensures forall p :: 0 <= p < width && RowCover(edges, rule, y, p) > 0 ==> xmin <= p <= xmax
    {
      hide StateAfter, RowDrawn, RowCover;
      ClearRow(width);
      t, xmin, xmax := s0, width, 0;
      RowCleared(scanline[..], width, edges, rule, y, xmin, xmax);
      var s := 0;
      while s < SUBSAMPLES
        invariant 0 <= s <= SUBSAMPLES
        invariant t == StateAfter(edges, y * SUBSAMPLES + s)
        invariant RowDrawn(scanline[..], width, edges, rule, y, s, xmin, xmax)
      {
        t := UpdateActive(y * SUBSAMPLES + s, t);
        xmin, xmax := FillLine(y, s, width, rule, t.active, xmin, xmax);
        s := s + 1;
      }
      RowComplete(scanline[..], width, edges, rule, y, xmin, xmax);
    }

    /** The updates of sub-scanline n: advance, re-sort, insert. */
    method UpdateActive(n: nat, t0: State) returns (t: State)
      requires Table(edges) && t0 == StateAfter(edges, n)
      ensures t == StateAfter(edges, n + 1)
    {
      StateStep(edges, n);
      hide StateAfter, InsertRange, StableSort, Advance, StartedFrom;
      var scany := n as real + 0.5;
      var l := AdvanceList(t0.active, scany);
      l := Resort(l);
      var e;
      l, e := InsertStarted(edges, l, t0.next, scany);
      t := State(l, e);
    }

    /** Drawing sub-scanline s of row y. */
    method FillLine(y: nat, s: nat, width: nat, rule: FillRule, l: seq<ActiveEdge>, lo: int, hi: int)
      returns (xmin: int, xmax: int)
      requires Table(edges) && s < SUBSAMPLES && l == ActiveAt(edges, y * SUBSAMPLES + s)
      requires RowDrawn(scanline[..], width, edges, rule, y, s, lo, hi) && width <= scanline.Length
      modifies scanline
      ensures RowDrawn(scanline[..], width, edges, rule, y, s + 1, xmin, xmax)
    {
      ActiveDirections(edges, y * SUBSAMPLES + s);
      hide ActiveAt, RowDrawn, TotalAdded, Spans, WindowMin, WindowMax, UnitDirs, DirSum, CrossSum;
      ghost var was := scanline[..];
      xmin, xmax := lo, hi;
      if l != [] {
        var w;
        xmin, xmax, w := FillActiveEdges(scanline, width, l, MAX_WEIGHT, lo, hi, rule);
      } else {
        NothingDrawn(rule, l, lo, hi);
        forall p | 0 <= p < width
          ensures TotalAdded(Spans(rule, l), p, MAX_WEIGHT) == 0
        {
          NothingAdded(rule, l, p);
        }
      }
      RowAdvance(was, scanline[..], width, edges, rule, y, s, lo, hi);
    }

    /** nsvg__rasterizeSortedEdges: every pixel of the bitmap is blended with its paint colour
        by its coverage, although only the dirty window of each row is touched. */
    method RasterizeSortedEdges(bitmap: array2<Gradient.Rgba>, cache: Blend.CachedPaint, v: Blend.View, rule: FillRule)
      requires Table(edges) && v.Valid() && cache.colors.Length == 256
      requires bitmap.Length1 <= scanline.Length
      modifies scanline, bitmap
      ensures forall j, i :: 0 <= j < bitmap.Length0 && 0 <= i < bitmap.Length1 ==>
                bitmap[j, i] == Blend.Over(old(bitmap[j, i]),
                                           Blend.PaintAt(cache.kind, cache.xform, cache.colors[..], v, i, j),
                                           RowCover(edges, rule, j, i))
    {
      hide StateAfter, RowCover, Table, Blend.PaintAt, Blend.Over;
      var t := State([], 0);
      var y := 0;
      StateStep(edges, 0);
      while y < bitmap.Length0
        invariant 0 <= y <= bitmap.Length0
        invariant t == StateAfter(edges, y * SUBSAMPLES)
        invariant forall j, i :: 0 <= j < bitmap.Length0 && 0 <= i < bitmap.Length1 ==>
                    bitmap[j, i] ==
                      if j < y then Blend.Over(old(bitmap[j, i]),
                                               Blend.PaintAt(cache.kind, cache.xform, cache.colors[..], v, i, j),
                                               RowCover(edges, rule, j, i))
                      else old(bitmap[j, i])
      {
        var xmin, xmax;
        t, xmin, xmax := CoverRow(y, bitmap.Length1, rule, t);
        BlitRow(bitmap, y, xmin, xmax, cache, v);
        y := y + 1;
      }
    }

    /** One fill or stroke: initialise the paint, then rasterise the table. */
    method DrawLayer(bitmap: array2<Gradient.Rgba>, layer: Layer, v: Blend.View)
      requires layer.Valid() && v.Valid() && bitmap.Length1 <= scanline.Length
      modifies `edges, scanline, bitmap
      ensures forall y, x :: 0 <= y < bitmap.Length0 && 0 <= x < bitmap.Length1 ==>
                bitmap[y, x] == LayerOver(layer, v, old(bitmap[y, x]), x, y)
    {
      hide RowCover, Blend.Over, Blend.IndexAt, Gradient.RampColor;
      edges := layer.table;
      var cache := new Blend.CachedPaint();
      match layer.paint {
        case PlainPaint(c) =>
          cache.InitColor(c, layer.opacity);
          SolidIndex(v);
        case GradientPaint(kind, t, stops) =>
          cache.InitGradient(kind, t, stops, layer.opacity);
      }
      RasterizeSortedEdges(bitmap, cache, v, layer.rule);
    }

    /** The drawing part of nsvgRasterizeFull: clear, then draw the layers in order. */
    method Render(bitmap: array2<Gradient.Rgba>, layers: seq<Layer>, v: Blend.View)
      requires v.Valid() && bitmap.Length1 <= scanline.Length
      requires forall k :: 0 <= k < |layers| ==> layers[k].Valid()
      modifies `edges, scanline, bitmap
      ensures forall y, x :: 0 <= y < bitmap.Length0 && 0 <= x < bitmap.Length1 ==>
                bitmap[y, x] == Blend.DrawAll(PixelDraws(layers, v, x, y)) && Blend.Premultiplied(bitmap[y, x])
    {
      forall y, x | 0 <= y < bitmap.Length0 && 0 <= x < bitmap.Length1 {
        bitmap[y, x] := Gradient.Rgba(0, 0, 0, 0);
      }
      var k := 0;
      assert layers[..0] == [];
      while k < |layers|
        invariant 0 <= k <= |layers|
        invariant forall y, x :: 0 <= y < bitmap.Length0 && 0 <= x < bitmap.Length1 ==>
                    bitmap[y, x] == Blend.DrawAll(PixelDraws(layers[..k], v, x, y))
      {
        hide LayerOver, PixelDraws, Blend.DrawAll;
        DrawLayer(bitmap, layers[k], v);
        forall y, x | 0 <= y < bitmap.Length0 && 0 <= x < bitmap.Length1
          ensures bitmap[y, x] == Blend.DrawAll(PixelDraws(layers[..k + 1], v, x, y))
        {
          DrawLast(layers, v, x, y, k);
        }
        k := k + 1;
      }
      assert layers[..|layers|] == layers;
      forall y, x | 0 <= y < bitmap.Length0 && 0 <= x < bitmap.Length1
        ensures Blend.Premultiplied(bitmap[y, x])
      {
        Blend.DrawnPixelsArePremultiplied(PixelDraws(layers, v, x, y));
      }
    }

    /** nsvgRasterizeFull, from the sorted edge tables on: draw, convert to straight alpha, and
        colour the invisible pixels. */
    method RasterizeFull(bitmap: array2<Gradient.Rgba>, layers: seq<Layer>, v: Blend.View)
      requires v.Valid() && bitmap.Length1 <= scanline.Length
      requires forall k :: 0 <= k < |layers| ==> layers[k].Valid()
      modifies `edges, scanline, bitmap
      ensures var rows := Picture(layers, v, bitmap.Length0, bitmap.Length1);
        forall y, x :: 0 <= y < bitmap.Length0 && 0 <= x < bitmap.Length1 ==>
          bitmap[y, x] == Blend.Defringed(rows, bitmap.Length1, y, x)
      ensures forall y, x :: 0 <= y < bitmap.Length0 && 0 <= x < bitmap.Length1 ==>
                var p := Blend.DrawAll(PixelDraws(layers, v, x, y));
                Blend.Premultiplied(p) && (p.a != 0 ==> bitmap[y, x] == Blend.Straight(p)) && bitmap[y, x].a == p.a
    {
      hide PixelDraws, Blend.DrawAll, Blend.Defringed, Blend.Straight;
      Render(bitmap, layers, v);
      Blend.Unpremultiply(bitmap);
      ghost var rows := Picture(layers, v, bitmap.Length0, bitmap.Length1);
      assert forall y, x :: 0 <= y < bitmap.Length0 && 0 <= x < bitmap.Length1 ==> rows[y][x] == StraightAt(layers, v, x, y);
      ghost var straight := Blend.Rows(bitmap);
      assert forall y :: 0 <= y < |rows| ==> straight[y] == rows[y];
      assert straight == rows;
      forall y, x | 0 <= y < bitmap.Length0 && 0 <= x < bitmap.Length1
        ensures Blend.Defringed(rows, bitmap.Length1, y, x).a == rows[y][x].a
        ensures rows[y][x].a != 0 ==> Blend.Defringed(rows, bitmap.Length1, y, x) == rows[y][x]
      {
        Blend.DefringedKeepsVisible(rows, bitmap.Length1, y, x);
      }
      Blend.Defringe(bitmap);
    }

    /** Clipping the dirty window to the bitmap, and blending it. */
    method BlitRow(bitmap: array2<Gradient.Rgba>, y: nat, lo: int, hi: int, cache: Blend.CachedPaint, v: Blend.View)
      requires y < bitmap.Length0 && bitmap.Length1 <= scanline.Length && v.Valid() && cache.colors.Length == 256
      requires forall p :: 0 <= p < bitmap.Length1 && scanline[p] > 0 ==> lo <= p <= hi
      modifies bitmap
      ensures forall j, i :: 0 <= j < bitmap.Length0 && 0 <= i < bitmap.Length1 ==>
                bitmap[j, i] ==
                  if j == y then Blend.Over(old(bitmap[j, i]),
                                            Blend.PaintAt(cache.kind, cache.xform, cache.colors[..], v, i, y), scanline[i])
                  else old(bitmap[j, i])
    {
      hide Blend.PaintAt, Blend.Over;
      var xmin, xmax := lo, hi;
      if xmin < 0 {
        xmin := 0;
      }
      if xmax > bitmap.Length1 - 1 {
        xmax := bitmap.Length1 - 1;
      }
      forall i | 0 <= i < bitmap.Length1
        ensures Blend.Over(bitmap[y, i], Blend.PaintAt(cache.kind, cache.xform, cache.colors[..], v, i, y), 0) == bitmap[y, i]
      {
        Blend.OverExtremes(bitmap[y, i], Blend.PaintAt(cache.kind, cache.xform, cache.colors[..], v, i, y));
      }
      if xmin <= xmax {
        Blend.ScanlineSolid(bitmap, scanline, xmin, y, xmax - xmin + 1, cache, v);
      }
    }
  }

  // ---------------------------------------------------------------- from outlines to closed spans

  /** A closed outline stays closed all the way to the spans: whatever order the sort gives the
      placed edges, on every sub-scanline the walk ends with no open span, and the columns it
      draws are exactly the columns inside. */
  lemma OutlineIsFilledExactly(segs: seq<Seg>, tx: real, ty: real, table: seq<Edge>, rule: FillRule, n: nat,
                               lo: int, hi: int)
    requires Balanced(EdgesOf(segs))
    requires Table(table) && multiset(table) == multiset(PlacedAll(EdgesOf(segs), tx, ty))
    requires lo <= hi
    ensures Final(rule, 0, ActiveAt(table, n)) == 0
    ensures TotalOverlap(Spans(rule, ActiveAt(table, n)), lo, hi) == CountInside(rule, ActiveAt(table, n), lo, hi)
  {
    hide EdgesOf, PlacedAll, ActiveAt, Spans, TotalOverlap, CountInside;
    PlacementKeepsBalance(EdgesOf(segs), tx, ty);
    FillsClose(PlacedAll(EdgesOf(segs), tx, ty), table, rule, n);
    ActiveDirections(table, n);
    DrawnLengthIsInsideCount(rule, ActiveAt(table, n), lo, hi);
  }

  lemma FilledShapesFillExactly(paths: seq<Path>, sx: real, sy: real, tess: real, dist: real, tx: real, ty: real,
                                table: seq<Edge>, rule: FillRule, n: nat, lo: int, hi: int)
    requires AllValid(paths) && Table(table) && lo <= hi
    requires multiset(table) == multiset(PlacedAll(EdgesOf(ShapeSegs(paths, sx, sy, tess, dist)), tx, ty))
    ensures Final(rule, 0, ActiveAt(table, n)) == 0
    ensures TotalOverlap(Spans(rule, ActiveAt(table, n)), lo, hi) == CountInside(rule, ActiveAt(table, n), lo, hi)
  {
    ShapesClose(paths, sx, sy, tess, dist);
    hide EdgesOf, PlacedAll, ActiveAt, Spans, TotalOverlap, CountInside, ShapeSegs;
    OutlineIsFilledExactly(ShapeSegs(paths, sx, sy, tess, dist), tx, ty, table, rule, n, lo, hi);
  }

  lemma StrokesFillExactly(st: Style, points: seq<StrokePoint>, closed: bool, tx: real, ty: real,
                           table: seq<Edge>, rule: FillRule, n: nat, lo: int, hi: int)
    requires (if closed then |points| >= 1 else |points| >= 2) && Table(table) && lo <= hi
    requires multiset(table) == multiset(PlacedAll(EdgesOf(StrokeSegs(st, points, closed)), tx, ty))
    ensures Final(rule, 0, ActiveAt(table, n)) == 0
    ensures TotalOverlap(Spans(rule, ActiveAt(table, n)), lo, hi) == CountInside(rule, ActiveAt(table, n), lo, hi)
  {
    StrokesClose(st, points, closed);
    hide EdgesOf, PlacedAll, ActiveAt, Spans, TotalOverlap, CountInside, StrokeSegs;
    OutlineIsFilledExactly(StrokeSegs(st, points, closed), tx, ty, table, rule, n, lo, hi);
  }

  // ---------------------------------------------------------------- whole images

  datatype Paint = PlainPaint(color: Gradient.Rgba)
                 | GradientPaint(kind: Blend.PaintKind, xform: Blend.Xform, stops: seq<Gradient.Stop>)

  /** One fill or stroke of an image: its sorted edge table, its paint and its fill rule. */
  datatype Layer = Layer(table: seq<Edge>, paint: Paint, opacity: real, rule: FillRule) {
    ghost predicate Valid() {
      && Table(table)
      && (paint.GradientPaint? ==> paint.kind != Blend.Solid && |paint.stops| >= 2 && Gradient.SortedByOffset(paint.stops))
    }
  }

  /** The layer's colour at pixel (x, y). */
  function LayerColor(layer: Layer, v: Blend.View, x: int, y: int): Gradient.Rgba
    requires layer.Valid() && v.Valid()
  {
    match layer.paint
    case PlainPaint(c) => Gradient.ApplyOpacity(c, layer.opacity)
    case GradientPaint(kind, t, stops) =>
      Gradient.RampColor(stops, layer.opacity, Blend.IndexAt(kind, t, Blend.UserX(v, x), Blend.UserY(v, y)))
  }

  function LayerOver(layer: Layer, v: Blend.View, p: Gradient.Rgba, x: int, y: nat): Gradient.Rgba
    requires layer.Valid() && v.Valid()
  {
    Blend.Over(p, LayerColor(layer, v, x, y), RowCover(layer.table, layer.rule, y, x))
  }

  /** The draws that reach pixel (x, y), in order. */
  function PixelDraws(layers: seq<Layer>, v: Blend.View, x: int, y: nat): (draws: seq<(Gradient.Rgba, byte)>)
    requires v.Valid() && forall k :: 0 <= k < |layers| ==> layers[k].Valid()
    ensures |draws| == |layers|
  {
    if layers == [] then []
    else
      var last := layers[|layers| - 1];
      PixelDraws(layers[..|layers| - 1], v, x, y)
      + [(LayerColor(last, v, x, y), RowCover(last.table, last.rule, y, x))]
  }

  /** A pixel is drawn by the layers in their order, each with its own colour and cover there. */
  lemma {:induction false} DrawsInOrder(layers: seq<Layer>, v: Blend.View, x: int, y: nat, k: nat)
    requires v.Valid() && (forall i :: 0 <= i < |layers| ==> layers[i].Valid()) && k < |layers|
    ensures PixelDraws(layers, v, x, y)[k] == (LayerColor(layers[k], v, x, y), RowCover(layers[k].table, layers[k].rule, y, x))
    decreases |layers|
  {
    hide LayerColor, RowCover;
    if k < |layers| - 1 {
      DrawsInOrder(layers[..|layers| - 1], v, x, y, k);
    }
  }

  /** The drawn pixel in straight alpha. */
  ghost function StraightAt(layers: seq<Layer>, v: Blend.View, x: int, y: nat): (p: Gradient.Rgba)
    requires v.Valid() && forall k :: 0 <= k < |layers| ==> layers[k].Valid()
    ensures var drawn := Blend.DrawAll(PixelDraws(layers, v, x, y));
      Blend.Premultiplied(drawn) && p == Blend.Straight(drawn)
  {
    Blend.DrawnPixelsArePremultiplied(PixelDraws(layers, v, x, y));
    Blend.Straight(Blend.DrawAll(PixelDraws(layers, v, x, y)))
  }

  /** The picture in straight alpha, before its invisible pixels are coloured. */
  ghost function Picture(layers: seq<Layer>, v: Blend.View, h: nat, w: nat): (rows: seq<seq<Gradient.Rgba>>)
    requires v.Valid() && forall k :: 0 <= k < |layers| ==> layers[k].Valid()
    ensures |rows| == h && Blend.Rectangle(rows, w)
  {
    seq(h, y requires 0 <= y < h => seq(w, x requires 0 <= x < w => StraightAt(layers, v, x, y)))
  }

  lemma DrawLast(layers: seq<Layer>, v: Blend.View, x: int, y: nat, k: nat)
    requires v.Valid() && (forall i :: 0 <= i < |layers| ==> layers[i].Valid()) && k < |layers|
    ensures Blend.DrawAll(PixelDraws(layers[..k + 1], v, x, y))
         == LayerOver(layers[k], v, Blend.DrawAll(PixelDraws(layers[..k], v, x, y)), x, y)
  {
    hide LayerColor, RowCover, Blend.Over;
    var draws := PixelDraws(layers[..k + 1], v, x, y);
    assert layers[..k + 1][..k] == layers[..k];
    assert draws[..k] == PixelDraws(layers[..k], v, x, y);
  }

  lemma SolidIndex(v: Blend.View)
    requires v.Valid()
    ensures forall t: Blend.Xform, fx: real, fy: real :: Blend.IndexAt(Blend.Solid, t, fx, fy) == 0
  {
  }

  lemma NothingDrawn(rule: FillRule, l: seq<ActiveEdge>, lo: int, hi: int)
    requires l == []
    ensures WindowMin(Spans(rule, l), lo) == lo && WindowMax(Spans(rule, l), hi) == hi
  {
  }

  lemma NothingAdded(rule: FillRule, l: seq<ActiveEdge>, p: int)
    requires l == []
    ensures TotalAdded(Spans(rule, l), p, MAX_WEIGHT) == 0
  {
  }
}
