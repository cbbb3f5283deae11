/** Where a stroke lies: its caps and joins in coordinates, and the region that a straight line
  covers.
 */
module StrokeShape {
  import opened Bezier
  import opened Outline
  import opened Winding

  function LengthSquare(d: Point): real { d.x * d.x + d.y * d.y }

  /** q lies so many lengths of d from p along d, and so many across; across is positive on the
      side of (d.y, -d.x). */
  predicate Lies(q: Point, p: Point, d: Point, along: real, across: real) {
    && (q.x - p.x) * d.x + (q.y - p.y) * d.y == along * LengthSquare(d)
    && (q.x - p.x) * d.y - (q.y - p.y) * d.x == across * LengthSquare(d)
  }

  /** q lies straight across from p. */
  predicate Beside(q: Point, p: Point, d: Point, k: real) { Lies(q, p, d, 0.0, k) }

  lemma OffNormalIsBeside(p: Point, d: Point, k: real)
    ensures Beside(Off(p, Normal(d), k), p, d, k)
  {
    assert (d.y * k) * d.x + (-d.x * k) * d.y == 0.0;
    assert (d.y * k) * d.y - (-d.x * k) * d.x == k * (d.x * d.x + d.y * d.y);
  }

  /** A point beside p is as far from it as k says. */
  lemma BesideIsFar(q: Point, p: Point, d: Point, k: real)
    requires Beside(q, p, d, k) && LengthSquare(d) > 0.0
    ensures LengthSquare(Minus(q, p)) == k * k * LengthSquare(d)
  {
    var x, y, n := q.x - p.x, q.y - p.y, LengthSquare(d);
    assert (x * x + y * y) * n == (x * d.x + y * d.y) * (x * d.x + y * d.y) + (x * d.y - y * d.x) * (x * d.y - y * d.x);
    assert (x * x + y * y) * n == (k * k * n) * n;
    Cancel(x * x + y * y, k * k * n, n);
  }

  lemma Cancel(a: real, b: real, n: real)
    requires a * n == b * n && n > 0.0
    ensures a == b
  {
    assert (a - b) * n == 0.0;
  }

  // ---------------------------------------------------------------- caps

  /** A butt cap runs across the end point, a square cap half a width beyond it; from the left to
      the right at half a width each. */
  lemma CapEnds(st: Style, p: Point, d: Point)
    requires st.cap != RoundCap
    ensures var line, w := CapLine(st, p, d), st.width / 2.0;
      var q := if st.cap == ButtCap then p else Point(p.x - d.x * w, p.y - d.y * w);
      |line| == 2 && Beside(line[0], q, d, -w) && Beside(line[1], q, d, w)
  {
    var w := st.width / 2.0;
    var q := if st.cap == ButtCap then p else Off(p, d, -w);
    OffNormalIsBeside(q, d, -w);
    OffNormalIsBeside(q, d, w);
    hide Beside, Lies;
  }

  lemma Turned(q: Point, p: Point, d: Point, a: real, b: real)
    requires q.x - p.x == -d.y * a - d.x * b && q.y - p.y == d.x * a - d.y * b
    ensures Lies(q, p, d, -b, -a)
  {
    var x, y := -d.y * a - d.x * b, d.x * a - d.y * b;
    assert x * d.x + y * d.y == -b * LengthSquare(d) && x * d.y - y * d.x == -a * LengthSquare(d);
  }

  lemma RoundCapPointIs(st: Style, p: Point, d: Point, k: nat)
    ensures Lies(RoundCapPoint(st, p, d, k), p, d, -(st.width / 2.0 * st.capArc(k).y), -(st.width / 2.0 * st.capArc(k).x))
  {
    var a, b, q := st.width / 2.0 * st.capArc(k).x, st.width / 2.0 * st.capArc(k).y, RoundCapPoint(st, p, d, k);
    assert st.capArc(k).x * (st.width * 0.5) == a && st.capArc(k).y * (st.width * 0.5) == b;
    assert q.x - p.x == -d.y * a - d.x * b;
    assert q.y - p.y == d.x * a - d.y * b;
    Turned(q, p, d, a, b);
    hide Lies;
  }

  /** The points of a round cap, from the cosines and sines of its arc: half a width for each of
      cosine across from the end point, and for each of sine beyond it. */
  lemma RoundCapPoints(st: Style, p: Point, d: Point, k: nat)
    requires st.cap == RoundCap && k < CapDivs(st)
    ensures var line := CapLine(st, p, d);
      |line| == CapDivs(st) && Lies(line[k], p, d, -(st.width / 2.0 * st.capArc(k).y), -(st.width / 2.0 * st.capArc(k).x))
  {
    RoundCapLineAt(st, p, d, 0, k);
    RoundCapPointIs(st, p, d, k);
    hide Lies, RoundCapPoint, RoundCapLine;
  }

  /** How many points that are. */
  lemma CapDivsIs(st: Style)
    ensures CapDivs(st) == if st.divs >= 3 then st.divs else 2
  {
  }

  // ---------------------------------------------------------------- joins

  /** A bevel leaves the old direction beside the point at half a width on either side, and takes
      up the new one there. */
  lemma BevelCorners(st: Style, rails: Rails, p0: StrokePoint, p1: StrokePoint, turn: Turn)
    returns (l0: Point, r0: Point, l1: Point, r1: Point)
    requires p1.corner && (st.join == BevelJoin || (st.join == MiterJoin && p1.bevel))
    ensures var w := st.width / 2.0;
      && Beside(l0, p1.p, p0.d, -w) && Beside(r0, p1.p, p0.d, w) && Beside(l1, p1.p, p1.d, -w) && Beside(r1, p1.p, p1.d, w)
    ensures Join(st, rails, p0, p1, turn)
         == Joined([Seg(l0, rails.l), Seg(l1, l0), Seg(rails.r, r0), Seg(r0, r1)], Rails(l1, r1))
  {
    var w := st.width / 2.0;
    l0, r0, l1, r1 := SideIn(p0, p1, -w), SideIn(p0, p1, w), SideOut(p1, -w), SideOut(p1, w);
    OffNormalIsBeside(p1.p, p0.d, -w);
    OffNormalIsBeside(p1.p, p0.d, w);
    OffNormalIsBeside(p1.p, p1.d, -w);
    OffNormalIsBeside(p1.p, p1.d, w);
    hide Beside, Lies, Off, Normal;
  }

  /** Half a width of the extrusion from the point, on the left or on the right. */
  function Extruded(p: StrokePoint, w: real): Point {
    Point(p.p.x + w * p.m.x, p.p.y + w * p.m.y)
  }

  lemma OffIsExtruded(p: StrokePoint, k: real)
    ensures Off(p.p, p.m, k) == Extruded(p, k)
  {
  }

  /** A miter bevels the outer side of a turn and meets the extrusion on the other. */
  lemma MiterCorners(st: Style, rails: Rails, p0: StrokePoint, p1: StrokePoint, turn: Turn)
    returns (l0: Point, r0: Point, l1: Point, r1: Point)
    requires p1.corner && st.join == MiterJoin && !p1.bevel
    ensures var w := st.width / 2.0;
      if p1.left then l1 == Extruded(p1, -w) && Beside(r0, p1.p, p0.d, w) && Beside(r1, p1.p, p1.d, w)
      else Beside(l0, p1.p, p0.d, -w) && Beside(l1, p1.p, p1.d, -w) && r1 == Extruded(p1, w)
    ensures Join(st, rails, p0, p1, turn)
         == if p1.left then Joined([Seg(l1, rails.l), Seg(rails.r, r0), Seg(r0, r1)], Rails(l1, r1))
            else Joined([Seg(l0, rails.l), Seg(l1, l0), Seg(rails.r, r1)], Rails(l1, r1))
  {
    var w := st.width / 2.0;
    l0, r0, l1, r1 := SideIn(p0, p1, -w), SideIn(p0, p1, w), SideOut(p1, -w), SideOut(p1, w);
    OffNormalIsBeside(p1.p, p0.d, -w);
    OffNormalIsBeside(p1.p, p0.d, w);
    OffNormalIsBeside(p1.p, p1.d, -w);
    OffNormalIsBeside(p1.p, p1.d, w);
    OffIsExtruded(p1, -w);
    OffIsExtruded(p1, w);
    if p1.left {
      l1 := Extruded(p1, -w);
    } else {
      r1 := Extruded(p1, w);
    }
    hide Beside, Lies, Normal, Off, Extruded;
  }

  /** Where a curve goes on, both sides meet the extrusion. */
  lemma StraightCorners(st: Style, rails: Rails, p0: StrokePoint, p1: StrokePoint, turn: Turn)
    requires !p1.corner
    ensures var l, r := Extruded(p1, -(st.width / 2.0)), Extruded(p1, st.width / 2.0);
      Join(st, rails, p0, p1, turn) == Joined([Seg(l, rails.l), Seg(rails.r, r)], Rails(l, r))
  {
    OffIsExtruded(p1, -(st.width / 2.0));
    OffIsExtruded(p1, st.width / 2.0);
    assert st.width * 0.5 == st.width / 2.0;
    hide Off, Extruded;
  }

  /** The number of steps of a round join: what its angle asks for, at least two, and no more than
      half a circle gets. */
  lemma TurnDivsIs(raw: int, ncap: nat)
    requires ncap >= 2
    ensures var n := TurnDivs(raw, ncap);
      2 <= n <= ncap && (raw >= 2 ==> n <= raw) && (n == raw || n == 2 || n == ncap) && (2 <= raw <= ncap ==> n == raw)
  {
  }

  /** The left and the right vertex of step k. */
  function ArcLeft(p: Point, u: Point, w: real): Point { Point(p.x - w * u.x, p.y - w * u.y) }

  function ArcRight(p: Point, u: Point, w: real): Point { Point(p.x + w * u.x, p.y + w * u.y) }

  /** A round join goes along its arc on both sides, opposite each other at half a width. */
  lemma {:induction false} RoundVertices(rails: Rails, p: Point, turn: Turn, w: real, i: nat, n: nat, k: nat)
    requires i <= k < n
    ensures var j, u := RoundFrom(rails, p, turn, w, i, n), turn.arc(k);
      && |j.segs| == 2 * (n - i) && j.rails == Rails(ArcLeft(p, turn.arc(n - 1), w), ArcRight(p, turn.arc(n - 1), w))
      && j.segs[2 * (k - i)] == Seg(ArcLeft(p, u, w), if k == i then rails.l else ArcLeft(p, turn.arc(k - 1), w))
      && j.segs[2 * (k - i) + 1] == Seg(if k == i then rails.r else ArcRight(p, turn.arc(k - 1), w), ArcRight(p, u, w))
    decreases n - i
  {
    var u := turn.arc(i);
    RoundStep(rails, p, turn, w, i, n);
    assert Off(p, u, -w) == ArcLeft(p, u, w) && Off(p, u, w) == ArcRight(p, u, w);
    var next := Rails(ArcLeft(p, u, w), ArcRight(p, u, w));
    hide RoundFrom, ArcLeft, ArcRight, Off;
    if i + 1 < n {
      RoundVertices(next, p, turn, w, i + 1, n, if k == i then i + 1 else k);
    } else {
      RoundEnd(next, p, turn, w, n, n);
    }
  }

  lemma RoundCorners(st: Style, rails: Rails, p0: StrokePoint, p1: StrokePoint, turn: Turn, k: nat)
    requires p1.corner && st.join == RoundJoin && k < TurnDivs(turn.n, CapDivs(st))
    ensures var j, u, w := Join(st, rails, p0, p1, turn), turn.arc(k), st.width / 2.0;
      && |j.segs| == 2 * TurnDivs(turn.n, CapDivs(st))
      && j.segs[2 * k].a == ArcLeft(p1.p, u, w) && j.segs[2 * k + 1].b == ArcRight(p1.p, u, w)
      && j.segs[2 * k].b == (if k == 0 then rails.l else j.segs[2 * k - 2].a)
      && j.segs[2 * k + 1].a == (if k == 0 then rails.r else j.segs[2 * k - 1].b)
  {
    var n, w := TurnDivs(turn.n, CapDivs(st)), st.width / 2.0;
    RoundVertices(rails, p1.p, turn, w, 0, n, k);
    if k > 0 {
      RoundVertices(rails, p1.p, turn, w, 0, n, k - 1);
    }
    hide RoundFrom, ArcLeft, ArcRight, TurnDivs, CapDivs;
  }

  /** Join after join: each starts from the rails that the one before has left, and turns from the
      direction of the point before. */
  lemma {:induction false} EachJoinIsDone(st: Style, rails: Rails, points: seq<StrokePoint>, i: nat, k: nat, e: nat)
    requires i <= k < e <= |points|
    ensures var before := JoinsFrom(st, rails, points, i, k);
      var one := Join(st, before.rails, if k > 0 then points[k - 1] else points[|points| - 1], points[k], st.turns(k));
      var after := JoinsFrom(st, one.rails, points, k + 1, e);
      JoinsFrom(st, rails, points, i, e) == Joined(before.segs + one.segs + after.segs, after.rails)
    decreases k - i
  {
    hide Join, JoinsFrom, Prev;
    PrevIs(k, |points|);
    PrevIs(i, |points|);
    if i < k {
      var first := Join(st, rails, points[Prev(i, |points|)], points[i], st.turns(i));
      JoinsStep(st, rails, points, i, e);
      JoinsStep(st, rails, points, i, k);
      EachJoinIsDone(st, first.rails, points, i + 1, k, e);
      var before := JoinsFrom(st, first.rails, points, i + 1, k);
      var one := Join(st, before.rails, points[k - 1], points[k], st.turns(k));
      FourParts(first.segs, before.segs, one.segs, JoinsFrom(st, one.rails, points, k + 1, e).segs);
    } else {
      JoinsStep(st, rails, points, k, e);
      JoinsEnd(st, rails, points, k);
      NoPart(Join(st, rails, points[Prev(k, |points|)], points[k], st.turns(k)).segs);
    }
  }

  lemma PrevIs(k: nat, n: nat)
    requires k < n
    ensures Prev(k, n) == if k > 0 then k - 1 else n - 1
  {
  }

  lemma FourParts(a: seq<Seg>, b: seq<Seg>, c: seq<Seg>, d: seq<Seg>)
    ensures a + (b + c + d) == (a + b) + c + d
  {
  }

  lemma NoPart(a: seq<Seg>)
    ensures [] + a == a
  {
  }

  /** A closed stroke starts beside the middle of its last segment. */
  lemma ClosedStartIsBeside(st: Style, p0: StrokePoint, p1: Point)
    requires p1 == Point(p0.p.x + st.startLen * st.startDir.x, p0.p.y + st.startLen * st.startDir.y)
    ensures var q, w, r := Mid(p0.p, p1), st.width / 2.0, ClosedStart(st, p0);
      Beside(r.l, q, st.startDir, -w) && Beside(r.r, q, st.startDir, w)
  {
    var q := Off(p0.p, st.startDir, st.startLen * 0.5);
    assert q == Mid(p0.p, p1);
    OffNormalIsBeside(q, st.startDir, -(st.width * 0.5));
    OffNormalIsBeside(q, st.startDir, st.width * 0.5);
    hide Beside, Lies;
  }

  // ---------------------------------------------------------------- a straight line

  /** How far the caps of a straight line reach beyond its ends. */
  function Reach(st: Style): real { if st.cap == SquareCap then st.width / 2.0 else 0.0 }

  /** One corner of the line's outline, and its two sides from there: across, and along. */
  function Corner(st: Style, p: Point, d: Point): Point {
    var w, r := st.width / 2.0, Reach(st);
    Point(p.x - Share(r, d.x) - Share(w, d.y), p.y - Share(r, d.y) + Share(w, d.x))
  }

  function Across(st: Style, d: Point): Point { Point(Share(st.width, d.y), -Share(st.width, d.x)) }

  function Along(st: Style, d: Point, len: real): Point {
    Point(Share(len + 2.0 * Reach(st), d.x), Share(len + 2.0 * Reach(st), d.y))
  }

  lemma OffIs(p: Point, d: Point, k: real)
    ensures Off(p, d, k) == Point(p.x + Share(k, d.x), p.y + Share(k, d.y))
    ensures Off(p, Normal(d), k) == Point(p.x + Share(k, d.y), p.y - Share(k, d.x))
  {
  }

  lemma ShareAdds(a: real, b: real, c: real)
    ensures Share(a + b, c) == Share(a, c) + Share(b, c)
    ensures Share(-a, c) == -Share(a, c) == Share(a, -c) && Share(0.0, c) == 0.0
    ensures Share(2.0 * a, c) == 2.0 * Share(a, c)
  {
  }

  lemma CapCorners(st: Style, p: Point, d: Point)
    requires st.cap != RoundCap
    ensures CapLine(st, p, d) == [Corner(st, p, d), Plus(Corner(st, p, d), Across(st, d))]
  {
    var w := st.width / 2.0;
    assert st.width * 0.5 == w;
    var q := if st.cap == ButtCap then p else Off(p, d, -w);
    OffIs(p, d, -w);
    OffIs(q, d, -w);
    OffIs(q, d, w);
    ShareAdds(w, w, d.x);
    ShareAdds(w, w, d.y);
    hide Share, Off, Normal;
  }

  /** The cap at the other end, which looks back. */
  lemma FarCorners(st: Style, p: Point, q: Point, d: Point, len: real)
    requires q == Point(p.x + Share(len, d.x), p.y + Share(len, d.y))
    ensures var a, e, f := Corner(st, p, d), Across(st, d), Along(st, d, len);
      Corner(st, q, Neg(d)) == Plus(Plus(a, e), f) && Plus(Corner(st, q, Neg(d)), Across(st, Neg(d))) == Plus(a, f)
  {
    var w, r := st.width / 2.0, Reach(st);
    assert st.width == w + w;
    ShareAdds(len, 2.0 * r, d.x);
    ShareAdds(len, 2.0 * r, d.y);
    ShareAdds(r, r, d.x);
    ShareAdds(r, r, d.y);
    ShareAdds(w, w, d.x);
    ShareAdds(w, w, d.y);
    ShareAdds(st.width, 0.0, d.x);
    ShareAdds(st.width, 0.0, d.y);
    hide Share, Reach;
  }

  lemma LineSegs(st: Style, s0: StrokePoint, s1: StrokePoint, len: real)
    requires st.cap != RoundCap && st.endDir == st.startDir
    requires s1.p == Point(s0.p.x + Share(len, st.startDir.x), s0.p.y + Share(len, st.startDir.y))
    ensures var a, e, f := Corner(st, s0.p, st.startDir), Across(st, st.startDir), Along(st, st.startDir, len);
      var b, c, d := Plus(a, e), Plus(Plus(a, e), f), Plus(a, f);
      StrokeSegs(st, [s0, s1], false) == [Seg(a, b), Seg(c, d), Seg(b, c), Seg(d, a)]
  {
    var d, points := st.startDir, [s0, s1];
    CapCorners(st, s0.p, d);
    CapCorners(st, s1.p, Neg(d));
    FarCorners(st, s0.p, s1.p, d, len);
    hide Corner, Across, Along, Plus, CapLine, Neg, Share, Join, SegSum;
    var line, end := CapLine(st, s0.p, d), CapLine(st, s1.p, Neg(d));
    JoinsEnd(st, CapRails(line), points, 1);
    assert line[1..] == [line[1]] && end[1..] == [end[1]];
    OneSeg(line[0], line[1]);
    OneSeg(end[0], end[1]);
  }

  lemma OneSeg(p: Point, q: Point)
    ensures Chain(p, [q]) == [Seg(p, q)]
  {
    assert [q][1..] == [];
  }

  function AlongOf(p: Point, o: Point, d: Point): real { Share(d.x, p.x - o.x) + Share(d.y, p.y - o.y) }

  function AcrossOf(p: Point, o: Point, d: Point): real { Share(d.y, p.x - o.x) - Share(d.x, p.y - o.y) }

  /** Seen from the corner, a point is a share of the way across and a share of the way along. */
  lemma PointOfLine(st: Style, o: Point, d: Point, len: real, p: Point)
    requires st.width > 0.0 && len > 0.0 && d.x * d.x + d.y * d.y == 1.0
    ensures p == Combined(Corner(st, o, d), Across(st, d), Along(st, d, len),
              (AcrossOf(p, o, d) + st.width / 2.0) / st.width, (AlongOf(p, o, d) + Reach(st)) / (len + 2.0 * Reach(st)))
  {
    var w, r, across, along := st.width / 2.0, Reach(st), AcrossOf(p, o, d), AlongOf(p, o, d);
    var l := len + 2.0 * r;
    Unscale(across + w, st.width, d.x);
    Unscale(across + w, st.width, d.y);
    Unscale(along + r, l, d.x);
    Unscale(along + r, l, d.y);
    Back(p, o, d);
    ShareAdds(across, w, d.x);
    ShareAdds(across, w, d.y);
    ShareAdds(along, r, d.x);
    ShareAdds(along, r, d.y);
    hide Share, Reach, AcrossOf, AlongOf;
  }

  lemma Unscale(a: real, b: real, c: real)
    requires b > 0.0
    ensures Share(a / b, Share(b, c)) == Share(a, c) && Share(a / b, -Share(b, c)) == -Share(a, c)
  {
    var q := a / b;
    assert q * b == a;
    assert q * (b * c) == (q * b) * c;
    ShareAdds(q, 0.0, b * c);
  }

  /** A vector is what it has along a unit vector and across. */
  lemma Back(p: Point, o: Point, d: Point)
    requires d.x * d.x + d.y * d.y == 1.0
    ensures Share(AlongOf(p, o, d), d.x) + Share(AcrossOf(p, o, d), d.y) == p.x - o.x
    ensures Share(AlongOf(p, o, d), d.y) - Share(AcrossOf(p, o, d), d.x) == p.y - o.y
  {
    var x, y := p.x - o.x, p.y - o.y;
    assert (x * d.x + y * d.y) * d.x + (x * d.y - y * d.x) * d.y == x * (d.x * d.x + d.y * d.y);
    assert (x * d.x + y * d.y) * d.y - (x * d.y - y * d.x) * d.x == y * (d.x * d.x + d.y * d.y);
  }

  lemma SidesTurn(st: Style, d: Point, len: real)
    requires st.width > 0.0 && len > 0.0 && d.x * d.x + d.y * d.y == 1.0
    ensures Cross(Across(st, d), Along(st, d, len)) > 0.0
  {
    var w, l := st.width, len + 2.0 * Reach(st);
    assert (w * d.y) * (l * d.y) - (-(w * d.x)) * (l * d.x) == (w * l) * (d.x * d.x + d.y * d.y);
    ProductSign(w, l);
  }

  lemma ShareBounds(a: real, b: real)
    requires b > 0.0
    ensures (0.0 < a / b <==> 0.0 < a) && (a / b < 1.0 <==> a < b)
    ensures (a / b < 0.0 <==> a < 0.0) && (1.0 < a / b <==> b < a)
  {
    var q := a / b;
    assert q * b == a;
    ProductSign(q, b);
    ProductSign(q - 1.0, b);
    assert (q - 1.0) * b == a - b;
  }

  lemma LineCovers(st: Style, s0: StrokePoint, s1: StrokePoint, len: real, p: Point)
    requires st.cap != RoundCap && st.width > 0.0 && len > 0.0
    requires st.endDir == st.startDir && st.startDir.x * st.startDir.x + st.startDir.y * st.startDir.y == 1.0
    requires s1.p == Point(s0.p.x + Share(len, st.startDir.x), s0.p.y + Share(len, st.startDir.y))
    ensures var along, across := AlongOf(p, s0.p, st.startDir), AcrossOf(p, s0.p, st.startDir);
      var w, r, n := st.width / 2.0, Reach(st), SegsWinding(StrokeSegs(st, [s0, s1], false), p);
      && (-r < along < len + r && -w < across < w ==> n == -1)
      && (along < -r || along > len + r || across < -w || across > w ==> n == 0)
  {
    var d, w := st.startDir, st.width / 2.0;
    var a, e, f, l := Corner(st, s0.p, d), Across(st, d), Along(st, d, len), len + 2.0 * Reach(st);
    var across, along := AcrossOf(p, s0.p, d), AlongOf(p, s0.p, d);
    var s, t := (across + w) / st.width, (along + Reach(st)) / l;
    LineSegs(st, s0, s1, len);
    FourWindings(Seg(a, Plus(a, e)), Seg(Plus(Plus(a, e), f), Plus(a, f)), Seg(Plus(a, e), Plus(Plus(a, e), f)), Seg(Plus(a, f), a), p);
    PointOfLine(st, s0.p, d, len, p);
    SidesTurn(st, d, len);
    ParallelogramWinds(a, e, f, s, t);
    ShareBounds(across + w, st.width);
    ShareBounds(along + Reach(st), l);
    hide Share, Corner, Across, Along, Plus, StrokeSegs, SegWinding, SegsWinding, Combined, Cross, AcrossOf, AlongOf;
  }

  /** Within half a width of a line from o, and between its ends or what its caps add to them. */
  predicate InStrip(st: Style, o: Point, len: real, p: Point) {
    var x, y, d, w := p.x - o.x, p.y - o.y, st.startDir, st.width / 2.0;
    var beyond := if st.cap == SquareCap then w else 0.0;
    -beyond < x * d.x + y * d.y < len + beyond && -w < x * d.y - y * d.x < w
  }

  /** Neither there nor on its border. */
  predicate OffStrip(st: Style, o: Point, len: real, p: Point) {
    var x, y, d, w := p.x - o.x, p.y - o.y, st.startDir, st.width / 2.0;
    var beyond := if st.cap == SquareCap then w else 0.0;
    var along, across := x * d.x + y * d.y, x * d.y - y * d.x;
    along < -beyond || along > len + beyond || across < -w || across > w
  }

  lemma StripIs(st: Style, o: Point, len: real, p: Point)
    ensures var along, across, w, r := AlongOf(p, o, st.startDir), AcrossOf(p, o, st.startDir), st.width / 2.0, Reach(st);
      && (InStrip(st, o, len, p) <==> -r < along < len + r && -w < across < w)
      && (OffStrip(st, o, len, p) <==> along < -r || along > len + r || across < -w || across > w)
  {
    var x, y, d := p.x - o.x, p.y - o.y, st.startDir;
    assert AlongOf(p, o, d) == x * d.x + y * d.y;
    assert AcrossOf(p, o, d) == x * d.y - y * d.x;
    hide AlongOf, AcrossOf;
  }

  /** A straight line with butt or square caps covers exactly the points within half a width of it,
      between its ends, or half a width beyond them with square caps. */
  lemma LineCoversItsStrip(st: Style, s0: StrokePoint, s1: StrokePoint, len: real, p: Point)
    requires st.cap != RoundCap && st.width > 0.0 && len > 0.0
    requires st.endDir == st.startDir && st.startDir.x * st.startDir.x + st.startDir.y * st.startDir.y == 1.0
    requires s1.p == Point(s0.p.x + len * st.startDir.x, s0.p.y + len * st.startDir.y)
    ensures var n := WindingOf(EdgesOf(StrokeSegs(st, [s0, s1], false)), p);
      (InStrip(st, s0.p, len, p) ==> n == -1) && (OffStrip(st, s0.p, len, p) ==> n == 0)
  {
    LineCovers(st, s0, s1, len, p);
    EdgesWindLikeSegments(StrokeSegs(st, [s0, s1], false), p);
    StripIs(st, s0.p, len, p);
    hide StrokeSegs, EdgesOf, WindingOf, SegsWinding, AlongOf, AcrossOf, InStrip, OffStrip;
  }

  lemma FourWindings(s: Seg, t: Seg, u: Seg, v: Seg, p: Point)
    ensures SegsWinding([s, t, u, v], p) == SegWinding(s, p) + SegWinding(t, p) + SegWinding(u, p) + SegWinding(v, p)
  {
    OneMore(s, [t, u, v], p);
    OneMore(t, [u, v], p);
    OneMore(u, [v], p);
    OneMore(v, [], p);
    assert [s] + [t, u, v] == [s, t, u, v] && [t] + [u, v] == [t, u, v] && [u] + [v] == [u, v] && [v] + [] == [v];
    hide SegWinding;
  }

  lemma OneMore(s: Seg, rest: seq<Seg>, p: Point)
    ensures SegsWinding([s] + rest, p) == SegWinding(s, p) + SegsWinding(rest, p)
  {
    hide SegWinding;
  }
}
