/** What the sweep takes for inside, compared with how often the edges wind around a point.

  Column q of sub-scanline n stands for the point (q / 1024, n + 1/2).
 */
module Columns {
  import opened Bezier
  import opened Coverage
  import opened Outline
  import opened StrokeShape
  import opened Sweep
  import opened Winding

  /** The directions on a list up to column q. */
  function DirsUpTo(l: seq<ActiveEdge>, q: int): int {
    if l == [] then 0 else (if l[0].x <= q then l[0].dir else 0) + DirsUpTo(l[1..], q)
  }

  /** The level of the walk is their sum, or whether that is odd. */
  lemma {:induction false} LevelIsSum(rule: FillRule, w: int, l: seq<ActiveEdge>, q: int)
    requires UnitDirs(l) && (rule.EvenOdd? ==> w == 0 || w == 1)
    ensures Level(rule, w, l, q) == if rule.NonZero? then w + DirsUpTo(l, q) else (w + DirsUpTo(l, q)) % 2
    decreases l
  {
    if l != [] {
      LevelIsSum(rule, if l[0].x <= q then Step(rule, w, l[0].dir) else w, l[1..], q);
    }
  }

  /** The same for the entries of table indices below k. */
  function DirsBelowUpTo(l: seq<ActiveEdge>, k: nat, q: int): int {
    if l == [] then 0 else (if l[0].src < k && l[0].x <= q then l[0].dir else 0) + DirsBelowUpTo(l[1..], k, q)
  }

  lemma {:induction false} UpToStep(l: seq<ActiveEdge>, k: nat, i: int, q: int)
    requires Distinct(l)
    requires if 0 <= i < |l| then l[i].src == k else forall j :: 0 <= j < |l| ==> l[j].src != k
    ensures DirsBelowUpTo(l, k + 1, q) == DirsBelowUpTo(l, k, q) + if 0 <= i < |l| && l[i].x <= q then l[i].dir else 0
  {
    if l != [] {
      if i == 0 {
        assert forall j :: 0 <= j < |l[1..]| ==> l[1..][j].src != k;
        UpToStep(l[1..], k, -1, q);
      } else if 0 <= i < |l| {
        UpToStep(l[1..], k, i - 1, q);
      } else {
        UpToStep(l[1..], k, -1, q);
      }
    }
  }

  lemma {:induction false} UpToAll(l: seq<ActiveEdge>, k: nat, q: int)
    ensures (forall i :: 0 <= i < |l| ==> l[i].src < k) ==> DirsBelowUpTo(l, k, q) == DirsUpTo(l, q)
    ensures DirsBelowUpTo(l, 0, q) == 0
  {
    if l != [] {
      UpToAll(l[1..], k, q);
    }
  }

  /** How far the fixed-point steps may have drifted. */
  function Drift(e: Edge, n: nat): real { (n - FirstLine(e) + 1) as real / 2.0 * (e.y1 - e.y0) }

  /** The line of the edge is farther from the column than that. */
  predicate ClearOf(e: Edge, n: nat, q: int) {
    Away(e, q, n as real + 0.5) > Drift(e, n) || Away(e, q, n as real + 0.5) < -Drift(e, n)
  }

  lemma EntryDrifts(e: Edge, src: nat, n: nat)
    requires e.Valid() && FirstLine(e) <= n
    ensures -Drift(e, n) <= Away(e, Entry(e, src, n).x, n as real + 0.5) <= Drift(e, n)
  {
    EntryIsNearLine(e, src, n);
    hide Entry, FirstLine, Away;
  }

  predicate Clear(edges: seq<Edge>, n: nat, q: int) {
    forall k :: 0 <= k < |edges| && edges[k].y0 <= n as real + 0.5 < edges[k].y1 ==> ClearOf(edges[k], n, q)
  }

  function Spot(n: nat, q: int): Point { Point(q as real / 1024.0, n as real + 0.5) }

  lemma AwayOrders(e: Edge, x: int, q: int, h: real)
    requires e.Valid()
    ensures x <= q <==> Away(e, x, h) <= Away(e, q, h)
  {
    var dy := e.y1 - e.y0;
    assert Away(e, q, h) - Away(e, x, h) == (q - x) as real * dy;
    hide Away;
  }

  lemma WindingByAway(e: Edge, n: nat, q: int)
    requires e.Valid() && e.y0 <= n as real + 0.5 < e.y1
    ensures EdgeWinding(e, Spot(n, q)) == if Away(e, q, n as real + 0.5) >= 0.0 then e.dir else 0
  {
    var dx, dy, h := e.x1 - e.x0, e.y1 - e.y0, n as real + 0.5;
    assert Away(e, q, h) == 1024.0 * ((q as real / 1024.0 - e.x0) * dy - dx * (h - e.y0));
    hide Away;
  }

  lemma EntryIsOnItsSide(e: Edge, src: nat, n: nat, q: int)
    requires e.Valid() && FirstLine(e) <= n && Live(e, n) && ClearOf(e, n, q)
    ensures (if Entry(e, src, n).x <= q then e.dir else 0) == EdgeWinding(e, Spot(n, q))
  {
    EntryDrifts(e, src, n);
    AwayOrders(e, Entry(e, src, n).x, q, n as real + 0.5);
    WindingByAway(e, n, q);
    hide Entry, FirstLine, Away, EdgeWinding, Drift;
  }

  lemma UpToOne(edges: seq<Edge>, l: seq<ActiveEdge>, next: nat, n: nat, k: nat, q: int)
    requires Table(edges) && next <= |edges| && Exact(edges, l, next, n) && k < |edges| && Clear(edges, n, q)
    ensures DirsBelowUpTo(l, k + 1, q) == DirsBelowUpTo(l, k, q) + EdgeWinding(edges[k], Spot(n, q))
  {
    hide Entry, FirstLine, ClearOf, EdgeWinding, Drift, SortedByX, DirsBelowUpTo;
    var e := edges[k];
    if Live(e, n) {
      assert Has(l, k);
      var i :| 0 <= i < |l| && l[i].src == k;
      UpToStep(l, k, i, q);
      EntryIsOnItsSide(e, k, n, q);
      EntryDir(e, k, n);
    } else {
      UpToStep(l, k, -1, q);
      NotLive(e, n, q);
    }
  }

  lemma {:induction false} UpToIsWinding(edges: seq<Edge>, l: seq<ActiveEdge>, next: nat, n: nat, k: nat, q: int)
    requires Table(edges) && next <= |edges| && Exact(edges, l, next, n) && k <= |edges| && Clear(edges, n, q)
    ensures DirsBelowUpTo(l, k, q) == WindingOf(edges[..k], Spot(n, q))
  {
    hide EdgeWinding, Exact, Clear, Table, Spot, DirsBelowUpTo;
    if k == 0 {
      UpToAll(l, 0, q);
    } else {
      UpToIsWinding(edges, l, next, n, k - 1, q);
      UpToOne(edges, l, next, n, k - 1, q);
      assert edges[..k] == edges[..k - 1] + [edges[k - 1]];
      WindingConcat(edges[..k - 1], [edges[k - 1]], Spot(n, q));
      OneEdge(edges[k - 1], Spot(n, q));
    }
  }

  lemma OneEdge(e: Edge, p: Point)
    ensures WindingOf([e], p) == EdgeWinding(e, p)
  {
    assert [e][1..] == [];
    hide EdgeWinding;
  }

  lemma EntryDir(e: Edge, src: nat, n: nat)
    requires e.Valid() && FirstLine(e) <= n
    ensures Entry(e, src, n).dir == e.dir
  {
    hide FirstLine, StartX, StepX;
  }

  lemma NotLive(e: Edge, n: nat, q: int)
    requires !Live(e, n)
    ensures EdgeWinding(e, Spot(n, q)) == 0
  {
  }

  /** The fill rules, for a point around which the outline winds so often. */
  predicate Fills(rule: FillRule, winding: int) {
    match rule
    case NonZero => winding != 0
    case EvenOdd => winding % 2 != 0
  }

  /** Away from the lines of the live edges, the sweep takes a column for inside exactly when the
      fill rule does so for the point. */
  lemma InsideIffWound(edges: seq<Edge>, rule: FillRule, n: nat, q: int)
    requires Table(edges) && Clear(edges, n, q)
    ensures Inside(rule, ActiveAt(edges, n), q) <==> Fills(rule, WindingOf(edges, Spot(n, q)))
  {
    var l := ActiveAt(edges, n);
    ActiveDirections(edges, n);
    DirsAreWinding(edges, n, q);
    LevelIsSum(rule, 0, l, q);
    hide ActiveAt, WindingOf, Clear, Level, Table, SortedByX, UnitDirs;
  }

  lemma DirsAreWinding(edges: seq<Edge>, n: nat, q: int)
    requires Table(edges) && Clear(edges, n, q)
    ensures DirsUpTo(ActiveAt(edges, n), q) == WindingOf(edges, Spot(n, q))
  {
    var l, next := ActiveAt(edges, n), StateAfter(edges, n + 1).next;
    SweepIsExact(edges, n);
    UpToIsWinding(edges, l, next, n, |edges|, q);
    SourcesAreBelow(edges, l, next, n);
    UpToAll(l, |edges|, q);
    assert edges[..|edges|] == edges;
    hide WindingOf, Clear, Exact, Table, StateAfter, DirsUpTo, DirsBelowUpTo, Spot;
  }

  lemma SourcesAreBelow(edges: seq<Edge>, l: seq<ActiveEdge>, next: nat, n: nat)
    requires Table(edges) && next <= |edges| && Exact(edges, l, next, n)
    ensures forall i :: 0 <= i < |l| ==> l[i].src < |edges|
  {
    hide Entry, FirstLine, SortedByX;
  }

  lemma DrawnIffInside(edges: seq<Edge>, table: seq<Edge>, rule: FillRule, n: nat, q: int)
    requires Balanced(edges) && Table(table) && multiset(table) == multiset(edges)
    ensures Coverage.Covers(Spans(rule, ActiveAt(table, n)), q) == if Inside(rule, ActiveAt(table, n), q) then 1 else 0
  {
    ActiveDirections(table, n);
    FillsClose(edges, table, rule, n);
    SpansAreInside(rule, 0, 0, ActiveAt(table, n), q);
    hide ActiveAt, Level, Table, Balanced, SortedByX, UnitDirs, SpansFrom, Coverage.Covers;
  }

  /** The point of the outline that column q of sub-scanline n shows: 1024 columns make a pixel
      wide, five sub-scanlines one high. */
  function Shown(tx: real, ty: real, n: nat, q: int): Point {
    Point(q as real / 1024.0 - tx, (n as real + 0.5) / 5.0 - ty)
  }

  lemma PlacedWindsAt(outline: seq<Edge>, tx: real, ty: real, table: seq<Edge>, n: nat, q: int)
    requires multiset(table) == multiset(PlacedAll(outline, tx, ty))
    ensures WindingOf(table, Spot(n, q)) == WindingOf(outline, Shown(tx, ty, n, q))
  {
    var p := Shown(tx, ty, n, q);
    WindingPermuted(table, PlacedAll(outline, tx, ty), Spot(n, q));
    PlacedWinds(outline, tx, ty, p.x, p.y);
    hide WindingOf, PlacedAll;
  }

  /** From an outline to what is drawn of it: placed and sorted in any way, it is drawn in a column,
      clear of its edges, if and only if the fill rule is for its own point there. */
  lemma OutlineIsDrawnWhereItWinds(outline: seq<Edge>, tx: real, ty: real, table: seq<Edge>, rule: FillRule, n: nat, q: int)
    requires Balanced(outline) && Table(table) && multiset(table) == multiset(PlacedAll(outline, tx, ty))
    requires Clear(table, n, q)
    ensures Coverage.Covers(Spans(rule, ActiveAt(table, n)), q)
         == if Fills(rule, WindingOf(outline, Point(q as real / 1024.0 - tx, (n as real + 0.5) / 5.0 - ty))) then 1 else 0
  {
    hide Spot, Inside, Balanced, Table, Clear, Fills, ActiveAt, Spans, Coverage.Covers, WindingOf, PlacedAll;
    InsideIffWound(table, rule, n, q);
    PlacementKeepsBalance(outline, tx, ty);
    DrawnIffInside(PlacedAll(outline, tx, ty), table, rule, n, q);
    PlacedWindsAt(outline, tx, ty, table, n, q);
  }

  /** A straight line in particular. */
  lemma LineIsDrawn(st: Style, s0: StrokePoint, s1: StrokePoint, len: real, tx: real, ty: real,
                    table: seq<Edge>, rule: FillRule, n: nat, q: int)
    requires st.cap != RoundCap && st.width > 0.0 && len > 0.0
    requires st.endDir == st.startDir && st.startDir.x * st.startDir.x + st.startDir.y * st.startDir.y == 1.0
    requires s1.p == Point(s0.p.x + len * st.startDir.x, s0.p.y + len * st.startDir.y)
    requires Table(table) && multiset(table) == multiset(PlacedAll(EdgesOf(StrokeSegs(st, [s0, s1], false)), tx, ty))
    requires Clear(table, n, q)
    ensures var p, drawn := Point(q as real / 1024.0 - tx, (n as real + 0.5) / 5.0 - ty),
                            Coverage.Covers(Spans(rule, ActiveAt(table, n)), q);
      (InStrip(st, s0.p, len, p) ==> drawn == 1) && (OffStrip(st, s0.p, len, p) ==> drawn == 0)
  {
    hide InStrip, OffStrip, StrokeSegs, EdgesOf, Table, Clear, ActiveAt, Spans, Coverage.Covers, WindingOf, PlacedAll, Balanced;
    var p := Point(q as real / 1024.0 - tx, (n as real + 0.5) / 5.0 - ty);
    StrokesClose(st, [s0, s1], false);
    LineCoversItsStrip(st, s0, s1, len, p);
    OutlineIsDrawnWhereItWinds(EdgesOf(StrokeSegs(st, [s0, s1], false)), tx, ty, table, rule, n, q);
  }

  // ---------------------------------------------------------------- how much of a pixel

  lemma AddedIs(s: Span, p: int)
    ensures var n := Overlap(s, 1024 * p, 1024 * p + 1024);
      1024 * Added(s, p, 51) <= 51 * n < 1024 * Added(s, p, 51) + 1024
  {
    assert p * FIX == 1024 * p && (p + 1) * FIX == 1024 * p + 1024;
  }

  lemma {:induction false} TotalAddedIs(spans: seq<Span>, p: int)
    ensures var n := TotalOverlap(spans, 1024 * p, 1024 * p + 1024);
      1024 * TotalAdded(spans, p, 51) <= 51 * n <= 1024 * (TotalAdded(spans, p, 51) + |spans|)
  {
    if spans != [] {
      AddedIs(spans[0], p);
      TotalAddedIs(spans[1..], p);
    }
    hide Overlap, Added;
  }

  /** On one sub-scanline of a closed outline a pixel gets 51 for all of its 1024 columns, and for
      some of them their share, rounded down for each span. */
  lemma PixelIsShare(rule: FillRule, l: seq<ActiveEdge>, p: int)
    requires SortedByX(l) && UnitDirs(l) && Final(rule, 0, l) == 0
    ensures var n := CountInside(rule, l, 1024 * p, 1024 * p + 1024);
      1024 * TotalAdded(Spans(rule, l), p, 51) <= 51 * n <= 1024 * (TotalAdded(Spans(rule, l), p, 51) + |Spans(rule, l)|)
  {
    DrawnLengthIsInsideCount(rule, l, 1024 * p, 1024 * p + 1024);
    TotalAddedIs(Spans(rule, l), p);
    hide TotalAdded, TotalOverlap, CountInside, Spans;
  }

  ghost function InsideColumns(rule: FillRule, l: seq<ActiveEdge>, lo: int, hi: int): set<int> {
    set q | lo <= q < hi && Inside(rule, l, q)
  }

  /** Which columns are counted. */
  lemma {:induction false} CountIs(rule: FillRule, l: seq<ActiveEdge>, lo: int, hi: int)
    requires lo <= hi
    ensures CountInside(rule, l, lo, hi) == |InsideColumns(rule, l, lo, hi)|
    decreases hi - lo
  {
    var s := InsideColumns(rule, l, lo, hi);
    if lo < hi {
      CountIs(rule, l, lo, hi - 1);
      var t := InsideColumns(rule, l, lo, hi - 1);
      assert s == if Inside(rule, l, hi - 1) then t + {hi - 1} else t;
    } else {
      assert s == {};
    }
    hide Inside;
  }

  /** The coverage of pixel p in row y is that of its five sub-scanlines. */
  lemma RowCoverIsFive(edges: seq<Edge>, rule: FillRule, y: nat, p: int)
    requires Table(edges)
    ensures var w := (k: nat) => TotalAdded(Spans(rule, ActiveAt(edges, 5 * y + k)), p, 51);
      RowCover(edges, rule, y, p) == w(0) + w(1) + w(2) + w(3) + w(4)
  {
    hide ActiveAt, Spans, TotalAdded;
    RowWeightStep(edges, rule, y, p, 0);
    RowWeightStep(edges, rule, y, p, 1);
    RowWeightStep(edges, rule, y, p, 2);
    RowWeightStep(edges, rule, y, p, 3);
    RowWeightStep(edges, rule, y, p, 4);
  }

  /** The columns inside on sub-scanline k of row y, out of the 1024 of pixel p. */
  ghost function ColumnsInside(edges: seq<Edge>, rule: FillRule, y: nat, p: int, k: nat): nat
    requires Table(edges)
  {
    |InsideColumns(rule, ActiveAt(edges, 5 * y + k), 1024 * p, 1024 * p + 1024)|
  }

  ghost function SpansOn(edges: seq<Edge>, rule: FillRule, y: nat, k: nat): nat
    requires Table(edges)
  {
    |Spans(rule, ActiveAt(edges, 5 * y + k))|
  }

  lemma LineShare(edges: seq<Edge>, rule: FillRule, y: nat, p: int, k: nat)
    requires Table(edges) && Balanced(edges)
    ensures var w, n := TotalAdded(Spans(rule, ActiveAt(edges, 5 * y + k)), p, 51), ColumnsInside(edges, rule, y, p, k);
      1024 * w <= 51 * n <= 1024 * (w + SpansOn(edges, rule, y, k))
  {
    var l := ActiveAt(edges, 5 * y + k);
    ActiveDirections(edges, 5 * y + k);
    FillsClose(edges, edges, rule, 5 * y + k);
    PixelIsShare(rule, l, p);
    CountIs(rule, l, 1024 * p, 1024 * p + 1024);
    hide ActiveAt, Spans, TotalAdded, CountInside, Inside, Balanced, Table, SortedByX, UnitDirs;
  }

  /** The coverage byte is 255 times the share of the pixel's 5120 columns that are inside, rounded
      down for each of the spans. */
  lemma CoverIsShare(edges: seq<Edge>, rule: FillRule, y: nat, p: int)
    requires Table(edges) && Balanced(edges)
    ensures var n := (k: nat) => ColumnsInside(edges, rule, y, p, k);
      var s := (k: nat) => SpansOn(edges, rule, y, k);
      var inside, spans := n(0) + n(1) + n(2) + n(3) + n(4), s(0) + s(1) + s(2) + s(3) + s(4);
      5120 * RowCover(edges, rule, y, p) as int <= 255 * inside <= 5120 * (RowCover(edges, rule, y, p) + spans)
  {
    hide ActiveAt, Spans, TotalAdded, ColumnsInside, SpansOn, RowCover, Table, Balanced;
    RowCoverIsFive(edges, rule, y, p);
    LineShare(edges, rule, y, p, 0);
    LineShare(edges, rule, y, p, 1);
    LineShare(edges, rule, y, p, 2);
    LineShare(edges, rule, y, p, 3);
    LineShare(edges, rule, y, p, 4);
  }
}
