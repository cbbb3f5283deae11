/** Anti-aliased coverage of one sub-scanline.

  Positions are fixed point: one pixel is FIX columns wide.  A sub-scanline crosses the
  outline at the x positions of the active edges; the walk over the x-sorted active list
  turns those crossings into spans, and every span adds weight to the scanline bytes.

  The reference meaning is per column: a column is inside when the winding level, taken
  over the edges at or left of it, is not zero.
 */
module Coverage {
  import opened Basics
  import opened Bytes

  const FIX: int := 1024
  const SUBSAMPLES: int := 5
  const MAX_WEIGHT: int := 255 / SUBSAMPLES

  datatype FillRule = NonZero | EvenOdd

  /** An active edge.  `src` is the index of the edge in the edge table; the program has the
      same information in which allocation a list node came from. */
  datatype ActiveEdge = ActiveEdge(x: int, dx: int, ey: real, dir: int, src: nat)

  /** The columns x0 <= q < x1. */
  datatype Span = Span(x0: int, x1: int)

  predicate SortedByX(l: seq<ActiveEdge>) {
    forall i, j :: 0 <= i < j < |l| ==> l[i].x <= l[j].x
  }

  predicate UnitDirs(l: seq<ActiveEdge>) {
    forall i :: 0 <= i < |l| ==> l[i].dir == 1 || l[i].dir == -1
  }

  // ---------------------------------------------------------------- winding level

  /** The winding counter after passing one edge. */
  function Step(rule: FillRule, w: int, dir: int): int {
    match rule
    case NonZero => w + dir
    case EvenOdd => if w == 0 then 1 else 0
  }

  /** The winding counter after the whole list. */
  function Final(rule: FillRule, w: int, l: seq<ActiveEdge>): int
    decreases l
  {
    if l == [] then w else Final(rule, Step(rule, w, l[0].dir), l[1..])
  }

  /** The winding level at column q: only edges at or left of q count. */
  function Level(rule: FillRule, w: int, l: seq<ActiveEdge>, q: int): int
    decreases l
  {
    if l == [] then w
    else Level(rule, if l[0].x <= q then Step(rule, w, l[0].dir) else w, l[1..], q)
  }

  ghost predicate Inside(rule: FillRule, l: seq<ActiveEdge>, q: int) {
    Level(rule, 0, l, q) != 0
  }

  function DirSum(l: seq<ActiveEdge>): int {
    if l == [] then 0 else l[0].dir + DirSum(l[1..])
  }

  /** The walk closes under both rules as soon as the directions cancel. */
  lemma {:induction false} BalancedCloses(rule: FillRule, l: seq<ActiveEdge>)
    requires UnitDirs(l) && DirSum(l) == 0
    ensures Final(rule, 0, l) == 0
  {
    FinalIsSum(rule, 0, l);
  }

  lemma {:induction false} FinalIsSum(rule: FillRule, w: int, l: seq<ActiveEdge>)
    requires UnitDirs(l)
    requires rule.EvenOdd? ==> w == 0 || w == 1
    ensures rule.NonZero? ==> Final(rule, w, l) == w + DirSum(l)
    ensures rule.EvenOdd? ==> Final(rule, w, l) == (w + DirSum(l)) % 2
    decreases l
  {
    if l != [] {
      FinalIsSum(rule, Step(rule, w, l[0].dir), l[1..]);
    }
  }

  // ---------------------------------------------------------------- spans

  /** The spans drawn by the walk, from counter w and (when w != 0) span start x0. */
  function SpansFrom(rule: FillRule, w: int, x0: int, l: seq<ActiveEdge>): seq<Span>
    decreases l
  {
    if l == [] then []
    else if w == 0 then SpansFrom(rule, Step(rule, w, l[0].dir), l[0].x, l[1..])
    else
      var w' := Step(rule, w, l[0].dir);
      (if w' == 0 then [Span(x0, l[0].x)] else []) + SpansFrom(rule, w', x0, l[1..])
  }

  function Spans(rule: FillRule, l: seq<ActiveEdge>): seq<Span> {
    SpansFrom(rule, 0, 0, l)
  }

  function Covers(spans: seq<Span>, q: int): nat {
    if spans == [] then 0 else (if spans[0].x0 <= q < spans[0].x1 then 1 else 0) + Covers(spans[1..], q)
  }

  lemma {:induction false} CoversConcat(a: seq<Span>, b: seq<Span>, q: int)
    ensures Covers(a + b, q) == Covers(a, q) + Covers(b, q)
  {
    if a == [] {
      assert a + b == b;
    } else {
      assert (a + b)[1..] == a[1..] + b;
      CoversConcat(a[1..], b, q);
    }
  }

  /** Left of every remaining edge the level does not change any more. */
  lemma {:induction false} LevelLeft(rule: FillRule, w: int, l: seq<ActiveEdge>, q: int)
    requires forall i :: 0 <= i < |l| ==> q < l[i].x
    ensures Level(rule, w, l, q) == w
    decreases l
  {
    if l != [] {
      LevelLeft(rule, w, l[1..], q);
    }
  }

  /** The heart of the coverage argument: the spans never overlap, every covered column is
      inside, and when the walk closes every inside column is covered. */
  lemma {:induction false} SpansAreInside(rule: FillRule, w: int, x0: int, l: seq<ActiveEdge>, q: int)
    requires SortedByX(l) && UnitDirs(l)
    requires w != 0 ==> forall i :: 0 <= i < |l| ==> x0 <= l[i].x
    ensures Covers(SpansFrom(rule, w, x0, l), q) <= 1
    ensures Covers(SpansFrom(rule, w, x0, l), q) == 1 ==> Level(rule, w, l, q) != 0 && (w != 0 ==> x0 <= q)
    ensures Final(rule, w, l) == 0 && Level(rule, w, l, q) != 0 && (w != 0 ==> x0 <= q)
            ==> Covers(SpansFrom(rule, w, x0, l), q) == 1
    decreases l
  {
    if l != [] {
      var e, rest := l[0], l[1..];
      var w' := Step(rule, w, e.dir);
      if q < e.x {
        LevelLeft(rule, w, l, q);
        LevelLeft(rule, w', rest, q);
      }
      if w == 0 {
        SpansAreInside(rule, w', e.x, rest, q);
      } else {
        SpansAreInside(rule, w', x0, rest, q);
        if w' == 0 {
          CoversConcat([Span(x0, e.x)], SpansFrom(rule, w', x0, rest), q);
        } else {
          assert SpansFrom(rule, w, x0, l) == SpansFrom(rule, w', x0, rest);
        }
      }
    }
  }

  // ---------------------------------------------------------------- columns of a pixel

  /** How many columns of the window lo <= q < hi lie in the span. */
  function Overlap(s: Span, lo: int, hi: int): nat {
    Max(0, Min(s.x1, hi) - Max(s.x0, lo))
  }

  function TotalOverlap(spans: seq<Span>, lo: int, hi: int): nat {
    if spans == [] then 0 else Overlap(spans[0], lo, hi) + TotalOverlap(spans[1..], lo, hi)
  }

  ghost function CountInside(rule: FillRule, l: seq<ActiveEdge>, lo: int, hi: int): nat
    requires lo <= hi
    decreases hi - lo
  {
    if lo == hi then 0
    else CountInside(rule, l, lo, hi - 1) + (if Inside(rule, l, hi - 1) then 1 else 0)
  }

  lemma {:induction false} CountInsideBounded(rule: FillRule, l: seq<ActiveEdge>, lo: int, hi: int)
    requires lo <= hi
    ensures CountInside(rule, l, lo, hi) <= hi - lo
    decreases hi - lo
  {
    if lo < hi {
      CountInsideBounded(rule, l, lo, hi - 1);
    }
  }

  lemma {:induction false} OverlapGrows(spans: seq<Span>, lo: int, hi: int)
    requires lo < hi
    ensures TotalOverlap(spans, lo, hi) == TotalOverlap(spans, lo, hi - 1) + Covers(spans, hi - 1)
  {
    if spans != [] {
      OverlapGrows(spans[1..], lo, hi);
    }
  }

  lemma {:induction false} OverlapEmpty(spans: seq<Span>, lo: int)
    ensures TotalOverlap(spans, lo, lo) == 0
  {
    if spans != [] {
      OverlapEmpty(spans[1..], lo);
    }
  }

  /** The drawn length in any window is at most the number of inside columns, and equals it
      when the walk closes. */
  lemma {:induction false} DrawnLengthIsInsideCount(rule: FillRule, l: seq<ActiveEdge>, lo: int, hi: int)
    requires SortedByX(l) && UnitDirs(l) && lo <= hi
    ensures TotalOverlap(Spans(rule, l), lo, hi) <= CountInside(rule, l, lo, hi)
    ensures Final(rule, 0, l) == 0 ==> TotalOverlap(Spans(rule, l), lo, hi) == CountInside(rule, l, lo, hi)
    decreases hi - lo
  {
    if lo == hi {
      OverlapEmpty(Spans(rule, l), lo);
    } else {
      DrawnLengthIsInsideCount(rule, l, lo, hi - 1);
      OverlapGrows(Spans(rule, l), lo, hi);
      SpansAreInside(rule, 0, 0, l, hi - 1);
    }
  }

  // ---------------------------------------------------------------- weight added to a pixel

  /** What a span adds to pixel p: the covered share of the weight, rounded down. */
  function Added(s: Span, p: int, weight: nat): nat {
    Overlap(s, p * FIX, (p + 1) * FIX) * weight / FIX
  }

  function TotalAdded(spans: seq<Span>, p: int, weight: nat): nat {
    if spans == [] then 0 else Added(spans[0], p, weight) + TotalAdded(spans[1..], p, weight)
  }

  lemma {:induction false} TotalAddedConcat(a: seq<Span>, b: seq<Span>, p: int, weight: nat)
    ensures TotalAdded(a + b, p, weight) == TotalAdded(a, p, weight) + TotalAdded(b, p, weight)
  {
    if a == [] {
      assert a + b == b;
    } else {
      assert (a + b)[1..] == a[1..] + b;
      TotalAddedConcat(a[1..], b, p, weight);
    }
  }

  lemma FloorSum(a: nat, b: nat, weight: nat)
    ensures a * weight / FIX + b * weight / FIX <= (a + b) * weight / FIX
  {
    assert (a + b) * weight == a * weight + b * weight;
  }

  lemma {:induction false} TotalAddedBound(spans: seq<Span>, p: int, weight: nat)
    ensures TotalAdded(spans, p, weight) <= TotalOverlap(spans, p * FIX, (p + 1) * FIX) * weight / FIX
  {
    if spans != [] {
      TotalAddedBound(spans[1..], p, weight);
      FloorSum(Overlap(spans[0], p * FIX, (p + 1) * FIX),
               TotalOverlap(spans[1..], p * FIX, (p + 1) * FIX), weight);
    }
  }

  /** No sub-scanline adds more than its weight to a pixel, however many spans share it. */
  lemma {:induction false} SubScanlineBound(rule: FillRule, l: seq<ActiveEdge>, p: int, weight: nat)
    requires SortedByX(l) && UnitDirs(l)
    ensures TotalAdded(Spans(rule, l), p, weight)
            <= CountInside(rule, l, p * FIX, (p + 1) * FIX) * weight / FIX
            <= weight
  {
    var n := TotalOverlap(Spans(rule, l), p * FIX, (p + 1) * FIX);
    var m := CountInside(rule, l, p * FIX, (p + 1) * FIX);
    TotalAddedBound(Spans(rule, l), p, weight);
    DrawnLengthIsInsideCount(rule, l, p * FIX, (p + 1) * FIX);
    CountInsideBounded(rule, l, p * FIX, (p + 1) * FIX);
    MulMono(n, m, weight);
    MulMono(m, FIX, weight);
  }

  lemma MulMono(a: nat, b: nat, weight: nat)
    requires a <= b
    ensures a * weight <= b * weight
    ensures a * weight / FIX <= b * weight / FIX
  {
    assert b * weight == a * weight + (b - a) * weight;
    DivMono(a * weight, b * weight);
  }

  lemma DivMono(a: nat, b: nat)
    requires a <= b
    ensures a / FIX <= b / FIX
  {
  }

  /** A pixel that lies inside one span gets the full weight. */
  lemma {:induction false} FullPixel(rule: FillRule, l: seq<ActiveEdge>, p: int, weight: nat, k: nat)
    requires SortedByX(l) && UnitDirs(l)
    requires k < |Spans(rule, l)|
    requires Spans(rule, l)[k].x0 <= p * FIX && (p + 1) * FIX <= Spans(rule, l)[k].x1
    ensures TotalAdded(Spans(rule, l), p, weight) == weight
  {
    SubScanlineBound(rule, l, p, weight);
    MemberAdded(Spans(rule, l), p, weight, k);
  }

  lemma {:induction false} MemberAdded(spans: seq<Span>, p: int, weight: nat, k: nat)
    requires k < |spans|
    ensures Added(spans[k], p, weight) <= TotalAdded(spans, p, weight)
  {
    if k > 0 {
      MemberAdded(spans[1..], p, weight, k - 1);
    }
  }

  // ---------------------------------------------------------------- the two methods

  /** nsvg__fillScanline: adds one span to the scanline and widens the dirty window. */
  method FillScanline(scanline: array<byte>, len: nat, x0: int, x1: int, weight: nat, xmin: int, xmax: int)
    returns (xmin': int, xmax': int)
    requires len <= scanline.Length && x0 <= x1
    modifies scanline
    ensures forall p :: 0 <= p < len ==>
              scanline[p] == (old(scanline[p]) + Added(Span(x0, x1), p, weight)) % 256
    ensures forall p :: len <= p < scanline.Length ==> scanline[p] == old(scanline[p])
    ensures xmin' == Min(xmin, x0 / FIX) && xmax' == Max(xmax, x1 / FIX)
  {
    var i, j := x0 / FIX, x1 / FIX;
    xmin' := if i < xmin then i else xmin;
    xmax' := if j > xmax then j else xmax;
    forall p | 0 <= p < len
      ensures Added(Span(x0, x1), p, weight) == PixelShare(x0, x1, p, weight)
    {
      PixelShareIsAdded(x0, x1, p, weight);
    }
    if i < len && j >= 0 {
      if i == j {
        scanline[i] := (scanline[i] + (x1 - x0) * weight / FIX) % 256;
      } else {
        if i >= 0 {
          scanline[i] := (scanline[i] + (FIX - x0 % FIX) * weight / FIX) % 256;
        } else {
          i := -1;
        }
        if j < len {
          scanline[j] := (scanline[j] + (x1 % FIX) * weight / FIX) % 256;
        } else {
          j := len;
        }
        i := i + 1;
        ghost var first, before := i, scanline[..];
        while i < j
          invariant first <= i && (first <= j ==> i <= j)
          invariant forall p :: first <= p < i ==> scanline[p] == (before[p] + weight) % 256
          invariant forall p :: 0 <= p < scanline.Length && !(first <= p < i) ==> scanline[p] == before[p]
        {
          scanline[i] := (scanline[i] + weight) % 256;
          i := i + 1;
        }
      }
    }
  }

  /** The case analysis of fillScanline, pixel by pixel. */
  function PixelShare(x0: int, x1: int, p: int, weight: nat): nat
    requires x0 <= x1
  {
    var i, j := x0 / FIX, x1 / FIX;
    if p < i || j < p then 0
    else if i == j then (x1 - x0) * weight / FIX
    else if p == i then (FIX - x0 % FIX) * weight / FIX
    else if p == j then (x1 % FIX) * weight / FIX
    else weight
  }

  lemma PixelShareIsAdded(x0: int, x1: int, p: int, weight: nat)
    requires x0 <= x1
    ensures Added(Span(x0, x1), p, weight) == PixelShare(x0, x1, p, weight)
  {
    var i, j := x0 / FIX, x1 / FIX;
    var o := Overlap(Span(x0, x1), p * FIX, (p + 1) * FIX);
    if p < i || j < p {
      assert o == 0;
    } else if i == j {
      assert o == x1 - x0;
    } else if p == i {
      assert o == FIX - x0 % FIX;
    } else if p == j {
      assert o == x1 % FIX;
    } else {
      assert o == FIX;
      assert FIX * weight / FIX == weight;
    }
  }

  /** The leftmost and rightmost pixel touched by any span, starting from a given window. */
  function WindowMin(spans: seq<Span>, xmin: int): int {
    if spans == [] then xmin else WindowMin(spans[1..], Min(xmin, spans[0].x0 / FIX))
  }

  function WindowMax(spans: seq<Span>, xmax: int): int {
    if spans == [] then xmax else WindowMax(spans[1..], Max(xmax, spans[0].x1 / FIX))
  }

  lemma {:induction false} WindowConcat(a: seq<Span>, b: seq<Span>, xmin: int, xmax: int)
    ensures WindowMin(a + b, xmin) == WindowMin(b, WindowMin(a, xmin))
    ensures WindowMax(a + b, xmax) == WindowMax(b, WindowMax(a, xmax))
  {
    if a == [] {
      assert a + b == b;
    } else {
      assert (a + b)[1..] == a[1..] + b;
      WindowConcat(a[1..], b, Min(xmin, a[0].x0 / FIX), Max(xmax, a[0].x1 / FIX));
    }
  }

  lemma {:induction false} WindowOnlyWidens(spans: seq<Span>, xmin: int, xmax: int)
    ensures WindowMin(spans, xmin) <= xmin && xmax <= WindowMax(spans, xmax)
  {
    if spans != [] {
      WindowOnlyWidens(spans[1..], Min(xmin, spans[0].x0 / FIX), Max(xmax, spans[0].x1 / FIX));
    }
  }

  /** Every pixel that receives weight lies in the dirty window. */
  lemma {:induction false} WindowCoversWeight(spans: seq<Span>, xmin: int, xmax: int, p: int, weight: nat)
    requires TotalAdded(spans, p, weight) > 0
    ensures WindowMin(spans, xmin) <= p <= WindowMax(spans, xmax)
  {
    var s := spans[0];
    var xmin', xmax' := Min(xmin, s.x0 / FIX), Max(xmax, s.x1 / FIX);
    if Added(s, p, weight) > 0 {
      assert Overlap(s, p * FIX, (p + 1) * FIX) > 0;
      assert s.x0 / FIX <= p <= s.x1 / FIX;
      WindowOnlyWidens(spans[1..], xmin', xmax');
    } else {
      WindowCoversWeight(spans[1..], xmin', xmax', p, weight);
    }
  }

  /** nsvg__fillActiveEdges: one pass over the x-sorted active list. */
  method FillActiveEdges(scanline: array<byte>, len: nat, active: seq<ActiveEdge>, weight: nat,
                         xmin: int, xmax: int, rule: FillRule)
    returns (xmin': int, xmax': int, w: int)
    requires len <= scanline.Length && SortedByX(active)
    modifies scanline
    ensures forall p :: 0 <= p < len ==>
              scanline[p] == (old(scanline[p]) + TotalAdded(Spans(rule, active), p, weight)) % 256
    ensures forall p :: len <= p < scanline.Length ==> scanline[p] == old(scanline[p])
    ensures xmin' == WindowMin(Spans(rule, active), xmin) && xmax' == WindowMax(Spans(rule, active), xmax)
    ensures w == Final(rule, 0, active)
  {
    hide TotalAdded, Added, Painted, Step, Final, SpansFrom, WindowMin, WindowMax;
    var x0, k := 0, 0;
    xmin', xmax', w := xmin, xmax, 0;
    ghost var drawn: seq<Span>, before := [], scanline[..];
    NothingPainted(before, len, weight);
    NoWindow(xmin, xmax);
    assert active[0..] == active && drawn + Spans(rule, active) == Spans(rule, active);
    while k < |active|
      invariant 0 <= k <= |active|
      invariant Final(rule, w, active[k..]) == Final(rule, 0, active)
      invariant w != 0 ==> forall i :: k <= i < |active| ==> x0 <= active[i].x
      invariant drawn + SpansFrom(rule, w, x0, active[k..]) == Spans(rule, active)
      invariant Painted(before, scanline[..], len, drawn, weight)
      invariant xmin' == WindowMin(drawn, xmin) && xmax' == WindowMax(drawn, xmax)
    {
      var e := active[k];
      assert active[k..][1..] == active[k + 1..];
      var w' := Step(rule, w, e.dir);
      OneEdge(rule, w, x0, active[k..]);
      if w == 0 {
        x0 := e.x;
      } else if w' == 0 {
        Regroup(drawn, [Span(x0, e.x)], SpansFrom(rule, w', x0, active[k + 1..]));
        ghost var mid := scanline[..];
        xmin', xmax' := FillScanline(scanline, len, x0, e.x, weight, xmin', xmax');
        PaintedStep(before, mid, scanline[..], len, drawn, Span(x0, e.x), weight);
        WindowConcat(drawn, [Span(x0, e.x)], xmin, xmax);
        OneWindow(Span(x0, e.x), WindowMin(drawn, xmin), WindowMax(drawn, xmax));
        drawn := drawn + [Span(x0, e.x)];
      }
      w, k := w', k + 1;
    }
    NoEdges(rule, w, x0);
    assert active[k..] == [] && drawn + [] == drawn;
    PaintedIs(before, scanline[..], len, drawn, weight);
  }

  /** `after` is `before` with the given spans added, byte by byte, modulo 256. */
  ghost predicate Painted(before: seq<byte>, after: seq<byte>, len: nat, spans: seq<Span>, weight: nat) {
    && |after| == |before| && len <= |before|
    && (forall p :: 0 <= p < len ==> after[p] == (before[p] + TotalAdded(spans, p, weight)) % 256)
    && (forall p :: len <= p < |before| ==> after[p] == before[p])
  }

  lemma OneWindow(s: Span, xmin: int, xmax: int)
    ensures WindowMin([s], xmin) == Min(xmin, s.x0 / FIX) && WindowMax([s], xmax) == Max(xmax, s.x1 / FIX)
  {
  }

  lemma NoWindow(xmin: int, xmax: int)
    ensures WindowMin([], xmin) == xmin && WindowMax([], xmax) == xmax
  {
  }

  lemma NoEdges(rule: FillRule, w: int, x0: int)
    ensures Final(rule, w, []) == w && SpansFrom(rule, w, x0, []) == []
  {
  }

  /** What one edge of the list adds to the spans and to the winding. */
  lemma OneEdge(rule: FillRule, w: int, x0: int, l: seq<ActiveEdge>)
    requires l != []
    ensures var w' := Step(rule, w, l[0].dir);
      && Final(rule, w, l) == Final(rule, w', l[1..])
      && SpansFrom(rule, w, x0, l)
           == if w == 0 then SpansFrom(rule, w', l[0].x, l[1..])
              else if w' == 0 then [Span(x0, l[0].x)] + SpansFrom(rule, w', x0, l[1..])
              else SpansFrom(rule, w', x0, l[1..])
  {
    hide Step;
    var w' := Step(rule, w, l[0].dir);
    assert [] + SpansFrom(rule, w', x0, l[1..]) == SpansFrom(rule, w', x0, l[1..]);
  }

  lemma NothingPainted(before: seq<byte>, len: nat, weight: nat)
    requires len <= |before|
    ensures Painted(before, before, len, [], weight)
  {
  }

  lemma PaintedIs(before: seq<byte>, after: seq<byte>, len: nat, spans: seq<Span>, weight: nat)
    requires Painted(before, after, len, spans, weight)
    ensures |after| == |before| && len <= |before|
    ensures forall p :: 0 <= p < len ==> after[p] == (before[p] + TotalAdded(spans, p, weight)) % 256
    ensures forall p :: len <= p < |before| ==> after[p] == before[p]
  {
  }

  lemma PaintedStep(before: seq<byte>, mid: seq<byte>, after: seq<byte>, len: nat,
                    spans: seq<Span>, s: Span, weight: nat)
    requires Painted(before, mid, len, spans, weight)
    requires |after| == |mid|
    requires forall p :: 0 <= p < len ==> after[p] == (mid[p] + Added(s, p, weight)) % 256
    requires forall p :: len <= p < |mid| ==> after[p] == mid[p]
    ensures Painted(before, after, len, spans + [s], weight)
  {
    forall p | 0 <= p < len
      ensures after[p] == (before[p] + TotalAdded(spans + [s], p, weight)) % 256
    {
      TotalAddedConcat(spans, [s], p, weight);
      assert TotalAdded([s], p, weight) == Added(s, p, weight);
      ModSum(before[p] + TotalAdded(spans, p, weight), Added(s, p, weight));
    }
  }

  lemma ModSum(a: nat, b: nat)
    ensures (a % 256 + b) % 256 == (a + b) % 256
  {
  }
}
