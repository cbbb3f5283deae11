/** The active-edge sweep over a table of edges sorted by y0.

  Sub-scanline n samples the outline at height n + 1/2.  Moving from one sub-scanline to the
  next drops finished edges, advances the others, re-sorts by x, and inserts the edges that
  have started.  The functions describe the list that results; the methods are the loops.
 */
module Sweep {
  import opened Bytes
  import opened Coverage
  import opened Outline

  function Height(n: int): real { n as real + 0.5 }

  // ---------------------------------------------------------------- fixed-point positions

  /** Rounding half away from zero. */
  function Round(r: real): int {
    if r >= 0.0 then (r + 0.5).Floor else -((-r + 0.5).Floor)
  }

  function Slope(e: Edge): real
    requires e.Valid()
  {
    (e.x1 - e.x0) / (e.y1 - e.y0)
  }

  function StepX(e: Edge): int
    requires e.Valid()
  {
    if Slope(e) < 0.0 then -Round(1024.0 * -Slope(e)) else Round(1024.0 * Slope(e))
  }

  function StartX(e: Edge, start: real): int
    requires e.Valid()
  {
    Round(1024.0 * (e.x0 + Slope(e) * (start - e.y0)))
  }

  /** nsvg__addActive. */
  function NewActive(e: Edge, src: nat, start: real): ActiveEdge
    requires e.Valid()
  {
    ActiveEdge(StartX(e, start), StepX(e), e.y1, e.dir, src)
  }

  // ---------------------------------------------------------------- the edge table

  ghost predicate Table(edges: seq<Edge>) {
    && (forall i :: 0 <= i < |edges| ==> edges[i].Valid())
    && forall i, j :: 0 <= i < j < |edges| ==> edges[i].y0 <= edges[j].y0
  }

  /** What sorting the edges of an outline by y0 gives. */
  lemma TableIff(edges: seq<Edge>)
    ensures Table(edges)
       <==> (forall e :: e in edges ==> e.y0 < e.y1 && (e.dir == 1 || e.dir == -1))
            && forall i, j :: 0 <= i < j < |edges| ==> edges[i].y0 <= edges[j].y0
  {
    if Table(edges) {
      forall e | e in edges
        ensures e.Valid()
      {
        var i :| 0 <= i < |edges| && edges[i] == e;
      }
    }
  }

  predicate Live(e: Edge, n: int) { e.y0 <= Height(n) < e.y1 }

  /** The first sub-scanline that samples at or below the top of the edge. */
  function FirstLine(e: Edge): (n: nat)
    ensures e.y0 <= Height(n)
    ensures n > 0 ==> Height(n - 1) < e.y0
  {
    var c := -((0.5 - e.y0).Floor);
    if c < 0 then 0 else c
  }

  /** The list entry of a live edge on sub-scanline n: its start position, plus one step for
      every sub-scanline since. */
  function Entry(e: Edge, src: nat, n: nat): ActiveEdge
    requires e.Valid() && FirstLine(e) <= n
  {
    var a := NewActive(e, src, Height(FirstLine(e)));
    a.(x := a.x + (n - FirstLine(e)) * a.dx)
  }

  // ---------------------------------------------------------------- the three updates

  /** Drop what ends at or above the sample height, advance the rest. */
  function Advance(l: seq<ActiveEdge>, h: real): seq<ActiveEdge> {
    if l == [] then []
    else if l[0].ey <= h then Advance(l[1..], h)
    else [l[0].(x := l[0].x + l[0].dx)] + Advance(l[1..], h)
  }

  /** The stable sort by x. */
  function SortInsert(a: ActiveEdge, l: seq<ActiveEdge>): seq<ActiveEdge> {
    if l == [] || a.x <= l[0].x then [a] + l else [l[0]] + SortInsert(a, l[1..])
  }

  function StableSort(l: seq<ActiveEdge>): seq<ActiveEdge> {
    if l == [] then [] else SortInsert(l[0], StableSort(l[1..]))
  }

  /** Where a new edge goes: in front when it lies left of everything, else behind the first
      entry and everything after it that lies further left. */
  function InsertPos(l: seq<ActiveEdge>, a: ActiveEdge): (k: nat)
    ensures k <= |l| && (k == 0 <==> l == [] || a.x < l[0].x)
    ensures forall i :: 1 <= i < k ==> l[i].x < a.x
    ensures 0 < k < |l| ==> l[k].x >= a.x
  {
    if l == [] || a.x < l[0].x then 0 else 1 + LeftRun(l[1..], a.x)
  }

  function LeftRun(l: seq<ActiveEdge>, x: int): (k: nat)
    ensures k <= |l|
    ensures forall i :: 0 <= i < k ==> l[i].x < x
    ensures k < |l| ==> l[k].x >= x
  {
    if l == [] || l[0].x >= x then 0 else 1 + LeftRun(l[1..], x)
  }

  function Insert(l: seq<ActiveEdge>, a: ActiveEdge): (r: seq<ActiveEdge>)
    ensures |r| == |l| + 1
  {
    var k := InsertPos(l, a);
    l[..k] + [a] + l[k..]
  }

  /** How many table entries have started by height h, from entry k on. */
  function StartedFrom(edges: seq<Edge>, k: nat, h: real): (s: nat)
    requires k <= |edges|
    ensures k <= s <= |edges|
    ensures forall i :: k <= i < s ==> edges[i].y0 <= h
    ensures s < |edges| ==> edges[s].y0 > h
    decreases |edges| - k
  {
    if k == |edges| || edges[k].y0 > h then k else StartedFrom(edges, k + 1, h)
  }

  /** Insert table entries k .. e - 1, except those that also end by height h. */
  function InsertRange(edges: seq<Edge>, l: seq<ActiveEdge>, k: nat, e: nat, h: real): seq<ActiveEdge>
    requires k <= e <= |edges| && Table(edges)
    decreases e - k
  {
    if k == e then l
    else InsertRange(edges, if edges[k].y1 > h then Insert(l, NewActive(edges[k], k, h)) else l, k + 1, e, h)
  }

  /** The sweep state on entry to sub-scanline n. */
  datatype State = State(active: seq<ActiveEdge>, next: nat)

  function NextState(edges: seq<Edge>, s: State, n: nat): State
    requires Table(edges) && s.next <= |edges|
  {
    var e := StartedFrom(edges, s.next, Height(n));
    State(InsertRange(edges, StableSort(Advance(s.active, Height(n))), s.next, e, Height(n)), e)
  }

  /** The sweep state after the updates of sub-scanline n - 1. */
  function StateAfter(edges: seq<Edge>, n: nat): (s: State)
    requires Table(edges)
    ensures s.next <= |edges|
  {
    if n == 0 then State([], 0) else NextState(edges, StateAfter(edges, n - 1), n - 1)
  }

  /** The active list while sub-scanline n is drawn. */
  function ActiveAt(edges: seq<Edge>, n: nat): seq<ActiveEdge>
    requires Table(edges)
  {
    StateAfter(edges, n + 1).active
  }

  // ---------------------------------------------------------------- the invariant of the sweep

  ghost predicate Distinct(l: seq<ActiveEdge>) {
    forall i, j :: 0 <= i < j < |l| ==> l[i].src != l[j].src
  }

  ghost predicate Has(l: seq<ActiveEdge>, k: nat) {
    exists i :: 0 <= i < |l| && l[i].src == k
  }

  /** Every entry is the entry of a live edge below the table index `next`. */
  ghost predicate EntriesOf(edges: seq<Edge>, l: seq<ActiveEdge>, next: nat, n: nat)
    requires Table(edges) && next <= |edges|
  {
    forall i :: 0 <= i < |l| ==>
      && l[i].src < next && Live(edges[l[i].src], n) && FirstLine(edges[l[i].src]) <= n
      && l[i] == Entry(edges[l[i].src], l[i].src, n)
  }

  ghost predicate HasLive(edges: seq<Edge>, l: seq<ActiveEdge>, next: nat, n: nat)
    requires next <= |edges|
  {
    forall k :: 0 <= k < next && Live(edges[k], n) ==> Has(l, k)
  }

  /** The table entries below `next` are those that have started. */
  ghost predicate Started(edges: seq<Edge>, next: nat, n: nat)
    requires next <= |edges|
  {
    forall k :: 0 <= k < |edges| ==> (k < next <==> edges[k].y0 <= Height(n))
  }

  /** The list is sorted and holds exactly the live edges, each once, each at its fixed-point
      position. */
  ghost predicate Exact(edges: seq<Edge>, l: seq<ActiveEdge>, next: nat, n: nat)
    requires Table(edges) && next <= |edges|
  {
    && SortedByX(l) && Distinct(l) && EntriesOf(edges, l, next, n) && HasLive(edges, l, next, n)
    && Started(edges, next, n)
  }

  // ---------------------------------------------------------------- membership through the updates

  lemma {:induction false} AdvanceMembers(l: seq<ActiveEdge>, h: real, a: ActiveEdge)
    ensures a in Advance(l, h) <==> exists b :: b in l && b.ey > h && a == b.(x := b.x + b.dx)
  {
    if l != [] {
      AdvanceMembers(l[1..], h, a);
      assert l == [l[0]] + l[1..];
      if a in Advance(l, h) {
        if l[0].ey > h && a == l[0].(x := l[0].x + l[0].dx) {
          assert l[0] in l;
        } else {
          var b :| b in l[1..] && b.ey > h && a == b.(x := b.x + b.dx);
          assert b in l;
        }
      }
    }
  }

  lemma {:induction false} AdvanceDistinct(l: seq<ActiveEdge>, h: real)
    requires Distinct(l)
    ensures Distinct(Advance(l, h))
  {
    if l != [] {
      AdvanceDistinct(l[1..], h);
      forall a | a in Advance(l[1..], h)
        ensures a.src != l[0].src
      {
        AdvanceMembers(l[1..], h, a);
      }
    }
  }

  lemma {:induction false} SortInsertPermutes(a: ActiveEdge, l: seq<ActiveEdge>)
    ensures multiset(SortInsert(a, l)) == multiset{a} + multiset(l)
  {
    if l != [] && a.x > l[0].x {
      SortInsertPermutes(a, l[1..]);
      assert l == [l[0]] + l[1..];
      assert multiset(l) == multiset{l[0]} + multiset(l[1..]);
    }
  }

  lemma {:induction false} SortInsertSorts(a: ActiveEdge, l: seq<ActiveEdge>, m: int)
    requires SortedByX(l)
    requires m <= a.x && forall i :: 0 <= i < |l| ==> m <= l[i].x
    ensures SortedByX(SortInsert(a, l))
    ensures forall i :: 0 <= i < |SortInsert(a, l)| ==> m <= SortInsert(a, l)[i].x
  {
    if l != [] && a.x > l[0].x {
      SortInsertSorts(a, l[1..], l[0].x);
    }
  }

  lemma {:induction false} StableSortFacts(l: seq<ActiveEdge>)
    ensures SortedByX(StableSort(l)) && multiset(StableSort(l)) == multiset(l)
  {
    if l != [] {
      var s := StableSort(l[1..]);
      StableSortFacts(l[1..]);
      SortInsertPermutes(l[0], s);
      SortInsertSorts(l[0], s, if s != [] && s[0].x < l[0].x then s[0].x else l[0].x);
      assert l == [l[0]] + l[1..];
    }
  }

  lemma {:induction false} PermutedDistinct(s: seq<ActiveEdge>, t: seq<ActiveEdge>)
    requires multiset(s) == multiset(t) && Distinct(s)
    ensures Distinct(t)
  {
    forall i, j | 0 <= i < j < |t|
      ensures t[i].src != t[j].src
    {
      if t[i] == t[j] {
        TwiceIn(t, i, j);
        var c := t[i];
        assert multiset(s)[c] >= 2;
        OnceIn(s, c);
      } else {
        assert t[i] in multiset(s) && t[j] in multiset(s);
        var a :| 0 <= a < |s| && s[a] == t[i];
        var b :| 0 <= b < |s| && s[b] == t[j];
      }
    }
  }

  lemma TwiceIn(t: seq<ActiveEdge>, i: nat, j: nat)
    requires i < j < |t| && t[i] == t[j]
    ensures multiset(t)[t[i]] >= 2
  {
    assert t == t[..i] + [t[i]] + t[i + 1..j] + [t[j]] + t[j + 1..];
  }

  lemma {:induction false} OnceIn(s: seq<ActiveEdge>, c: ActiveEdge)
    requires Distinct(s)
    ensures multiset(s)[c] <= 1
  {
    if s != [] {
      assert s == [s[0]] + s[1..];
      if s[0] == c {
        assert c !in s[1..];
      } else {
        OnceIn(s[1..], c);
      }
    }
  }

  lemma SortedConcat(s: seq<ActiveEdge>, t: seq<ActiveEdge>)
    requires SortedByX(s) && SortedByX(t)
    requires forall i, j :: 0 <= i < |s| && 0 <= j < |t| ==> s[i].x <= t[j].x
    ensures SortedByX(s + t)
  {
  }

  /** What lies on either side of the place a sorted list takes a new edge. */
  lemma InsertPosSplits(l: seq<ActiveEdge>, a: ActiveEdge)
    requires SortedByX(l)
    ensures forall i :: 0 <= i < InsertPos(l, a) ==> l[i].x <= a.x
    ensures forall i :: InsertPos(l, a) <= i < |l| ==> a.x <= l[i].x
  {
    hide LeftRun;
  }

  lemma InsertKeepsSorted(l: seq<ActiveEdge>, a: ActiveEdge)
    requires SortedByX(l)
    ensures SortedByX(Insert(l, a))
  {
    hide InsertPos;
    var k := InsertPos(l, a);
    InsertPosSplits(l, a);
    SortedConcat([a], l[k..]);
    SortedConcat(l[..k], [a] + l[k..]);
    assert Insert(l, a) == l[..k] + ([a] + l[k..]);
  }

  // ---------------------------------------------------------------- one sub-scanline keeps the list exact

  lemma AdvanceKeepsEntries(edges: seq<Edge>, l: seq<ActiveEdge>, next: nat, n: nat)
    requires Table(edges) && next <= |edges| && EntriesOf(edges, l, next, n)
    ensures EntriesOf(edges, Advance(l, Height(n + 1)), next, n + 1)
  {
    var h := Height(n + 1);
    var r := Advance(l, h);
    forall i | 0 <= i < |r|
      ensures r[i].src < next && Live(edges[r[i].src], n + 1) && FirstLine(edges[r[i].src]) <= n
      ensures r[i] == Entry(edges[r[i].src], r[i].src, n + 1)
    {
      AdvanceMembers(l, h, r[i]);
      var b :| b in l && b.ey > h && r[i] == b.(x := b.x + b.dx);
      EntryAdvances(edges[b.src], b.src, n);
    }
  }

  lemma AdvanceKeepsLive(edges: seq<Edge>, l: seq<ActiveEdge>, next: nat, n: nat)
    requires Table(edges) && next <= |edges|
    requires EntriesOf(edges, l, next, n) && HasLive(edges, l, next, n) && Started(edges, next, n)
    ensures HasLive(edges, Advance(l, Height(n + 1)), next, n + 1)
  {
    var h := Height(n + 1);
    var r := Advance(l, h);
    forall k | 0 <= k < next && Live(edges[k], n + 1)
      ensures Has(r, k)
    {
      assert Live(edges[k], n);
      var i :| 0 <= i < |l| && l[i].src == k;
      var a := l[i].(x := l[i].x + l[i].dx);
      assert l[i] in l;
      AdvanceMembers(l, h, a);
      var j :| 0 <= j < |r| && r[j] == a;
    }
  }

  lemma EntryAdvances(e: Edge, src: nat, n: nat)
    requires e.Valid() && FirstLine(e) <= n
    ensures var b := Entry(e, src, n); Entry(e, src, n + 1) == b.(x := b.x + b.dx)
  {
    var a := NewActive(e, src, Height(FirstLine(e)));
    var d := n - FirstLine(e);
    assert (d + 1) * a.dx == d * a.dx + a.dx;
  }

  lemma SortKeepsEntries(edges: seq<Edge>, l: seq<ActiveEdge>, next: nat, n: nat)
    requires Table(edges) && next <= |edges|
    requires EntriesOf(edges, l, next, n) && HasLive(edges, l, next, n) && Distinct(l)
    ensures SortedByX(StableSort(l)) && Distinct(StableSort(l))
    ensures EntriesOf(edges, StableSort(l), next, n) && HasLive(edges, StableSort(l), next, n)
  {
    var r := StableSort(l);
    StableSortFacts(l);
    PermutedDistinct(l, r);
    forall i | 0 <= i < |r|
      ensures exists j :: 0 <= j < |l| && l[j] == r[i]
    {
      assert r[i] in multiset(l);
    }
    forall k | 0 <= k < next && Live(edges[k], n)
      ensures Has(r, k)
    {
      var j :| 0 <= j < |l| && l[j].src == k;
      assert l[j] in multiset(r);
    }
  }

  lemma RoundIsNear(r: real)
    ensures -0.5 <= Round(r) as real - r <= 0.5
  {
  }

  /** To the nearest whole number, and from the middle away from zero. */
  lemma RoundIs(r: real)
    ensures r >= 0.0 ==> Round(r) as real - 0.5 <= r < Round(r) as real + 0.5
    ensures r < 0.0 ==> Round(r) as real - 0.5 < r <= Round(r) as real + 0.5
  {
  }

  lemma StepIsNear(e: Edge)
    requires e.Valid()
    ensures -0.5 <= StepX(e) as real - 1024.0 * Slope(e) <= 0.5
  {
    hide Slope;
    RoundIsNear(1024.0 * Slope(e));
    RoundIsNear(1024.0 * -Slope(e));
  }

  /** Where the line of an edge is at height h. */
  function LineX(e: Edge, h: real): real
    requires e.Valid()
  {
    e.x0 + Slope(e) * (h - e.y0)
  }

  lemma LineAdvances(e: Edge, n: nat)
    requires e.Valid()
    ensures LineX(e, Height(n + 1)) == LineX(e, Height(n)) + Slope(e)
  {
    hide Slope;
    assert Height(n + 1) == Height(n) + 1.0;
    assert Slope(e) * (Height(n) + 1.0 - e.y0) == Slope(e) * (Height(n) - e.y0) + Slope(e);
  }

  lemma {:induction false} EntryIsNearLineX(e: Edge, src: nat, n: nat)
    requires e.Valid() && FirstLine(e) <= n
    ensures var drift := Entry(e, src, n).x as real - 1024.0 * LineX(e, Height(n));
      var bound := (n - FirstLine(e) + 1) as real / 2.0;
      -bound <= drift <= bound
  {
    hide FirstLine, StepX, LineX;
    if n == FirstLine(e) {
      StartIsNear(e, Height(n));
    } else {
      EntryIsNearLineX(e, src, n - 1);
      EntryAdvances(e, src, n - 1);
      StepIsNear(e);
      LineAdvances(e, n - 1);
    }
  }

  /** The line goes through both ends of the edge. */
  lemma LineIsThroughEnds(e: Edge, h: real)
    requires e.Valid()
    ensures LineX(e, h) * (e.y1 - e.y0) == e.x0 * (e.y1 - e.y0) + (e.x1 - e.x0) * (h - e.y0)
    ensures LineX(e, e.y0) == e.x0 && LineX(e, e.y1) == e.x1
  {
    var dx, dy, k := e.x1 - e.x0, e.y1 - e.y0, Slope(e);
    assert k * dy == dx;
    assert (k * (h - e.y0)) * dy == (k * dy) * (h - e.y0);
  }

  /** How far a fixed-point x, in 1024ths of a pixel, is from where the line through the ends of the
      edge is at height h, which is x0 + (x1 - x0) * (h - y0) / (y1 - y0); multiplied by y1 - y0. */
  function Away(e: Edge, x: int, h: real): real {
    var dx, dy := e.x1 - e.x0, e.y1 - e.y0;
    x as real * dy - 1024.0 * (e.x0 * dy + dx * (h - e.y0))
  }

  predicate NearLine(e: Edge, x: int, h: real, bound: real) {
    -(bound * (e.y1 - e.y0)) <= Away(e, x, h) <= bound * (e.y1 - e.y0)
  }

  lemma NearLineIs(e: Edge, x: int, h: real, m: real)
    requires e.Valid() && -m <= x as real - 1024.0 * LineX(e, h) <= m
    ensures NearLine(e, x, h, m)
  {
    var dy, l := e.y1 - e.y0, LineX(e, h);
    LineIsThroughEnds(e, h);
    assert (m - (x as real - 1024.0 * l)) * dy >= 0.0 && (m + (x as real - 1024.0 * l)) * dy >= 0.0;
    assert (m - (x as real - 1024.0 * l)) * dy == m * dy - x as real * dy + 1024.0 * (l * dy);
    assert (m + (x as real - 1024.0 * l)) * dy == m * dy + x as real * dy - 1024.0 * (l * dy);
    hide LineX;
  }

  /** The rounded steps drift from the line by half a unit for each of them, and one more half for
      the start. */
  lemma EntryIsNearLine(e: Edge, src: nat, n: nat)
    requires e.Valid() && FirstLine(e) <= n
    ensures NearLine(e, Entry(e, src, n).x, n as real + 0.5, (n - FirstLine(e) + 1) as real / 2.0)
  {
    EntryIsNearLineX(e, src, n);
    NearLineIs(e, Entry(e, src, n).x, Height(n), (n - FirstLine(e) + 1) as real / 2.0);
    hide LineX, Entry, FirstLine, NearLine;
  }

  lemma StartIsNear(e: Edge, h: real)
    requires e.Valid()
    ensures -0.5 <= StartX(e, h) as real - 1024.0 * LineX(e, h) <= 0.5
  {
    hide Slope;
    RoundIsNear(1024.0 * (e.x0 + Slope(e) * (h - e.y0)));
  }

  lemma EntryStarts(e: Edge, src: nat, n: nat)
    requires e.Valid() && e.y0 <= Height(n) && (n > 0 ==> Height(n - 1) < e.y0)
    ensures FirstLine(e) == n && Entry(e, src, n) == NewActive(e, src, Height(n))
  {
  }

  /** A started edge that was not started one sub-scanline earlier enters at its start position:
      the x of its line at this height, rounded. */
  lemma EntryAtStart(e: Edge, src: nat, n: nat)
    requires e.Valid() && e.y0 <= n as real + 0.5 && (n > 0 ==> (n - 1) as real + 0.5 < e.y0)
    ensures var a := Entry(e, src, n);
      a == NewActive(e, src, Height(n)) && NearLine(e, a.x, n as real + 0.5, 0.5) && a.ey == e.y1 && a.dir == e.dir && a.src == src
  {
    EntryStarts(e, src, n);
    EntryIsNearLine(e, src, n);
    hide StartX, StepX, NearLine;
  }

  lemma InsertKeepsDistinct(edges: seq<Edge>, l: seq<ActiveEdge>, k: nat, n: nat, a: ActiveEdge)
    requires Table(edges) && k < |edges| && Distinct(l) && EntriesOf(edges, l, k, n) && a.src == k
    ensures Distinct(Insert(l, a))
  {
  }

  lemma InsertKeepsEntries(edges: seq<Edge>, l: seq<ActiveEdge>, k: nat, n: nat, a: ActiveEdge)
    requires Table(edges) && k < |edges| && EntriesOf(edges, l, k, n)
    requires Live(edges[k], n) && FirstLine(edges[k]) <= n && a == Entry(edges[k], k, n)
    ensures EntriesOf(edges, Insert(l, a), k + 1, n)
  {
    var r, pos := Insert(l, a), InsertPos(l, a);
    forall i | 0 <= i < |r|
      ensures r[i] == a || exists j :: 0 <= j < |l| && r[i] == l[j]
    {
      if i < pos {
        assert r[i] == l[i];
      } else if i > pos {
        assert r[i] == l[i - 1];
      }
    }
  }

  lemma InsertKeepsLive(edges: seq<Edge>, l: seq<ActiveEdge>, k: nat, n: nat, a: ActiveEdge)
    requires k < |edges| && HasLive(edges, l, k, n) && a.src == k
    ensures HasLive(edges, Insert(l, a), k + 1, n)
  {
    var r, pos := Insert(l, a), InsertPos(l, a);
    assert r[pos].src == k;
    forall j | 0 <= j < k && Live(edges[j], n)
      ensures Has(r, j)
    {
      var i :| 0 <= i < |l| && l[i].src == j;
      assert r[if i < pos then i else i + 1] == l[i];
    }
  }

  lemma {:induction false} InsertRangeExact(edges: seq<Edge>, l: seq<ActiveEdge>, k: nat, e: nat, n: nat)
    requires Table(edges) && k <= e <= |edges|
    requires SortedByX(l) && Distinct(l) && EntriesOf(edges, l, k, n) && HasLive(edges, l, k, n)
    requires forall i :: k <= i < e ==> edges[i].y0 <= Height(n) && (n > 0 ==> Height(n - 1) < edges[i].y0)
    ensures var r := InsertRange(edges, l, k, e, Height(n));
            SortedByX(r) && Distinct(r) && EntriesOf(edges, r, e, n) && HasLive(edges, r, e, n)
    decreases e - k
  {
    hide StartX, StepX, Insert, Entry;
    if k < e {
      if edges[k].y1 > Height(n) {
        EntryStarts(edges[k], k, n);
        var a := NewActive(edges[k], k, Height(n));
        InsertKeepsSorted(l, a);
        InsertKeepsDistinct(edges, l, k, n, a);
        InsertKeepsEntries(edges, l, k, n, a);
        InsertKeepsLive(edges, l, k, n, a);
        InsertRangeExact(edges, Insert(l, a), k + 1, e, n);
      } else {
        InsertRangeExact(edges, l, k + 1, e, n);
      }
    }
  }

  lemma StartedFromExact(edges: seq<Edge>, k: nat, n: nat)
    requires Table(edges) && k <= |edges|
    requires forall i :: 0 <= i < k ==> edges[i].y0 <= Height(n)
    ensures Started(edges, StartedFrom(edges, k, Height(n)), n)
  {
    var s := StartedFrom(edges, k, Height(n));
    forall i | s <= i < |edges|
      ensures edges[i].y0 > Height(n)
    {
      assert edges[s].y0 <= edges[i].y0;
    }
  }

  /** From an advanced list, one round of sorting and insertion restores exactness. */
  lemma RoundIsExact(edges: seq<Edge>, l: seq<ActiveEdge>, next: nat, n: nat)
    requires Table(edges) && next <= |edges|
    requires Distinct(l) && EntriesOf(edges, l, next, n) && HasLive(edges, l, next, n)
    requires forall i :: 0 <= i < next ==> edges[i].y0 <= Height(n)
    requires n > 0 ==> forall i :: next <= i < |edges| ==> Height(n - 1) < edges[i].y0
    ensures var e := StartedFrom(edges, next, Height(n));
            Exact(edges, InsertRange(edges, StableSort(l), next, e, Height(n)), e, n)
  {
    SortKeepsEntries(edges, l, next, n);
    StartedFromExact(edges, next, n);
    InsertRangeExact(edges, StableSort(l), next, StartedFrom(edges, next, Height(n)), n);
  }

  ghost predicate ExactState(edges: seq<Edge>, s: State, n: nat)
    requires Table(edges)
  {
    s.next <= |edges| && Exact(edges, s.active, s.next, n)
  }

  lemma FirstLineIsExact(edges: seq<Edge>)
    requires Table(edges)
    ensures ExactState(edges, NextState(edges, State([], 0), 0), 0)
  {
    RoundIsExact(edges, [], 0, 0);
  }

  lemma NextLineIsExact(edges: seq<Edge>, s: State, n: nat)
    requires Table(edges) && ExactState(edges, s, n)
    ensures ExactState(edges, NextState(edges, s, n + 1), n + 1)
  {
    AdvanceKeepsEntries(edges, s.active, s.next, n);
    AdvanceKeepsLive(edges, s.active, s.next, n);
    AdvanceDistinct(s.active, Height(n + 1));
    assert forall i :: 0 <= i < s.next ==> edges[i].y0 <= Height(n);
    RoundIsExact(edges, Advance(s.active, Height(n + 1)), s.next, n + 1);
  }

  lemma StateStep(edges: seq<Edge>, n: nat)
    requires Table(edges)
    ensures StateAfter(edges, n + 1) == NextState(edges, StateAfter(edges, n), n)
    ensures StateAfter(edges, 0) == State([], 0)
  {
  }

  /** Sweep correctness: on every sub-scanline the active list is sorted by x and holds
      exactly the edges that cross its height, each once, each at its own position. */
  lemma {:induction false} SweepIsExact(edges: seq<Edge>, n: nat)
    requires Table(edges)
    ensures ExactState(edges, StateAfter(edges, n + 1), n)
  {
    hide NextState, Exact;
    var s, t := StateAfter(edges, n), NextState(edges, StateAfter(edges, n), n);
    assert StateAfter(edges, n + 1) == t by {
      StateStep(edges, n);
    }
    assert ExactState(edges, t, n) by {
      if n == 0 {
        FirstLineIsExact(edges);
      } else {
        SweepIsExact(edges, n - 1);
        assert ExactState(edges, s, n - 1);
        NextLineIsExact(edges, s, n - 1);
      }
    }
  }

  // ---------------------------------------------------------------- directions on the list

  /** The directions of the entries for table indices below k. */
  function DirsBelow(l: seq<ActiveEdge>, k: nat): int {
    if l == [] then 0 else (if l[0].src < k then l[0].dir else 0) + DirsBelow(l[1..], k)
  }

  lemma {:induction false} DirsBelowStep(l: seq<ActiveEdge>, k: nat, i: int)
    requires Distinct(l)
    requires if 0 <= i < |l| then l[i].src == k else forall j :: 0 <= j < |l| ==> l[j].src != k
    ensures DirsBelow(l, k + 1) == DirsBelow(l, k) + if 0 <= i < |l| then l[i].dir else 0
  {
    if l != [] {
      if i == 0 {
        assert forall j :: 0 <= j < |l[1..]| ==> l[1..][j].src != k;
        DirsBelowStep(l[1..], k, -1);
      } else if 0 <= i < |l| {
        DirsBelowStep(l[1..], k, i - 1);
      } else {
        DirsBelowStep(l[1..], k, -1);
      }
    }
  }

  lemma {:induction false} DirsBelowAll(l: seq<ActiveEdge>, k: nat)
    ensures (forall i :: 0 <= i < |l| ==> l[i].src < k) ==> DirsBelow(l, k) == DirSum(l)
    ensures DirsBelow(l, 0) == 0
  {
    if l != [] {
      DirsBelowAll(l[1..], k);
    }
  }

  lemma {:induction false} DirsBelowIsCrossSum(edges: seq<Edge>, l: seq<ActiveEdge>, next: nat, n: nat, k: nat)
    requires Table(edges) && next <= |edges| && Exact(edges, l, next, n) && k <= |edges|
    ensures DirsBelow(l, k) == CrossSum(edges[..k], Height(n))
  {
    if k == 0 {
      DirsBelowAll(l, 0);
    } else {
      DirsBelowIsCrossSum(edges, l, next, n, k - 1);
      assert edges[..k] == edges[..k - 1] + [edges[k - 1]];
      CrossSumConcat(edges[..k - 1], [edges[k - 1]], Height(n));
      if Live(edges[k - 1], n) {
        assert Has(l, k - 1);
        var i :| 0 <= i < |l| && l[i].src == k - 1;
        DirsBelowStep(l, k - 1, i);
        assert l[i].dir == edges[k - 1].dir;
      } else {
        DirsBelowStep(l, k - 1, -1);
      }
    }
  }

  /** The directions on the active list add up to the outline's net crossing at this height. */
  lemma ActiveDirections(edges: seq<Edge>, n: nat)
    requires Table(edges)
    ensures DirSum(ActiveAt(edges, n)) == CrossSum(edges, Height(n))
    ensures UnitDirs(ActiveAt(edges, n)) && SortedByX(ActiveAt(edges, n))
  {
    var l, next := ActiveAt(edges, n), StateAfter(edges, n + 1).next;
    SweepIsExact(edges, n);
    DirsBelowIsCrossSum(edges, l, next, n, |edges|);
    DirsBelowAll(l, |edges|);
    assert edges[..|edges|] == edges;
  }

  /** Fills always close: the sweep over a balanced table, sorted in any way, leaves no open
      span on any sub-scanline under either fill rule. */
  lemma FillsClose(edges: seq<Edge>, table: seq<Edge>, rule: FillRule, n: nat)
    requires Balanced(edges) && Table(table) && multiset(table) == multiset(edges)
    ensures Final(rule, 0, ActiveAt(table, n)) == 0
  {
    ActiveDirections(table, n);
    CrossSumPermuted(table, edges, Height(n));
    BalancedCloses(rule, ActiveAt(table, n));
  }

  // ---------------------------------------------------------------- weight of a row

  function SumOver(f: nat -> nat, lo: nat, s: nat): nat {
    if s == 0 then 0 else SumOver(f, lo, s - 1) + f(lo + s - 1)
  }

  lemma {:induction false} SumBound(f: nat -> nat, lo: nat, s: nat, bound: nat)
    ensures (forall n :: lo <= n < lo + s ==> f(n) <= bound) ==> SumOver(f, lo, s) <= s * bound
    ensures (forall n :: lo <= n < lo + s ==> f(n) == bound) ==> SumOver(f, lo, s) == s * bound
  {
    if s > 0 {
      SumBound(f, lo, s - 1, bound);
      assert s * bound == (s - 1) * bound + bound;
    }
  }

  /** What sub-scanline n adds to pixel p. */
  function LineWeight(edges: seq<Edge>, rule: FillRule, p: int): nat -> nat
    requires Table(edges)
  {
    n => TotalAdded(Spans(rule, ActiveAt(edges, n)), p, MAX_WEIGHT)
  }

  /** What the first s sub-scanlines of row y add to pixel p. */
  function RowWeight(edges: seq<Edge>, rule: FillRule, y: nat, p: int, s: nat): nat
    requires Table(edges)
  {
    SumOver(LineWeight(edges, rule, p), y * SUBSAMPLES, s)
  }

  lemma LineBound(edges: seq<Edge>, rule: FillRule, n: nat, p: int)
    requires Table(edges)
    ensures LineWeight(edges, rule, p)(n) <= MAX_WEIGHT
  {
    ActiveDirections(edges, n);
    SubScanlineBound(rule, ActiveAt(edges, n), p, MAX_WEIGHT);
  }

  /** Coverage never wraps: s sub-scanlines add at most s times their weight. */
  lemma RowWeightBound(edges: seq<Edge>, rule: FillRule, y: nat, p: int, s: nat)
    requires Table(edges)
    ensures RowWeight(edges, rule, y, p, s) <= s * MAX_WEIGHT
    ensures s <= SUBSAMPLES ==> RowWeight(edges, rule, y, p, s) <= 255
  {
    hide ActiveAt, Spans, TotalAdded;
    var f := LineWeight(edges, rule, p);
    forall n | y * SUBSAMPLES <= n < y * SUBSAMPLES + s
      ensures f(n) <= MAX_WEIGHT
    {
      LineBound(edges, rule, n, p);
    }
    SumBound(f, y * SUBSAMPLES, s, MAX_WEIGHT);
  }

  /** The coverage byte of pixel p in row y. */
  function RowCover(edges: seq<Edge>, rule: FillRule, y: nat, p: int): byte
    requires Table(edges)
  {
    RowWeightBound(edges, rule, y, p, SUBSAMPLES);
    RowWeight(edges, rule, y, p, SUBSAMPLES)
  }

  /** One more sub-scanline drawn into the row: no byte wraps around. */
  lemma RowWeightStep(edges: seq<Edge>, rule: FillRule, y: nat, p: int, s: nat)
    requires Table(edges) && s < SUBSAMPLES
    ensures RowWeight(edges, rule, y, p, s + 1)
         == RowWeight(edges, rule, y, p, s)
            + TotalAdded(Spans(rule, ActiveAt(edges, y * SUBSAMPLES + s)), p, MAX_WEIGHT)
    ensures RowWeight(edges, rule, y, p, s + 1) <= 255
  {
    hide ActiveAt, Spans, TotalAdded;
    RowWeightBound(edges, rule, y, p, s + 1);
  }

  /** The row holds the weight of the first s sub-scanlines, all of it inside the window. */
  ghost predicate RowDrawn(row: seq<byte>, width: nat, edges: seq<Edge>, rule: FillRule, y: nat, s: nat,
                           lo: int, hi: int)
    requires Table(edges)
  {
    && width <= |row|
    && forall p :: 0 <= p < width ==>
         row[p] == RowWeight(edges, rule, y, p, s) && (row[p] > 0 ==> lo <= p <= hi)
  }

  lemma RowCleared(row: seq<byte>, width: nat, edges: seq<Edge>, rule: FillRule, y: nat, lo: int, hi: int)
    requires Table(edges) && width <= |row| && forall p :: 0 <= p < width ==> row[p] == 0
    ensures RowDrawn(row, width, edges, rule, y, 0, lo, hi)
  {
    hide LineWeight;
  }

  lemma RowComplete(row: seq<byte>, width: nat, edges: seq<Edge>, rule: FillRule, y: nat, lo: int, hi: int)
    requires Table(edges) && RowDrawn(row, width, edges, rule, y, SUBSAMPLES, lo, hi)
    ensures forall p :: 0 <= p < width ==> row[p] == RowCover(edges, rule, y, p)
    ensures forall p :: 0 <= p < width && RowCover(edges, rule, y, p) > 0 ==> lo <= p <= hi
  {
    hide RowWeight;
  }

  /** Filling sub-scanline y * 5 + s advances the row. */
  lemma RowAdvance(was: seq<byte>, row: seq<byte>, width: nat, edges: seq<Edge>, rule: FillRule, y: nat, s: nat,
                   lo: int, hi: int)
    requires Table(edges) && s < SUBSAMPLES && RowDrawn(was, width, edges, rule, y, s, lo, hi) && width <= |row|
    requires forall p :: 0 <= p < width ==>
               row[p] == (was[p] + TotalAdded(Spans(rule, ActiveAt(edges, y * SUBSAMPLES + s)), p, MAX_WEIGHT)) % 256
    ensures var spans := Spans(rule, ActiveAt(edges, y * SUBSAMPLES + s));
            RowDrawn(row, width, edges, rule, y, s + 1, WindowMin(spans, lo), WindowMax(spans, hi))
  {
    hide RowWeight, TotalAdded, Spans, ActiveAt, WindowMin, WindowMax;
    var spans := Spans(rule, ActiveAt(edges, y * SUBSAMPLES + s));
    WindowOnlyWidens(spans, lo, hi);
    forall p | 0 <= p < width
      ensures row[p] == RowWeight(edges, rule, y, p, s + 1)
      ensures row[p] > 0 ==> WindowMin(spans, lo) <= p <= WindowMax(spans, hi)
    {
      RowWeightStep(edges, rule, y, p, s);
      if TotalAdded(spans, p, MAX_WEIGHT) > 0 {
        WindowCoversWeight(spans, lo, hi, p, MAX_WEIGHT);
      }
    }
  }

  lemma CoveredLine(edges: seq<Edge>, rule: FillRule, n: nat, p: int, span: Span)
    requires Table(edges) && span in Spans(rule, ActiveAt(edges, n)) && span.x0 <= 1024 * p && 1024 * p + 1024 <= span.x1
    ensures LineWeight(edges, rule, p)(n) == MAX_WEIGHT
  {
    ActiveDirections(edges, n);
    var k :| 0 <= k < |Spans(rule, ActiveAt(edges, n))| && Spans(rule, ActiveAt(edges, n))[k] == span;
    FullPixel(rule, ActiveAt(edges, n), p, MAX_WEIGHT, k);
  }

  /** A pixel inside a span on all five sub-scanlines is fully covered. */
  lemma FullyCovered(edges: seq<Edge>, rule: FillRule, y: nat, p: int, span: nat -> Span)
    requires Table(edges)
    requires forall n :: 5 * y <= n < 5 * y + 5 ==>
               span(n) in Spans(rule, ActiveAt(edges, n)) && span(n).x0 <= 1024 * p && 1024 * p + 1024 <= span(n).x1
    ensures RowCover(edges, rule, y, p) == 255
  {
    hide ActiveAt, Spans, TotalAdded;
    var f := LineWeight(edges, rule, p);
    forall n | y * SUBSAMPLES <= n < y * SUBSAMPLES + SUBSAMPLES
      ensures f(n) == MAX_WEIGHT
    {
      CoveredLine(edges, rule, n, p, span(n));
    }
    SumBound(f, y * SUBSAMPLES, SUBSAMPLES, MAX_WEIGHT);
  }

  // ---------------------------------------------------------------- the loops

  /** Removing finished edges and advancing the others, in one walk along the list. */
  method AdvanceList(l: seq<ActiveEdge>, h: real) returns (r: seq<ActiveEdge>)
    ensures r == Advance(l, h)
  {
    r := l;
    var k := 0;
    while k < |r|
      invariant 0 <= k <= |r|
      invariant r[..k] + Advance(r[k..], h) == Advance(l, h)
      decreases |r| - k
    {
      var z := r[k];
      assert r[k..] == [z] + r[k + 1..];
      if z.ey <= h {
        ghost var was := r;
        r := r[..k] + r[k + 1..];
        assert r[k..] == was[k + 1..];
      } else {
        ghost var was := r;
        r := r[k := z.(x := z.x + z.dx)];
        k := k + 1;
        assert r[k..] == was[k..] && r[..k] == was[..k - 1] + [r[k - 1]];
      }
    }
  }

  // Pairs out of order.
  function CountLeftOf(l: seq<ActiveEdge>, x: int): nat {
    if l == [] then 0 else (if l[0].x < x then 1 else 0) + CountLeftOf(l[1..], x)
  }

  function Inversions(l: seq<ActiveEdge>): nat {
    if l == [] then 0 else CountLeftOf(l[1..], l[0].x) + Inversions(l[1..])
  }

  function Swapped(l: seq<ActiveEdge>, i: nat): (r: seq<ActiveEdge>)
    requires i + 1 < |l|
    ensures |r| == |l|
  {
    l[i := l[i + 1]][i + 1 := l[i]]
  }

  lemma {:induction false} CountSwapped(l: seq<ActiveEdge>, i: nat, x: int)
    requires i + 1 < |l|
    ensures CountLeftOf(Swapped(l, i), x) == CountLeftOf(l, x)
  {
    var r := Swapped(l, i);
    if i == 0 {
      assert r[1..][1..] == l[1..][1..];
    } else {
      assert r[1..] == Swapped(l[1..], i - 1);
      CountSwapped(l[1..], i - 1, x);
    }
  }

  /** Exchanging two neighbours that are out of order removes exactly one inversion. */
  lemma {:induction false} SwapRemovesInversion(l: seq<ActiveEdge>, i: nat)
    requires i + 1 < |l| && l[i].x > l[i + 1].x
    ensures Inversions(Swapped(l, i)) == Inversions(l) - 1
  {
    var r := Swapped(l, i);
    if i == 0 {
      assert r[1..][1..] == l[1..][1..];
    } else {
      assert r[1..] == Swapped(l[1..], i - 1);
      CountSwapped(l[1..], i - 1, l[0].x);
      SwapRemovesInversion(l[1..], i - 1);
    }
  }

  lemma {:induction false} SortInsertCommutes(a: ActiveEdge, b: ActiveEdge, l: seq<ActiveEdge>)
    requires a.x != b.x
    ensures SortInsert(a, SortInsert(b, l)) == SortInsert(b, SortInsert(a, l))
  {
    if l != [] && a.x > l[0].x && b.x > l[0].x {
      SortInsertCommutes(a, b, l[1..]);
      assert SortInsert(a, l)[1..] == SortInsert(a, l[1..]);
      assert SortInsert(b, l)[1..] == SortInsert(b, l[1..]);
    }
  }

  /** Such an exchange does not change what the list sorts to, stability included. */
  lemma {:induction false} SwapKeepsSort(l: seq<ActiveEdge>, i: nat)
    requires i + 1 < |l| && l[i].x != l[i + 1].x
    ensures StableSort(Swapped(l, i)) == StableSort(l)
  {
    var r := Swapped(l, i);
    if i == 0 {
      assert r[1..][1..] == l[1..][1..];
      SortInsertCommutes(l[0], l[1], StableSort(l[1..][1..]));
    } else {
      assert r[1..] == Swapped(l[1..], i - 1);
      SwapKeepsSort(l[1..], i - 1);
    }
  }

  lemma {:induction false} SortOfSorted(l: seq<ActiveEdge>)
    requires SortedByX(l)
    ensures StableSort(l) == l
  {
    if l != [] {
      SortOfSorted(l[1..]);
    }
  }

  /** One pass of neighbour exchanges. */
  method BubblePass(l: seq<ActiveEdge>) returns (r: seq<ActiveEdge>, changed: bool)
    ensures StableSort(r) == StableSort(l)
    ensures changed ==> Inversions(r) < Inversions(l)
    ensures !changed ==> r == l && SortedByX(l)
  {
    r, changed := l, false;
    var i := 0;
    while i + 1 < |r|
      invariant 0 <= i && (|l| > 0 ==> i < |l|) && |r| == |l|
      invariant StableSort(r) == StableSort(l)
      invariant if changed then Inversions(r) < Inversions(l)
                else r == l && forall a, b :: 0 <= a < b <= i && b < |l| ==> l[a].x <= l[b].x
    {
      if r[i].x > r[i + 1].x {
        SwapKeepsSort(r, i);
        SwapRemovesInversion(r, i);
        r, changed := Swapped(r, i), true;
      }
      i := i + 1;
    }
  }

  /** Passes until nothing changes: the stable sort, because inversions run out. */
  method Resort(l: seq<ActiveEdge>) returns (r: seq<ActiveEdge>)
    ensures r == StableSort(l)
  {
    r := l;
    var changed := true;
    while changed
      invariant StableSort(r) == StableSort(l)
      invariant !changed ==> SortedByX(r)
      decreases Inversions(r), changed
    {
      r, changed := BubblePass(r);
    }
    SortOfSorted(r);
  }

  lemma {:induction false} LeftRunIs(l: seq<ActiveEdge>, x: int, k: nat)
    requires k <= |l|
    requires forall i :: 0 <= i < k ==> l[i].x < x
    requires k < |l| ==> l[k].x >= x
    ensures LeftRun(l, x) == k
  {
    if k > 0 {
      LeftRunIs(l[1..], x, k - 1);
    }
  }

  method InsertOne(l: seq<ActiveEdge>, z: ActiveEdge) returns (r: seq<ActiveEdge>)
    ensures r == Insert(l, z)
  {
    if l == [] {
      r := [z];
    } else if z.x < l[0].x {
      r := [z] + l;
    } else {
      var p := 0;
      while p + 1 < |l| && l[p + 1].x < z.x
        invariant 0 <= p < |l|
        invariant forall i :: 1 <= i <= p ==> l[i].x < z.x
      {
        p := p + 1;
      }
      LeftRunIs(l[1..], z.x, p);
      r := l[..p + 1] + [z] + l[p + 1..];
    }
  }

  lemma InsertRangeStep(edges: seq<Edge>, l: seq<ActiveEdge>, k: nat, e: nat, h: real)
    requires Table(edges) && k <= e <= |edges|
    ensures k == e ==> InsertRange(edges, l, k, e, h) == l
    ensures k < e && edges[k].y1 > h ==>
      InsertRange(edges, l, k, e, h) == InsertRange(edges, Insert(l, NewActive(edges[k], k, h)), k + 1, e, h)
    ensures k < e && edges[k].y1 <= h ==> InsertRange(edges, l, k, e, h) == InsertRange(edges, l, k + 1, e, h)
  {
    hide Insert, NewActive;
  }

  /** Inserting the edges that start by height h, and moving the table index past them. */
  method InsertStarted(edges: seq<Edge>, l: seq<ActiveEdge>, next: nat, h: real)
    returns (r: seq<ActiveEdge>, e: nat)
    requires Table(edges) && next <= |edges|
    ensures e == StartedFrom(edges, next, h)
    ensures r == InsertRange(edges, l, next, e, h)
  {
    hide Insert, NewActive, StartedFrom, InsertRange;
    r, e := l, next;
    ghost var last := StartedFrom(edges, next, h);
    while e < |edges| && edges[e].y0 <= h
      invariant next <= e <= last
      invariant InsertRange(edges, r, e, last, h) == InsertRange(edges, l, next, last, h)
    {
      InsertRangeStep(edges, r, e, last, h);
      if edges[e].y1 > h {
        r := InsertOne(r, NewActive(edges[e], e, h));
      }
      e := e + 1;
    }
    InsertRangeStep(edges, r, e, last, h);
  }
}
