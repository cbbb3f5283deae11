/** Gradient stops and the 256-entry colour ramp built from them.

  Parsing inserts each stop into an array ordered by offset; painting a gradient first
  expands that array into a ramp that the pixel loops index directly.  Offsets and opacities
  are exact reals; a packed 32-bit colour is a record of its four bytes.
 */
module Gradient {
  import opened Bytes

  datatype Rgba = Rgba(r: byte, g: byte, b: byte, a: byte)

  datatype Stop = Stop(color: Rgba, offset: real)

  // ---------------------------------------------------------------- ordered insertion

  predicate SortedByOffset(s: seq<Stop>) {
    forall i, j :: 0 <= i < j < |s| ==> s[i].offset <= s[j].offset
  }

  /** The stops in the order of their offsets, the new one behind its equals. */
  function InsertStop(s: seq<Stop>, x: Stop): (r: seq<Stop>)
    ensures |r| == |s| + 1
  {
    if s == [] then [x]
    else if x.offset < s[0].offset then [x] + s
    else [s[0]] + InsertStop(s[1..], x)
  }

  function InsertAll(input: seq<Stop>): seq<Stop> {
    if input == [] then [] else InsertStop(InsertAll(input[..|input| - 1]), input[|input| - 1])
  }

  /** The stops that share one offset, in list order. */
  function AtOffset(s: seq<Stop>, v: real): seq<Stop> {
    if s == [] then []
    else if s[0].offset == v then [s[0]] + AtOffset(s[1..], v)
    else AtOffset(s[1..], v)
  }

  lemma {:induction false} InsertKeepsOrder(s: seq<Stop>, x: Stop, m: real)
    requires SortedByOffset(s)
    requires m <= x.offset && forall i :: 0 <= i < |s| ==> m <= s[i].offset
    ensures SortedByOffset(InsertStop(s, x))
    ensures forall i :: 0 <= i < |s| + 1 ==> m <= InsertStop(s, x)[i].offset
  {
    if s != [] && s[0].offset <= x.offset {
      InsertKeepsOrder(s[1..], x, s[0].offset);
      assert InsertStop(s, x)[1..] == InsertStop(s[1..], x);
    }
  }

  lemma {:induction false} InsertBehindEquals(s: seq<Stop>, x: Stop, v: real)
    requires SortedByOffset(s)
    ensures AtOffset(InsertStop(s, x), v) == AtOffset(s, v) + if x.offset == v then [x] else []
  {
    if s == [] {
    } else if x.offset < s[0].offset {
      assert ([x] + s)[1..] == s;
      if x.offset == v {
        NoneAtOffset(s, v);
      }
    } else {
      InsertBehindEquals(s[1..], x, v);
      assert InsertStop(s, x)[1..] == InsertStop(s[1..], x);
    }
  }

  lemma {:induction false} NoneAtOffset(s: seq<Stop>, v: real)
    requires forall i :: 0 <= i < |s| ==> s[i].offset != v
    ensures AtOffset(s, v) == []
  {
    if s != [] {
      NoneAtOffset(s[1..], v);
    }
  }

  /** Any sequence of stop elements ends up sorted, and stops with equal offsets keep the
      order in which they were parsed. */
  lemma {:induction false} ParsedStopsSortedAndStable(input: seq<Stop>, v: real)
    ensures |InsertAll(input)| == |input|
    ensures SortedByOffset(InsertAll(input))
    ensures AtOffset(InsertAll(input), v) == AtOffset(input, v)
  {
    if input != [] {
      var init, x := input[..|input| - 1], input[|input| - 1];
      ParsedStopsSortedAndStable(init, v);
      var sorted := InsertAll(init);
      var m := if |sorted| > 0 && sorted[0].offset < x.offset then sorted[0].offset else x.offset;
      InsertKeepsOrder(sorted, x, m);
      InsertBehindEquals(sorted, x, v);
      AtOffsetLast(input, v);
    }
  }

  lemma {:induction false} AtOffsetLast(s: seq<Stop>, v: real)
    requires s != []
    ensures AtOffset(s, v) == AtOffset(s[..|s| - 1], v) + if s[|s| - 1].offset == v then [s[|s| - 1]] else []
  {
    if |s| > 1 {
      AtOffsetLast(s[1..], v);
      assert s[1..][..|s| - 2] == s[..|s| - 1][1..];
    }
  }

  lemma {:induction false} InsertStopAt(s: seq<Stop>, x: Stop, k: nat)
    requires k <= |s|
    requires forall i :: 0 <= i < k ==> !(x.offset < s[i].offset)
    requires k < |s| ==> x.offset < s[k].offset
    ensures InsertStop(s, x) == s[..k] + [x] + s[k..]
  {
    if k == 0 {
      assert s[..0] + [x] + s[0..] == [x] + s;
    } else {
      var t := s[1..];
      InsertStopAt(t, x, k - 1);
      calc {
        InsertStop(s, x);
        [s[0]] + (t[..k - 1] + [x] + t[k - 1..]);
        { assert t[k - 1..] == s[k..]; }
        ([s[0]] + t[..k - 1]) + [x] + s[k..];
        { assert [s[0]] + t[..k - 1] == s[..k]; }
        s[..k] + [x] + s[k..];
      }
    }
  }

  /** The stops of the gradient element being parsed. */
  class GradientData {
    var stops: array<Stop>

    constructor ()
      ensures fresh(stops) && stops[..] == []
    {
      stops := new Stop[0];
    }

    /** The loop that moves everything from idx on up by one; the last place is free. */
    method ShiftTail(t: array<Stop>, idx: nat)
      requires idx < t.Length
      modifies t
      ensures t[..idx] == old(t[..idx]) && t[idx + 1..] == old(t[idx..t.Length - 1])
    {
      var i := t.Length - 1;
      while i > idx
        invariant idx <= i < t.Length
        invariant forall k :: 0 <= k <= i && k < t.Length - 1 ==> t[k] == old(t[k])
        invariant forall k :: i < k < t.Length ==> t[k] == old(t[k - 1])
      {
        t[i] := t[i - 1];
        i := i - 1;
      }
    }

    /** nsvg__parseGradientStop: grow by one, shift the tail up, store the new stop. */
    method AddStop(x: Stop)
      modifies this, stops
      ensures fresh(stops)
      ensures stops[..] == InsertStop(old(stops[..]), x)
    {
      var s := stops;
      ghost var was := s[..];
      var n := s.Length;
      var t := new Stop[n + 1](i requires 0 <= i < n + 1 reads s => if i < n then s[i] else x);
      var idx, i := n, 0;
      while i < n
        invariant 0 <= i <= n && idx == n
        invariant forall k :: 0 <= k < i ==> !(x.offset < was[k].offset)
      {
        if x.offset < t[i].offset {
          idx := i;
          break;
        }
        i := i + 1;
      }
      ghost var grown := t[..];
      assert grown[..n] == was;
      assert grown[..idx] == was[..idx] && grown[idx..n] == was[idx..];
      if idx != n {
        ShiftTail(t, idx);
      }
      assert t[..idx] == was[..idx] && t[idx + 1..] == was[idx..];
      t[idx] := x;
      assert t[..idx] == was[..idx] && t[idx + 1..] == was[idx..];
      stops := t;
      InsertStopAt(was, x, idx);
      assert t[..] == was[..idx] + [x] + was[idx..];
    }
  }

  // ---------------------------------------------------------------- colour arithmetic

  function Clamp(a: real, mn: real, mx: real): real {
    if a < mn then mn else if a > mx then mx else a
  }

  /** A share of the way in 1/256 steps. */
  function Share(u: real): (iu: nat)
    ensures iu <= 256
    ensures u <= 0.0 ==> iu == 0
    ensures 1.0 <= u ==> iu == 256
  {
    (Clamp(u, 0.0, 1.0) * 256.0).Floor
  }

  /** The share of a number in [0, 1] is its whole 256ths. */
  lemma ShareIs(u: real)
    requires 0.0 <= u <= 1.0
    ensures Share(u) as real <= 256.0 * u < Share(u) as real + 1.0
  {
  }

  /** Opacity scales alpha, up to two steps lost in rounding, and changes no colour. */
  lemma OpacityScalesAlpha(c: Rgba, u: real)
    requires 0.0 <= u <= 1.0
    ensures var d := ApplyOpacity(c, u);
      d.r == c.r && d.g == c.g && d.b == c.b && d.a as real <= c.a as real * u <= d.a as real + 2.0
  {
    var iu, a := Share(u), c.a;
    ShareIs(u);
    ScaledAlpha(a, iu, a * iu / 256, u);
    hide Share;
  }

  lemma ScaledAlpha(a: byte, iu: nat, d: int, u: real)
    requires iu as real <= 256.0 * u < iu as real + 1.0 && 256 * d <= a * iu < 256 * d + 256
    ensures d as real <= a as real * u <= d as real + 2.0
  {
    var r, v := a as real, iu as real;
    RealOrder(v, 256.0 * u, r);
    RealOrder(256.0 * u, v + 1.0, r);
    assert (256.0 * u) * r == 256.0 * (r * u) && (v + 1.0) * r == v * r + r;
    assert (a * iu) as real == v * r;
  }

  lemma RealOrder(a: real, b: real, c: real)
    requires c >= 0.0 && a <= b
    ensures a * c <= b * c
  {
  }

  function ApplyOpacity(c: Rgba, u: real): (d: Rgba)
    ensures d.a <= c.a && (1.0 <= u ==> d == c) && (u <= 0.0 ==> d.a == 0)
  {
    MixBounds(0, c.a, Share(u));
    c.(a := c.a * Share(u) / 256)
  }

  function Mix(x: byte, y: byte, iu: int): (m: byte)
    requires 0 <= iu <= 256
    ensures x <= y ==> x <= m <= y
    ensures y <= x ==> y <= m <= x
    ensures iu == 0 ==> m == x
    ensures iu == 256 ==> m == y
  {
    MixBounds(x, y, iu);
    (x * (256 - iu) + y * iu) / 256
  }

  lemma ProductBounds(d: nat, iu: int)
    requires 0 <= iu <= 256
    ensures 0 <= d * iu <= d * 256
  {
  }

  lemma MixBounds(x: byte, y: byte, iu: int)
    requires 0 <= iu <= 256
    ensures x <= y ==> x <= (x * (256 - iu) + y * iu) / 256 <= y
    ensures y <= x ==> y <= (x * (256 - iu) + y * iu) / 256 <= x
  {
    var v := x * (256 - iu) + y * iu;
    if x <= y {
      ProductBounds(y - x, iu);
      assert v == 256 * x + (y - x) * iu;
    } else {
      ProductBounds(x - y, iu);
      assert v == 256 * x - (x - y) * iu;
    }
  }

  /** j out of count steps from x towards y, up to two steps lost in rounding. */
  lemma MixIsLinear(x: byte, y: byte, j: nat, count: nat)
    requires 0 <= j < count
    ensures var m := Mix(x, y, Share(Part(j, count)));
      -2 * count < m * count - (x * (count - j) + y * j) < 2 * count
  {
    var u, iu := Part(j, count), Share(Part(j, count));
    PartIs(j, count);
    ShareIs(u);
    ShareOfCount(u, iu, j, count);
    MixScaled(x, y, iu, j, count, (x * (256 - iu) + y * iu) / 256);
    hide Share, Part;
  }

  lemma PartIs(j: nat, count: nat)
    requires 0 <= j < count
    ensures 0.0 <= Part(j, count) < 1.0 && Part(j, count) * count as real == j as real
  {
  }

  lemma ShareOfCount(u: real, iu: nat, j: nat, count: nat)
    requires count > 0 && u * count as real == j as real && iu as real <= 256.0 * u < iu as real + 1.0
    ensures iu * count <= 256 * j < iu * count + count
  {
    StepsUpTo(u, iu, j, count);
    StepsBelow(u, iu + 1, j, count);
  }

  lemma StepsUpTo(u: real, v: nat, j: nat, count: nat)
    requires count > 0 && u * count as real == j as real && v as real <= 256.0 * u
    ensures v * count <= 256 * j
  {
    ProductsOrder(v as real, 256.0 * u, count as real);
    RealProduct(v, count);
    Scaled256(u, count as real, j);
  }

  lemma StepsBelow(u: real, v: nat, j: nat, count: nat)
    requires count > 0 && u * count as real == j as real && 256.0 * u < v as real
    ensures 256 * j < v * count
  {
    ProductsOrder(256.0 * u, v as real, count as real);
    RealProduct(v, count);
    Scaled256(u, count as real, j);
  }

  lemma RealProduct(a: int, b: int)
    ensures (a * b) as real == a as real * b as real
  {
  }

  lemma Scaled256(u: real, c: real, j: int)
    requires u * c == j as real
    ensures (256.0 * u) * c == (256 * j) as real
  {
  }

  lemma ProductsOrder(a: real, b: real, c: real)
    requires c > 0.0
    ensures (a <= b ==> a * c <= b * c) && (a < b ==> a * c < b * c)
  {
  }

  lemma MixScaled(x: byte, y: byte, iu: nat, j: nat, count: nat, m: int)
    requires count > 0 && iu <= 256 && iu * count <= 256 * j < iu * count + count
    requires 256 * m <= x * (256 - iu) + y * iu < 256 * m + 256
    ensures -2 * count < m * count - (x * (count - j) + y * j) < 2 * count
  {
    var e := iu * count - 256 * j;
    SmallProduct(y - x, e, count);
    Bracket(x * (256 - iu) + y * iu, m, count);
    MixSteps(x, y, iu, count, j);
    Concluded((x * (256 - iu) + y * iu) * count, m * count, x * (count - j) + y * j, (y - x) * e, count);
  }

  lemma Concluded(f: int, m: int, x: int, d: int, count: nat)
    requires count > 0 && f == 256 * x + d && -(255 * count) <= d <= 255 * count
    requires 256 * m <= f <= 256 * m + 255 * count
    ensures -2 * count < m - x < 2 * count
  {
  }

  lemma MixSteps(x: int, y: int, iu: int, count: int, j: int)
    ensures (x * (256 - iu) + y * iu) * count == 256 * (x * (count - j) + y * j) + (y - x) * (iu * count - 256 * j)
  {
    MixIsFrom(x, y, 256, iu);
    MixIsFrom(x, y, count, j);
    FromScaled(x, y - x, iu, count, j);
  }

  lemma MixIsFrom(x: int, y: int, n: int, k: int)
    ensures x * (n - k) + y * k == x * n + (y - x) * k
  {
  }

  lemma FromScaled(x: int, d: int, iu: int, count: int, j: int)
    ensures (x * 256 + d * iu) * count == 256 * (x * count + d * j) + d * (iu * count - 256 * j)
  {
    assert (d * iu) * count == d * (iu * count);
    assert d * (256 * j) == 256 * (d * j);
    assert d * (iu * count - 256 * j) == d * (iu * count) - d * (256 * j);
    assert (x * 256 + d * iu) * count == (x * 256) * count + (d * iu) * count;
    assert (x * 256) * count == 256 * (x * count);
  }

  lemma Bracket(f: int, m: int, count: nat)
    requires 256 * m <= f < 256 * m + 256
    ensures 256 * (m * count) <= f * count <= 256 * (m * count) + 255 * count
  {
    var g := f - 256 * m;
    Distribute(256 * m, g, count);
    Distribute(m, g, count);
    Distribute(255, -g, count);
    NotNegative(g, count);
    NotNegative(255 - g, count);
  }

  lemma Distribute(a: int, b: int, c: int)
    ensures (a + b) * c == a * c + b * c && (256 * a) * c == 256 * (a * c) && (-b) * c == -(b * c)
  {
  }

  lemma NotNegative(a: int, b: int)
    requires a >= 0 && b >= 0
    ensures a * b >= 0
  {
  }

  lemma SmallProduct(d: int, e: int, count: nat)
    requires -255 <= d <= 255 && 0 <= -e < count
    ensures -(255 * count) <= d * e <= 255 * count
  {
    var k := -e;
    assert (255 - d) * k >= 0 && (255 + d) * k >= 0;
    assert (255 - d) * k == 255 * k - d * k && (255 + d) * k == 255 * k + d * k;
    assert d * e == -(d * k);
  }

  function LerpRgba(c0: Rgba, c1: Rgba, u: real): Rgba {
    var iu := Share(u);
    Rgba(Mix(c0.r, c1.r, iu), Mix(c0.g, c1.g, iu), Mix(c0.b, c1.b, iu), Mix(c0.a, c1.a, iu))
  }

  // ---------------------------------------------------------------- the ramp

  /** The ramp index of a stop. */
  function Index(s: Stop): (i: nat)
    ensures i <= 255
  {
    (Clamp(s.offset, 0.0, 1.0) * 255.0).Floor
  }

  /** An offset in [0, 1] belongs at its whole 255ths, one outside at that end of the ramp. */
  lemma IndexIs(s: Stop)
    ensures 0.0 <= s.offset <= 1.0 ==> Index(s) as real <= 255.0 * s.offset < Index(s) as real + 1.0
    ensures (s.offset <= 0.0 ==> Index(s) == 0) && (s.offset >= 1.0 ==> Index(s) == 255)
  {
  }

  lemma IndexMonotone(s: seq<Stop>, i: nat, j: nat)
    requires SortedByOffset(s) && i <= j < |s|
    ensures Index(s[i]) <= Index(s[j])
  {
    assert s[i].offset <= s[j].offset;
  }

  /** How many of the fill loops write entry k: before the first stop, in the interval from
      stop i to stop i + 1, and from the last stop on. */
  function WritesInIntervals(s: seq<Stop>, k: int): nat {
    if |s| < 2 then 0
    else (if Index(s[0]) <= k < Index(s[1]) then 1 else 0) + WritesInIntervals(s[1..], k)
  }

  function WriteCount(s: seq<Stop>, k: int): nat
    requires |s| >= 2
  {
    (if 0 <= k < Index(s[0]) then 1 else 0) + WritesInIntervals(s, k)
    + (if Index(s[|s| - 1]) <= k < 256 then 1 else 0)
  }

  lemma {:induction false} IntervalsPartition(s: seq<Stop>, k: int)
    requires |s| >= 1 && SortedByOffset(s)
    ensures WritesInIntervals(s, k) == if Index(s[0]) <= k < Index(s[|s| - 1]) then 1 else 0
  {
    if |s| >= 2 {
      IndexMonotone(s, 0, 1);
      IndexMonotone(s, 1, |s| - 1);
      assert s[1..][|s[1..]| - 1] == s[|s| - 1];
      IntervalsPartition(s[1..], k);
    }
  }

  /** Every ramp entry is written once, and nothing outside 0..255 is written. */
  lemma {:induction false} EveryEntryWrittenOnce(s: seq<Stop>, k: int)
    requires |s| >= 2 && SortedByOffset(s)
    ensures WriteCount(s, k) == if 0 <= k < 256 then 1 else 0
  {
    IndexMonotone(s, 0, |s| - 1);
    IntervalsPartition(s, k);
  }

  /** j steps out of count. */
  function Part(j: int, count: int): (u: real)
    requires count > 0
    ensures j == 0 ==> u == 0.0
  {
    j as real / count as real
  }

  lemma PartStep(j: int, count: int)
    requires count > 0
    ensures Part(j, count) + Part(1, count) == Part(j + 1, count)
  {
  }

  /** The colour that belongs at entry k: the colour of the first stop before it, of the last
      stop behind it, and between two stops the blend at k's share of the way. */
  function RampColor(s: seq<Stop>, opacity: real, k: int): Rgba
    requires |s| >= 1
  {
    if |s| == 1 || k < Index(s[0]) then ApplyOpacity(s[0].color, opacity)
    else if k < Index(s[1]) then
      LerpRgba(ApplyOpacity(s[0].color, opacity), ApplyOpacity(s[1].color, opacity),
               Part(k - Index(s[0]), Index(s[1]) - Index(s[0])))
    else RampColor(s[1..], opacity, k)
  }

  lemma {:induction false} RampColorAt(s: seq<Stop>, opacity: real, k: int, i: nat)
    requires SortedByOffset(s) && i < |s| && Index(s[i]) <= k
    requires i + 1 < |s| ==> k < Index(s[i + 1])
    ensures RampColor(s, opacity, k) == RampColor(s[i..], opacity, k)
  {
    if i > 0 {
      IndexMonotone(s, 0, i);
      IndexMonotone(s, 1, i);
      RampColorAt(s[1..], opacity, k, i - 1);
      assert s[1..][i - 1..] == s[i..];
    }
  }

  lemma RampColorBetween(s: seq<Stop>, opacity: real, i: nat, j: nat)
    requires SortedByOffset(s) && i + 1 < |s| && Index(s[i]) + j < Index(s[i + 1])
    ensures RampColor(s, opacity, Index(s[i]) + j)
         == LerpRgba(ApplyOpacity(s[i].color, opacity), ApplyOpacity(s[i + 1].color, opacity),
                     Part(j, Index(s[i + 1]) - Index(s[i])))
  {
    RampColorAt(s, opacity, Index(s[i]) + j, i);
  }

  lemma RampColorBefore(s: seq<Stop>, opacity: real, k: int)
    requires |s| >= 1 && k < Index(s[0])
    ensures RampColor(s, opacity, k) == ApplyOpacity(s[0].color, opacity)
  {
  }

  lemma RampColorBehind(s: seq<Stop>, opacity: real, k: int)
    requires SortedByOffset(s) && |s| >= 1 && Index(s[|s| - 1]) <= k
    ensures RampColor(s, opacity, k) == ApplyOpacity(s[|s| - 1].color, opacity)
  {
    RampColorAt(s, opacity, k, |s| - 1);
  }

  predicate Between(x: byte, m: byte, y: byte) {
    x <= m <= y || y <= m <= x
  }

  /** At a stop that starts an interval the ramp has that stop's colour; inside the interval every channel
      stays between the channels of its two stops. */
  lemma {:induction false} RampStaysBetweenStops(s: seq<Stop>, opacity: real, k: int, i: nat)
    requires SortedByOffset(s) && i + 1 < |s| && Index(s[i]) <= k < Index(s[i + 1])
    ensures var c0, c1, c := ApplyOpacity(s[i].color, opacity), ApplyOpacity(s[i + 1].color, opacity),
                             RampColor(s, opacity, k);
            && Between(c0.r, c.r, c1.r) && Between(c0.g, c.g, c1.g)
            && Between(c0.b, c.b, c1.b) && Between(c0.a, c.a, c1.a)
            && (k == Index(s[i]) ==> c == c0)
  {
    RampColorAt(s, opacity, k, i);
  }

  /** A channel that goes from x to y in count steps is m after j of them, up to two lost in
      rounding. */
  predicate OnTheWay(x: byte, y: byte, j: nat, count: nat, m: byte) {
    -2 * count < m * count - (x * (count - j) + y * j) < 2 * count
  }

  /** Between two stops every channel of the ramp goes straight from the first to the second. */
  lemma RampIsLinear(s: seq<Stop>, opacity: real, k: int, i: nat)
    requires SortedByOffset(s) && i + 1 < |s| && Index(s[i]) <= k < Index(s[i + 1])
    ensures var c0, c1, c := ApplyOpacity(s[i].color, opacity), ApplyOpacity(s[i + 1].color, opacity),
                             RampColor(s, opacity, k);
      var j, count := k - Index(s[i]), Index(s[i + 1]) - Index(s[i]);
      && OnTheWay(c0.r, c1.r, j, count, c.r) && OnTheWay(c0.g, c1.g, j, count, c.g)
      && OnTheWay(c0.b, c1.b, j, count, c.b) && OnTheWay(c0.a, c1.a, j, count, c.a)
  {
    var c0, c1 := ApplyOpacity(s[i].color, opacity), ApplyOpacity(s[i + 1].color, opacity);
    var j, count := k - Index(s[i]), Index(s[i + 1]) - Index(s[i]);
    RampColorBetween(s, opacity, i, j);
    MixIsLinear(c0.r, c1.r, j, count);
    MixIsLinear(c0.g, c1.g, j, count);
    MixIsLinear(c0.b, c1.b, j, count);
    MixIsLinear(c0.a, c1.a, j, count);
    hide Mix, Share, Part, Index, ApplyOpacity, RampColor;
  }

  /** Before the first stop the ramp has that stop's colour, from the last one on the last's. */
  lemma RampEnds(s: seq<Stop>, opacity: real, k: int)
    requires SortedByOffset(s) && |s| >= 1
    ensures k < Index(s[0]) ==> RampColor(s, opacity, k) == ApplyOpacity(s[0].color, opacity)
    ensures k >= Index(s[|s| - 1]) ==> RampColor(s, opacity, k) == ApplyOpacity(s[|s| - 1].color, opacity)
  {
    if k < Index(s[0]) {
      RampColorBefore(s, opacity, k);
      IndexMonotone(s, 0, |s| - 1);
    } else if k >= Index(s[|s| - 1]) {
      RampColorBehind(s, opacity, k);
    }
    hide RampColor;
  }

  function Iota(n: nat): (r: seq<int>)
    ensures |r| == n
  {
    seq(n, i => i)
  }

  /** Entries lo..hi hold their ramp colours. */
  ghost predicate Filled(colors: seq<Rgba>, stops: seq<Stop>, opacity: real, hi: int)
    requires |stops| >= 1 && |colors| == 256
  {
    forall k :: 0 <= k < hi && k < 256 ==> colors[k] == RampColor(stops, opacity, k)
  }

  /** nsvg__initPaint for a gradient of two or more stops.  `writes` lists the entries in the
      order in which they are written. */
  method FillRamp(colors: array<Rgba>, stops: seq<Stop>, opacity: real) returns (ghost writes: seq<int>)
    requires colors.Length == 256
    requires |stops| >= 2 && SortedByOffset(stops)
    modifies colors
    ensures forall k :: 0 <= k < 256 ==> colors[k] == RampColor(stops, opacity, k)
    ensures writes == Iota(256)
  {
    var n := |stops|;
    var ca, cb := ApplyOpacity(stops[0].color, opacity), Rgba(0, 0, 0, 0);
    var ia, ib := Index(stops[0]), Index(stops[n - 1]);
    writes := [];
    var i := 0;
    while i < ia
      invariant 0 <= i <= ia
      invariant writes == Iota(i)
      invariant Filled(colors[..], stops, opacity, i)
    {
      RampColorBefore(stops, opacity, i);
      colors[i], writes := ca, writes + [i];
      i := i + 1;
    }
    i := 0;
    while i < n - 1
      invariant 0 <= i <= n - 1
      invariant writes == Iota(Index(stops[i]))
      invariant i > 0 ==> ib == Index(stops[i]) && cb == ApplyOpacity(stops[i].color, opacity)
      invariant Filled(colors[..], stops, opacity, Index(stops[i]))
    {
      ca, cb := ApplyOpacity(stops[i].color, opacity), ApplyOpacity(stops[i + 1].color, opacity);
      ia, ib := Index(stops[i]), Index(stops[i + 1]);
      IndexMonotone(stops, i, i + 1);
      var count := ib - ia;
      if count > 0 {
        writes := FillInterval(colors, stops, opacity, i, ca, cb, ia, count, writes);
      }
      i := i + 1;
    }
    i := ib;
    while i < 256
      invariant ib <= i <= 256
      invariant writes == Iota(i)
      invariant Filled(colors[..], stops, opacity, i)
    {
      RampColorBehind(stops, opacity, i);
      colors[i], writes := cb, writes + [i];
      i := i + 1;
    }
  }

  /** The inner loop of the ramp: one interval between two stops. */
  method FillInterval(colors: array<Rgba>, stops: seq<Stop>, opacity: real, i: nat,
                      ca: Rgba, cb: Rgba, ia: nat, count: nat, ghost before: seq<int>)
    returns (ghost writes: seq<int>)
    requires colors.Length == 256 && SortedByOffset(stops) && i + 1 < |stops|
    requires ca == ApplyOpacity(stops[i].color, opacity) && cb == ApplyOpacity(stops[i + 1].color, opacity)
    requires ia == Index(stops[i]) && count > 0 && ia + count == Index(stops[i + 1])
    requires before == Iota(ia) && Filled(colors[..], stops, opacity, ia)
    modifies colors
    ensures writes == Iota(ia + count) && Filled(colors[..], stops, opacity, ia + count)
  {
    hide LerpRgba, ApplyOpacity, Index, RampColor;
    var u, du, j := 0.0, Part(1, count), 0;
    writes := before;
    while j < count
      invariant 0 <= j <= count
      invariant u == Part(j, count)
      invariant writes == Iota(ia + j)
      invariant Filled(colors[..], stops, opacity, ia + j)
    {
      RampColorBetween(stops, opacity, i, j);
      PartStep(j, count);
      colors[ia + j], writes := LerpRgba(ca, cb, u), writes + [ia + j];
      u, j := u + du, j + 1;
    }
  }
}
