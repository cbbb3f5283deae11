/** Paints, premultiplied blending, and the conversion back to straight alpha.

  A bitmap is a two-dimensional array of pixels of four bytes each.  While shapes are drawn
  the bitmap is premultiplied: no colour channel exceeds alpha.
 */
module Blend {
  import opened Bytes
  import opened Gradient

  // ---------------------------------------------------------------- division by 255

  function Div255(x: int): int {
    (x + 1) * 257 / 65536
  }

  /** The shift trick is exact on the whole range of a product of two bytes. */
  lemma Div255IsExact(x: int)
    requires 0 <= x <= 255 * 255
    ensures Div255(x) == x / 255
  {
    var q, r := x / 255, x % 255;
    assert (x + 1) * 257 == 65536 * q + (257 * (r + 1) - q);
  }

  /** The product of two bytes, scaled back to a byte: at most either factor. */
  function Mul255(a: byte, b: byte): (r: byte)
    ensures 255 * r <= a * b < 255 * r + 255
    ensures r <= a && r <= b
    ensures b == 255 ==> r == a
    ensures a == 255 ==> r == b
    ensures a == 0 || b == 0 ==> r == 0
  {
    MulBounds(a, b);
    Div255IsExact(a * b);
    Div255(a * b)
  }

  lemma MulBounds(a: byte, b: byte)
    ensures 0 <= a * b <= 255 * a && a * b <= 255 * b
  {
    ProductNonNegative(a, b);
    ProductNonNegative(a, 255 - b);
    ProductNonNegative(255 - a, b);
    assert a * (255 - b) == 255 * a - a * b;
    assert (255 - a) * b == 255 * b - a * b;
  }

  lemma ProductNonNegative(a: nat, b: nat)
    ensures a * b >= 0
  {
  }

  lemma Mul255Monotone(a: byte, b: byte, c: byte)
    requires b <= c
    ensures Mul255(a, b) <= Mul255(a, c)
  {
    var x, y := a * b, a * c;
    assert 0 <= x <= y <= 65025 by {
      MulBounds(a, b);
      MulBounds(a, c);
      ProductNonNegative(a, c - b);
      assert a * (c - b) == a * c - a * b;
    }
    Div255IsExact(x);
    Div255IsExact(y);
  }

  // ---------------------------------------------------------------- blending one pixel

  predicate Premultiplied(p: Rgba) {
    p.r <= p.a && p.g <= p.a && p.b <= p.a
  }

  /** One channel: premultiplied source over destination, with the conversion to a byte.
      The sum never wraps around. */
  function OverChannel(c: byte, a: byte, d: byte): (r: byte)
    ensures r == Mul255(c, a) + Mul255(255 - a, d)
  {
    (Mul255(c, a) + Mul255(255 - a, d)) % 256
  }

  function OverAlpha(a: byte, d: byte): (r: byte)
    ensures r == a + Mul255(255 - a, d)
  {
    (a + Mul255(255 - a, d)) % 256
  }

  function Over(dst: Rgba, color: Rgba, cover: byte): Rgba {
    var a := Mul255(cover, color.a);
    Rgba(OverChannel(color.r, a, dst.r), OverChannel(color.g, a, dst.g), OverChannel(color.b, a, dst.b),
         OverAlpha(a, dst.a))
  }

  /** Drawing keeps a pixel premultiplied. */
  lemma OverKeepsPremultiplied(dst: Rgba, color: Rgba, cover: byte)
    requires Premultiplied(dst)
    ensures Premultiplied(Over(dst, color, cover))
  {
    var a := Mul255(cover, color.a);
    ChannelBelowAlpha(color.r, a, dst.r, dst.a);
    ChannelBelowAlpha(color.g, a, dst.g, dst.a);
    ChannelBelowAlpha(color.b, a, dst.b, dst.a);
  }

  lemma ChannelBelowAlpha(c: byte, a: byte, d: byte, da: byte)
    requires d <= da
    ensures OverChannel(c, a, d) <= OverAlpha(a, da)
  {
    Mul255Monotone(255 - a, d, da);
  }

  /** No coverage leaves the pixel alone; full coverage by an opaque colour replaces it. */
  lemma OverExtremes(dst: Rgba, color: Rgba)
    ensures Over(dst, color, 0) == dst
    ensures color.a == 255 ==> Over(dst, color, 255) == color
  {
    assert Mul255(0, color.a) == 0;
    ChannelExtremes(color.r, dst.r);
    ChannelExtremes(color.g, dst.g);
    ChannelExtremes(color.b, dst.b);
    ChannelExtremes(color.a, dst.a);
  }

  lemma ChannelExtremes(c: byte, d: byte)
    ensures Mul255(c, 0) == 0 && Mul255(255, d) == d && Mul255(0, d) == 0 && Mul255(c, 255) == c
    ensures OverChannel(c, 0, d) == d && OverChannel(c, 255, d) == c
  {
  }

  /** r is the blend of c over d by k parts of 65025, up to three steps lost in rounding. */
  predicate Blended(c: byte, d: byte, k: nat, r: byte) {
    65025 * (r - 1) <= c * k + d * (65025 - k) <= 65025 * (r + 3)
  }

  lemma ChannelIsBlend(c: byte, d: byte, cover: byte, alpha: byte)
    ensures Blended(c, d, cover * alpha, OverChannel(c, Mul255(cover, alpha), d))
  {
    var a: int, k: int := Mul255(cover, alpha), cover * alpha;
    var p: int, q: int := Mul255(c, a), Mul255(255 - a, d);
    var e: int := k - 255 * a;
    SmallError(c as int - d as int, e);
    Expanded(c, d, a, k, e);
    BlendError(c * k + d * (65025 - k), c * a + (255 - a) * d, (c - d) * e, c * a - 255 * p, (255 - a) * d - 255 * q, p + q);
    hide Mul255, OverChannel;
  }

  lemma BlendError(x: int, y: int, z: int, f: int, g: int, r: int)
    requires x == 255 * y + z && y == 255 * r + f + g
    requires -64770 <= z <= 64770 && 0 <= f < 255 && 0 <= g < 255
    ensures 65025 * (r - 1) <= x <= 65025 * (r + 3)
  {
  }

  lemma SmallError(d: int, e: int)
    requires -255 <= d <= 255 && 0 <= e < 255
    ensures -64770 <= d * e <= 64770
  {
    assert (255 - d) * e >= 0 && (255 + d) * e >= 0;
  }

  lemma Expanded(c: int, d: int, a: int, k: int, e: int)
    requires k == 255 * a + e
    ensures c * k + d * (65025 - k) == 255 * (c * a + (255 - a) * d) + (c - d) * e
  {
    assert c * (255 * a + e) == 255 * (c * a) + c * e;
    assert d * (65025 - (255 * a + e)) == 65025 * d - 255 * (a * d) - d * e;
    assert (255 - a) * d == 255 * d - a * d && (c - d) * e == c * e - d * e;
  }

  /** Source over destination: every channel of the colour, and its opaque alpha, is blended over the
      pixel's by coverage times alpha. */
  lemma OverIsBlend(dst: Rgba, color: Rgba, cover: byte)
    ensures var r, k := Over(dst, color, cover), cover * color.a;
      Blended(color.r, dst.r, k, r.r) && Blended(color.g, dst.g, k, r.g) && Blended(color.b, dst.b, k, r.b)
      && Blended(255, dst.a, k, r.a)
  {
    var a := Mul255(cover, color.a);
    ChannelIsBlend(color.r, dst.r, cover, color.a);
    ChannelIsBlend(color.g, dst.g, cover, color.a);
    ChannelIsBlend(color.b, dst.b, cover, color.a);
    ChannelIsBlend(255, dst.a, cover, color.a);
    assert OverAlpha(a, dst.a) == OverChannel(255, a, dst.a);
    hide Blended, Mul255, OverChannel, OverAlpha;
  }

  /** Any sequence of draws (colour, coverage) onto a cleared pixel. */
  function DrawAll(draws: seq<(Rgba, byte)>): Rgba {
    if draws == [] then Rgba(0, 0, 0, 0)
    else
      var last := draws[|draws| - 1];
      Over(DrawAll(draws[..|draws| - 1]), last.0, last.1)
  }

  /** Draws are made in order: what is drawn last lies on top. */
  lemma LastIsOnTop(draws: seq<(Rgba, byte)>, color: Rgba, cover: byte)
    ensures DrawAll([]) == Rgba(0, 0, 0, 0)
    ensures cover == 0 ==> DrawAll(draws + [(color, cover)]) == DrawAll(draws)
    ensures cover == 255 && color.a == 255 ==> DrawAll(draws + [(color, cover)]) == color
  {
    assert (draws + [(color, cover)])[..|draws|] == draws;
    OverExtremes(DrawAll(draws), color);
  }

  lemma {:induction false} DrawnPixelsArePremultiplied(draws: seq<(Rgba, byte)>)
    ensures Premultiplied(DrawAll(draws))
  {
    if draws != [] {
      var last := draws[|draws| - 1];
      DrawnPixelsArePremultiplied(draws[..|draws| - 1]);
      OverKeepsPremultiplied(DrawAll(draws[..|draws| - 1]), last.0, last.1);
    }
  }

  // ---------------------------------------------------------------- paints

  datatype Xform = Xform(a: real, b: real, c: real, d: real, e: real, f: real)

  datatype PaintKind = Solid | Linear | Radial

  /** NSVGcachedPaint. */
  class CachedPaint {
    var kind: PaintKind
    var xform: Xform
    const colors: array<Rgba>

    constructor ()
      ensures colors.Length == 256 && fresh(colors)
    {
      kind, xform := Solid, Xform(1.0, 0.0, 0.0, 1.0, 0.0, 0.0);
      colors := new Rgba[256](_ => Rgba(0, 0, 0, 0));
    }

    /** nsvg__initPaint, for a plain colour. */
    method InitColor(color: Rgba, opacity: real)
      requires colors.Length == 256
      modifies this, colors
      ensures kind == Solid && colors[0] == ApplyOpacity(color, opacity)
    {
      kind := Solid;
      colors[0] := ApplyOpacity(color, opacity);
    }

    /** nsvg__initPaint, for a gradient with two or more stops. */
    method InitGradient(k: PaintKind, t: Xform, stops: seq<Stop>, opacity: real)
      requires colors.Length == 256 && k != Solid
      requires |stops| >= 2 && SortedByOffset(stops)
      modifies this, colors
      ensures kind == k && xform == t
      ensures forall i :: 0 <= i < 256 ==> colors[i] == RampColor(stops, opacity, i)
    {
      kind, xform := k, t;
      ghost var writes := FillRamp(colors, stops, opacity);
    }
  }

  /** Placement of the image on the bitmap. */
  datatype View = View(tx: real, ty: real, sx: real, sy: real) {
    ghost predicate Valid() { sx != 0.0 && sy != 0.0 }
  }

  function UserX(v: View, x: int): real
    requires v.Valid()
  {
    (x as real - v.tx) / v.sx
  }

  function UserY(v: View, y: int): real
    requires v.Valid()
  {
    (y as real - v.ty) / v.sy
  }

  /** Ramp index of a gradient parameter. */
  function RampIndex(g: real): (i: nat)
    ensures i <= 255
  {
    Clamp(g * 255.0, 0.0, 255.0).Floor
  }

  /** The ramp index of the square root of s: the largest i up to 255 with i*i <= 255*255*s.
      The program takes a floating-point square root; this is its exact value. */
  function RootIndex(s: real, i: nat): (r: nat)
    requires s >= 0.0
    ensures r <= i
    ensures r as real * r as real <= 65025.0 * s
    ensures r < i ==> 65025.0 * s < (r + 1) as real * (r + 1) as real
  {
    if i == 0 || i as real * i as real <= 65025.0 * s then i else RootIndex(s, i - 1)
  }

  /** The distance of (gx, gy) from the origin is that place in the ramp, or beyond it. */
  predicate AtRadius(i: nat, gx: real, gy: real) {
    var s := 65025.0 * (gx * gx + gy * gy);
    i as real * i as real <= s && (i < 255 ==> s < (i + 1) as real * (i + 1) as real)
  }

  function RadialIndex(gx: real, gy: real): (i: nat)
    ensures i <= 255 && AtRadius(i, gx, gy)
  {
    SquaresNonNegative(gx, gy);
    RootIndex(gx * gx + gy * gy, 255)
  }

  /** A point of user space, in the gradient's own plane. */
  function GradientX(t: Xform, fx: real, fy: real): real { fx * t.a + fy * t.c + t.e }

  function GradientY(t: Xform, fx: real, fy: real): real { fx * t.b + fy * t.d + t.f }

  /** The ramp index used at a point of user space. */
  function IndexAt(kind: PaintKind, t: Xform, fx: real, fy: real): (i: nat)
    ensures i <= 255
  {
    IndexFor(kind, GradientX(t, fx, fy), GradientY(t, fx, fy))
  }

  /** And at a point of the gradient's own plane. */
  function IndexFor(kind: PaintKind, gx: real, gy: real): (i: nat)
    ensures i <= 255
    ensures (kind == Solid ==> i == 0) && (kind == Linear ==> AtShare(i, gy)) && (kind == Radial ==> AtRadius(i, gx, gy))
  {
    match kind
    case Solid => 0
    case Linear =>
      RampIndexIs(gy);
      RampIndex(gy)
    case Radial => RadialIndex(gx, gy)
  }

  /** What is between 0 and 1 has its place in the ramp, what is outside the ramp's end. */
  lemma RampIndexIs(g: real)
    ensures AtShare(RampIndex(g), g)
  {
  }

  /** The place of i, in 255ths, is that of g, or an end of the ramp. */
  predicate AtShare(i: nat, g: real) {
    && (0.0 <= g <= 1.0 ==> i as real <= 255.0 * g < i as real + 1.0)
    && (g <= 0.0 ==> i == 0) && (g >= 1.0 ==> i == 255)
  }

  /** A linear gradient goes by the transformed y, a radial one by the distance from the origin of the
      transformed plane, a plain paint by nothing. */
  lemma IndexIsByPosition(kind: PaintKind, t: Xform, fx: real, fy: real)
    ensures var i, gx, gy := IndexAt(kind, t, fx, fy), fx * t.a + fy * t.c + t.e, fx * t.b + fy * t.d + t.f;
      && (kind == Solid ==> i == 0) && (kind == Linear ==> AtShare(i, gy)) && (kind == Radial ==> AtRadius(i, gx, gy))
  {
    assert GradientX(t, fx, fy) == fx * t.a + fy * t.c + t.e;
    assert GradientY(t, fx, fy) == fx * t.b + fy * t.d + t.f;
    hide AtShare, AtRadius, IndexFor, GradientX, GradientY;
  }

  /** A pixel of the bitmap takes the colour at the index of the user's point (fx, fy) that it shows. */
  lemma PaintIsByPosition(kind: PaintKind, t: Xform, colors: seq<Rgba>, v: View, x: int, y: int, fx: real, fy: real)
    requires |colors| == 256 && v.Valid() && fx * v.sx + v.tx == x as real && fy * v.sy + v.ty == y as real
    ensures PaintAt(kind, t, colors, v, x, y) == colors[IndexAt(kind, t, fx, fy)]
  {
    UserIs(v, x, y, fx, fy);
    hide IndexAt;
  }

  lemma UserIs(v: View, x: int, y: int, fx: real, fy: real)
    requires v.Valid() && fx * v.sx + v.tx == x as real && fy * v.sy + v.ty == y as real
    ensures UserX(v, x) == fx && UserY(v, y) == fy
  {
    assert (x as real - v.tx) / v.sx == fx;
    assert (y as real - v.ty) / v.sy == fy;
  }

  lemma SquaresNonNegative(x: real, y: real)
    ensures x * x + y * y >= 0.0
  {
  }

  /** The paint's colour at pixel (x, y). */
  function PaintAt(kind: PaintKind, t: Xform, colors: seq<Rgba>, v: View, x: int, y: int): Rgba
    requires |colors| == 256 && v.Valid()
  {
    colors[IndexAt(kind, t, UserX(v, x), UserY(v, y))]
  }

  lemma NextColumn(v: View, x: int)
    requires v.Valid()
    ensures UserX(v, x) + 1.0 / v.sx == UserX(v, x + 1)
  {
    var a, b := x as real - v.tx, v.sx;
    assert a / b + 1.0 / b == (a + 1.0) / b;
    assert (x + 1) as real - v.tx == a + 1.0;
  }

  /** nsvg__scanlineSolid: blends pixels x .. x + count of one row, each with the coverage of
      its column; the user-space x advances by a fixed step. */
  method ScanlineSolid(bitmap: array2<Rgba>, scanline: array<byte>, x: nat, y: nat, count: nat,
                       cache: CachedPaint, v: View)
    requires v.Valid() && cache.colors.Length == 256
    requires y < bitmap.Length0 && x + count <= bitmap.Length1 && x + count <= scanline.Length
    modifies bitmap
    ensures forall j, i :: 0 <= j < bitmap.Length0 && 0 <= i < bitmap.Length1 ==>
              bitmap[j, i] ==
                if j == y && x <= i < x + count then
                  Over(old(bitmap[j, i]), PaintAt(cache.kind, cache.xform, cache.colors[..], v, i, y), scanline[i])
                else old(bitmap[j, i])
  {
    var colors, t := cache.colors, cache.xform;
    var fx, fy, dx := UserX(v, x), UserY(v, y), 1.0 / v.sx;
    var k := 0;
    while k < count
      invariant 0 <= k <= count
      invariant fx == UserX(v, x + k)
      invariant forall j, i :: 0 <= j < bitmap.Length0 && 0 <= i < bitmap.Length1 ==>
                  bitmap[j, i] ==
                    if j == y && x <= i < x + k then
                      Over(old(bitmap[j, i]), PaintAt(cache.kind, t, colors[..], v, i, y), scanline[i])
                    else old(bitmap[j, i])
    {
      var c := colors[IndexAt(cache.kind, t, fx, fy)];
      bitmap[y, x + k] := Over(bitmap[y, x + k], c, scanline[x + k]);
      NextColumn(v, x + k);
      fx, k := fx + dx, k + 1;
    }
  }

  // ---------------------------------------------------------------- straight alpha

  function Straight(p: Rgba): (s: Rgba)
    requires Premultiplied(p)
    ensures s.a == p.a
  {
    if p.a == 0 then p
    else
      ScaleBound(p.r, p.a);
      ScaleBound(p.g, p.a);
      ScaleBound(p.b, p.a);
      Rgba(p.r * 255 / p.a, p.g * 255 / p.a, p.b * 255 / p.a, p.a)
  }

  lemma NonNegativeFactor(k: int, a: int)
    requires a > 0 && k * a >= 0
    ensures k >= 0
  {
  }

  lemma ScaleBound(c: byte, a: byte)
    requires c <= a && a > 0
    ensures 0 <= c * 255 / a <= 255
  {
    var q := c * 255 / a;
    assert q * a <= c * 255 <= 255 * a;
    NonNegativeFactor(255 - q, a);
  }

  /** Unpremultiplying loses nothing that premultiplying again would show: the straight colour
      is the largest one whose product with alpha does not exceed the stored channel. */
  lemma StraightIsInverse(p: Rgba)
    requires Premultiplied(p) && p.a > 0
    ensures var s := Straight(p);
            && s.a == p.a
            && Mul255(s.r, s.a) <= p.r <= Mul255(s.r, s.a) + 1
            && Mul255(s.g, s.a) <= p.g <= Mul255(s.g, s.a) + 1
            && Mul255(s.b, s.a) <= p.b <= Mul255(s.b, s.a) + 1
  {
    ChannelInverse(p.r, p.a);
    ChannelInverse(p.g, p.a);
    ChannelInverse(p.b, p.a);
  }

  lemma ChannelInverse(c: byte, a: byte)
    requires c <= a && a > 0
    ensures 0 <= c * 255 / a <= 255
    ensures Mul255(c * 255 / a, a) <= c <= Mul255(c * 255 / a, a) + 1
  {
    ScaleBound(c, a);
    var q := c * 255 / a;
    MulBounds(q, a);
    Div255IsExact(q * a);
    assert q * a <= c * 255 < q * a + a;
  }

  /** The first loop of nsvg__unpremultiplyAlpha. */
  method Unpremultiply(bitmap: array2<Rgba>)
    requires forall j, i :: 0 <= j < bitmap.Length0 && 0 <= i < bitmap.Length1 ==> Premultiplied(bitmap[j, i])
    modifies bitmap
    ensures forall j, i :: 0 <= j < bitmap.Length0 && 0 <= i < bitmap.Length1 ==>
              bitmap[j, i] == Straight(old(bitmap[j, i]))
  {
    var y := 0;
    while y < bitmap.Length0
      invariant 0 <= y <= bitmap.Length0
      invariant forall j, i :: 0 <= j < y && 0 <= i < bitmap.Length1 ==> bitmap[j, i] == Straight(old(bitmap[j, i]))
      invariant forall j, i :: y <= j < bitmap.Length0 && 0 <= i < bitmap.Length1 ==> bitmap[j, i] == old(bitmap[j, i])
    {
      var x := 0;
      while x < bitmap.Length1
        invariant 0 <= x <= bitmap.Length1
        invariant forall j, i :: 0 <= j < bitmap.Length0 && 0 <= i < bitmap.Length1 && (j < y || (j == y && i < x)) ==>
                    bitmap[j, i] == Straight(old(bitmap[j, i]))
        invariant forall j, i :: 0 <= j < bitmap.Length0 && 0 <= i < bitmap.Length1 && (j > y || (j == y && i >= x)) ==>
                    bitmap[j, i] == old(bitmap[j, i])
      {
        var p := bitmap[y, x];
        if p.a != 0 {
          ScaleBound(p.r, p.a);
          ScaleBound(p.g, p.a);
          ScaleBound(p.b, p.a);
          bitmap[y, x] := Rgba(p.r * 255 / p.a, p.g * 255 / p.a, p.b * 255 / p.a, p.a);
        }
        x := x + 1;
      }
      y := y + 1;
    }
  }

  /** Sum of the colours of n visible neighbours. */
  datatype SumRaw = Sum(n: nat, r: nat, g: nat, b: nat)
  type Sum = s: SumRaw | s.r <= 255 * s.n && s.g <= 255 * s.n && s.b <= 255 * s.n
    witness Sum(0, 0, 0, 0)

  function AddVisible(s: Sum, p: Rgba): Sum {
    if p.a != 0 then SumRaw.Sum(s.n + 1, s.r + p.r, s.g + p.g, s.b + p.b) else s
  }

  function Average(s: Sum, p: Rgba): (q: Rgba)
    ensures q.a == p.a
  {
    if s.n == 0 then p
    else
      AverageBound(s.r, s.n);
      AverageBound(s.g, s.n);
      AverageBound(s.b, s.n);
      Rgba(s.r / s.n, s.g / s.n, s.b / s.n, p.a)
  }

  /** The average is that of each channel, rounded down. */
  lemma AverageIs(s: Sum, p: Rgba)
    ensures var q := Average(s, p);
      if s.n == 0 then q == p
      else
        && s.n * q.r <= s.r < s.n * (q.r + 1) && s.n * q.g <= s.g < s.n * (q.g + 1) && s.n * q.b <= s.b < s.n * (q.b + 1)
        && q.a == p.a
  {
    if s.n > 0 {
      QuotientIs(s.r, s.n);
      QuotientIs(s.g, s.n);
      QuotientIs(s.b, s.n);
    }
  }

  lemma QuotientIs(x: nat, n: nat)
    requires n > 0
    ensures n * (x / n) <= x < n * (x / n + 1)
  {
    assert n * (x / n + 1) == n * (x / n) + n;
  }

  lemma AverageBound(r: nat, n: nat)
    requires n > 0 && r <= 255 * n
    ensures 0 <= r / n <= 255
  {
    assert r / n * n <= r;
    NonNegativeFactor(255 - r / n, n);
  }

  /** The contents of a bitmap, row by row. */
  function Rows(bitmap: array2<Rgba>): (rows: seq<seq<Rgba>>)
    reads bitmap
    ensures |rows| == bitmap.Length0
    ensures forall j :: 0 <= j < |rows| ==> |rows[j]| == bitmap.Length1
    ensures forall j, i :: 0 <= j < bitmap.Length0 && 0 <= i < bitmap.Length1 ==> rows[j][i] == bitmap[j, i]
  {
    seq(bitmap.Length0, j requires 0 <= j < bitmap.Length0 reads bitmap =>
      seq(bitmap.Length1, i requires 0 <= i < bitmap.Length1 reads bitmap => bitmap[j, i]))
  }

  ghost predicate Rectangle(rows: seq<seq<Rgba>>, w: nat) {
    forall j :: 0 <= j < |rows| ==> |rows[j]| == w
  }

  /** The colours of the visible neighbours of (j, i), added up; a left or upper neighbour counts
      from column or row `first` on. */
  ghost function NeighbourSum(rows: seq<seq<Rgba>>, w: nat, j: int, i: int, first: nat): Sum
    requires Rectangle(rows, w) && 0 <= j < |rows| && 0 <= i < w
  {
    var s0: Sum := SumRaw.Sum(0, 0, 0, 0);
    var s1 := if i - 1 >= first then AddVisible(s0, rows[j][i - 1]) else s0;
    var s2 := if i + 1 < w then AddVisible(s1, rows[j][i + 1]) else s1;
    var s3 := if j - 1 >= first then AddVisible(s2, rows[j - 1][i]) else s2;
    if j + 1 < |rows| then AddVisible(s3, rows[j + 1][i]) else s3
  }

  /** What a pixel adds to the sum: itself if there is one and it is visible. */
  function Visible(there: bool, p: Rgba): Sum {
    if there && p.a != 0 then SumRaw.Sum(1, p.r, p.g, p.b) else SumRaw.Sum(0, 0, 0, 0)
  }

  function PixelAt(rows: seq<seq<Rgba>>, w: nat, j: int, i: int): Rgba
    requires forall k :: 0 <= k < |rows| ==> |rows[k]| == w
  {
    if 0 <= j < |rows| && 0 <= i < w then rows[j][i] else Rgba(0, 0, 0, 0)
  }

  /** All four neighbours, counted and added up. */
  lemma FourNeighbours(rows: seq<seq<Rgba>>, w: nat, j: int, i: int)
    requires Rectangle(rows, w) && 0 <= j < |rows| && 0 <= i < w
    ensures var l, r := Visible(i > 0, PixelAt(rows, w, j, i - 1)), Visible(i + 1 < w, PixelAt(rows, w, j, i + 1));
      var u, d := Visible(j > 0, PixelAt(rows, w, j - 1, i)), Visible(j + 1 < |rows|, PixelAt(rows, w, j + 1, i));
      var s := NeighbourSum(rows, w, j, i, 0);
      && s.n == l.n + r.n + u.n + d.n && s.r == l.r + r.r + u.r + d.r
      && s.g == l.g + r.g + u.g + d.g && s.b == l.b + r.b + u.b + d.b
  {
    var s0: Sum := SumRaw.Sum(0, 0, 0, 0);
    var s1 := AddIf(s0, i > 0, PixelAt(rows, w, j, i - 1));
    var s2 := AddIf(s1, i + 1 < w, PixelAt(rows, w, j, i + 1));
    var s3 := AddIf(s2, j > 0, PixelAt(rows, w, j - 1, i));
    var s4 := AddIf(s3, j + 1 < |rows|, PixelAt(rows, w, j + 1, i));
    assert s4 == NeighbourSum(rows, w, j, i, 0) by {
      hide AddVisible;
    }
    AddIfAdds(s0, i > 0, PixelAt(rows, w, j, i - 1));
    AddIfAdds(s1, i + 1 < w, PixelAt(rows, w, j, i + 1));
    AddIfAdds(s2, j > 0, PixelAt(rows, w, j - 1, i));
    AddIfAdds(s3, j + 1 < |rows|, PixelAt(rows, w, j + 1, i));
    hide AddIf, Visible, PixelAt, NeighbourSum;
  }

  function AddIf(s: Sum, there: bool, p: Rgba): Sum { if there then AddVisible(s, p) else s }

  lemma AddIfAdds(s: Sum, there: bool, p: Rgba)
    ensures var r, h := AddIf(s, there, p), Visible(there, p);
      r.n == s.n + h.n && r.r == s.r + h.r && r.g == s.g + h.g && r.b == s.b + h.b
  {
  }

  /** A visible pixel stays, an invisible one takes the average colour of its visible
      neighbours. */
  ghost function DefringedFrom(rows: seq<seq<Rgba>>, w: nat, j: int, i: int, first: nat): Rgba
    requires Rectangle(rows, w) && 0 <= j < |rows| && 0 <= i < w
  {
    if rows[j][i].a != 0 then rows[j][i] else Average(NeighbourSum(rows, w, j, i, first), rows[j][i])
  }

  /** The pixel that defringing leaves at (j, i): its tests look neither at column 0 nor at row 0
      for a left or upper neighbour. */
  ghost function Defringed(rows: seq<seq<Rgba>>, w: nat, j: int, i: int): Rgba
    requires Rectangle(rows, w) && 0 <= j < |rows| && 0 <= i < w
  {
    DefringedFrom(rows, w, j, i, 1)
  }

  /** A visible neighbour that is not looked at. */
  ghost predicate MissesOne(rows: seq<seq<Rgba>>, w: nat, j: int, i: int)
    requires Rectangle(rows, w) && 0 <= j < |rows| && 0 <= i < w
  {
    (i == 1 && rows[j][0].a != 0) || (j == 1 && rows[0][i].a != 0)
  }

  /** The sum is that of all four neighbours exactly when no visible one is missed. */
  lemma AllNeighboursIff(rows: seq<seq<Rgba>>, w: nat, j: int, i: int)
    requires Rectangle(rows, w) && 0 <= j < |rows| && 0 <= i < w
    ensures NeighbourSum(rows, w, j, i, 1) == NeighbourSum(rows, w, j, i, 0) <==> !MissesOne(rows, w, j, i)
    ensures rows[j][i].a != 0 || !MissesOne(rows, w, j, i) ==>
              Defringed(rows, w, j, i) == DefringedFrom(rows, w, j, i, 0)
  {
    hide Average;
  }

  /** A black pixel that should take the colour of the only other one. */
  lemma MissedNeighbour()
    ensures var rows := [[Rgba(10, 10, 10, 255), Rgba(0, 0, 0, 0)]];
      && Defringed(rows, 2, 0, 1) == Rgba(0, 0, 0, 0)
      && DefringedFrom(rows, 2, 0, 1, 0) == Rgba(10, 10, 10, 0)
  {
  }

  lemma DefringedKeepsVisible(rows: seq<seq<Rgba>>, w: nat, j: int, i: int)
    requires Rectangle(rows, w) && 0 <= j < |rows| && 0 <= i < w
    ensures Defringed(rows, w, j, i).a == rows[j][i].a
    ensures rows[j][i].a != 0 ==> Defringed(rows, w, j, i) == rows[j][i]
  {
    hide AddVisible;
  }

  /** Images that agree on which pixels are visible, and on the colours of those, defringe alike. */
  lemma SameDefringed(was: seq<seq<Rgba>>, now: seq<seq<Rgba>>, w: nat, j: int, i: int)
    requires Rectangle(was, w) && Rectangle(now, w) && |was| == |now|
    requires 0 <= j < |now| && 0 <= i < w && now[j][i] == was[j][i]
    requires forall l, k :: 0 <= l < |now| && 0 <= k < w ==>
               now[l][k].a == was[l][k].a && (now[l][k].a != 0 ==> now[l][k] == was[l][k])
    ensures Defringed(now, w, j, i) == Defringed(was, w, j, i)
  {
    hide Average;
  }

  /** One step of the second loop of nsvg__unpremultiplyAlpha. */
  method DefringePixel(bitmap: array2<Rgba>, y: int, x: int)
    requires 0 <= y < bitmap.Length0 && 0 <= x < bitmap.Length1
    modifies bitmap
    ensures bitmap[y, x] == Defringed(old(Rows(bitmap)), bitmap.Length1, y, x)
    ensures forall j, i :: 0 <= j < bitmap.Length0 && 0 <= i < bitmap.Length1 && (j, i) != (y, x) ==>
              bitmap[j, i] == old(bitmap[j, i])
  {
    if bitmap[y, x].a == 0 {
      var s: Sum := SumRaw.Sum(0, 0, 0, 0);
      if x - 1 > 0 {
        s := AddVisible(s, bitmap[y, x - 1]);
      }
      if x + 1 < bitmap.Length1 {
        s := AddVisible(s, bitmap[y, x + 1]);
      }
      if y - 1 > 0 {
        s := AddVisible(s, bitmap[y - 1, x]);
      }
      if y + 1 < bitmap.Length0 {
        s := AddVisible(s, bitmap[y + 1, x]);
      }
      bitmap[y, x] := Average(s, bitmap[y, x]);
    }
  }

  /** The second loop of nsvg__unpremultiplyAlpha.  It works in place, yet the outcome is the
      simultaneous one: pixels already rewritten are invisible and therefore never sampled. */
  method Defringe(bitmap: array2<Rgba>)
    modifies bitmap
    ensures forall j, i :: 0 <= j < bitmap.Length0 && 0 <= i < bitmap.Length1 ==>
              bitmap[j, i] == Defringed(old(Rows(bitmap)), bitmap.Length1, j, i)
  {
    ghost var was, w := Rows(bitmap), bitmap.Length1;
    var y := 0;
    while y < bitmap.Length0
      invariant 0 <= y <= bitmap.Length0
      invariant DefringedUpTo(was, Rows(bitmap), w, y, 0)
    {
      var x := 0;
      while x < bitmap.Length1
        invariant 0 <= x <= bitmap.Length1
        invariant DefringedUpTo(was, Rows(bitmap), w, y, x)
      {
        ghost var mid := Rows(bitmap);
        SameDefringed(was, mid, w, y, x);
        DefringePixel(bitmap, y, x);
        x := x + 1;
      }
      y := y + 1;
    }
  }

  /** All pixels before (y, x) in scan order are defringed, the others are as they were. */
  ghost predicate DefringedUpTo(was: seq<seq<Rgba>>, now: seq<seq<Rgba>>, w: nat, y: int, x: int) {
    && Rectangle(was, w) && Rectangle(now, w) && |was| == |now|
    && forall j, i :: 0 <= j < |now| && 0 <= i < w ==>
         now[j][i] == if j < y || (j == y && i < x) then Defringed(was, w, j, i) else was[j][i]
  }
}
