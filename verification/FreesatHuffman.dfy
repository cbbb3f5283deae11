/** The Huffman decoder for freesat texts: the code of a symbol depends on the symbol before it.

  The decoder matches codes against a 32 bit register that slides over the payload.  Here the
  register is tied to the list of bits it stands for, and the decoder to one that works on lists.
 */
module FreesatHuffman {
  import opened Basics
  import opened Bytes

  const START: byte := 0
  const STOP: byte := 0
  const ESCAPE: byte := 1

  // ------------------------------------------------------------------------ bits and the register

  /** A bit in front of a register's bits, whose last one falls off. */
  function Put(x: bool, r: bv32): bv32 { (if x then 0x8000_0000 else 0) | (r >> 1) }

  function And(r: bv32, m: bv32): bv32 { r & m }

  function Or(a: bv32, b: bv32): bv32 { a | b }

  function Half(r: bv32): bv32 { r >> 1 }

  function ByteDown(r: bv32): bv32 { r >> 8 }

  /** The register without its first bit, as the decoder shifts it. */
  function Up(r: bv32): bv32 { (r << 1) & 0xFFFF_FFFE }

  /** Bits packed from the top of a register downwards; what does not fit falls off. */
  function FromBits(s: seq<bool>): bv32 {
    if s == [] then 0 else Put(s[0], FromBits(s[1..]))
  }

  function Shifted(r: bv32, k: nat): bv32 { if k == 0 then r else Half(Shifted(r, k - 1)) }

  /** The register with only bit k from the top set. */
  function Unit(k: nat): bv32 { Shifted(0x8000_0000, k) }

  function Ones(k: nat): seq<bool> { seq(k, i => true) }

  lemma UnitEnds()
    ensures Unit(31) == 1
  {
    assert Unit(4) == 0x0800_0000;
    assert Unit(8) == 0x0080_0000;
    assert Unit(12) == 0x0008_0000;
    assert Unit(16) == 0x0000_8000;
    assert Unit(20) == 0x0000_0800;
    assert Unit(24) == 0x0000_0080;
    assert Unit(28) == 0x0000_0008;
  }

  // Facts of single registers.

  lemma PutOr(x: bool, r: bv32, c: bv32)
    ensures Put(x, Or(r, c)) == Or(Put(x, r), Half(c))
  {
    OrShift(if x then 0x8000_0000 else 0, r, c);
  }

  lemma OrShift(a: bv32, r: bv32, c: bv32)
    ensures (a | ((r | c) >> 1)) == ((a | (r >> 1)) | (c >> 1))
  {
  }

  lemma OrZero(r: bv32)
    ensures Or(0, r) == r == Or(r, 0) && And(0, r) == And(r, 0) == 0 && Half(0) == 0
  {
  }

  lemma PutOne(x: bool)
    ensures Put(x, 0) == if x then 0x8000_0000 else 0
  {
  }

  lemma PutAndHalf(x: bool, r: bv32, m: bv32)
    requires And(r, m) == 0
    ensures And(Put(x, r), Half(m)) == 0
  {
  }

  lemma PutAndPut(x: bool, r: bv32, m: bv32)
    ensures And(Put(x, r), Put(true, m)) == Put(x, And(r, m))
  {
  }

  lemma DropTop(x: bool, r: bv32)
    requires And(r, 1) == 0
    ensures Up(Put(x, r)) == r
  {
  }

  lemma TopTells(x: bool, y: bool, r: bv32, q: bv32)
    requires Put(x, r) == Put(y, q)
    ensures x == y
  {
  }

  lemma AndIs(r: bv32, m: bv32)
    ensures r & m == And(r, m)
  {
  }

  lemma OrIs(r: bv32, m: bv32)
    ensures r | m == Or(r, m)
  {
  }

  lemma UnitStep(k: nat)
    ensures Unit(0) == 0x8000_0000 && Unit(k + 1) == Unit(k) >> 1
  {
  }

  // Facts of lists of bits.

  lemma ShiftedShift(r: bv32, k: nat)
    ensures Shifted(r, k + 1) == Half(Shifted(r, k))
  {
  }

  lemma FromBitsFirst(s: seq<bool>, t: seq<bool>)
    requires s != []
    ensures FromBits(s + t) == Put(s[0], FromBits(s[1..] + t)) && FromBits(s) == Put(s[0], FromBits(s[1..]))
  {
    hide Put, And, Or;
    assert (s + t)[1..] == s[1..] + t;
  }

  lemma {:induction false} FromBitsConcat(s: seq<bool>, t: seq<bool>)
    ensures FromBits(s + t) == Or(FromBits(s), Shifted(FromBits(t), |s|))
  {
    hide Put, Half, And, Or;
    if s == [] {
      assert s + t == t;
      OrZero(FromBits(t));
    } else {
      FromBitsConcat(s[1..], t);
      FromBitsFirst(s, t);
      ShiftedShift(FromBits(t), |s| - 1);
      hide FromBits, Shifted;
      PutOr(s[0], FromBits(s[1..]), Shifted(FromBits(t), |s| - 1));
    }
  }

  lemma {:induction false} ShiftedZero(k: nat)
    ensures Shifted(0, k) == 0
  {
    if k > 0 {
      ShiftedZero(k - 1);
    }
  }

  lemma FromBitsAppend(s: seq<bool>, x: bool)
    ensures FromBits(s + [x]) == Or(FromBits(s), if x then Unit(|s|) else 0)
  {
    hide Put, Half, And, Or;
    FromBitsConcat(s, [x]);
    PutOne(x);
    ShiftedZero(|s|);
    assert [x][1..] == [];
  }

  /** The bits below the packed ones are 0. */
  lemma {:induction false} LowBitsAreZero(s: seq<bool>, k: nat)
    requires |s| <= k
    ensures And(FromBits(s), Unit(k)) == 0
  {
    hide Put, Half, And, Or;
    if s != [] {
      LowBitsAreZero(s[1..], k - 1);
      PutAndHalf(s[0], FromBits(s[1..]), Unit(k - 1));
    } else {
      OrZero(Unit(k));
    }
  }

  /** Shifting the register left drops the first bit. */
  lemma ShiftLeft(s: seq<bool>)
    requires 0 < |s| <= 32
    ensures Up(FromBits(s)) == FromBits(s[1..])
  {
    LowBitsAreZero(s[1..], 31);
    UnitEnds();
    hide Put, Shifted, Up, And;
    DropTop(s[0], FromBits(s[1..]));
  }

  /** Up to 32 bits, the register tells the bits. */
  lemma {:induction false} FromBitsInjective(s: seq<bool>, t: seq<bool>)
    requires |s| == |t| <= 32 && FromBits(s) == FromBits(t)
    ensures s == t
  {
    hide Put, And, Or;
    if s != [] {
      ShiftLeft(s);
      ShiftLeft(t);
      TopTells(s[0], t[0], FromBits(s[1..]), FromBits(t[1..]));
      FromBitsInjective(s[1..], t[1..]);
      assert s == [s[0]] + s[1..] && t == [t[0]] + t[1..];
    }
  }

  /** Masking keeps the first bits. */
  lemma {:induction false} MaskTakes(s: seq<bool>, k: nat)
    requires k <= |s|
    ensures And(FromBits(s), FromBits(Ones(k))) == FromBits(s[..k])
  {
    hide Put, And, Or;
    if k > 0 {
      MaskTakes(s[1..], k - 1);
      assert Ones(k)[1..] == Ones(k - 1);
      assert s[..k][1..] == s[1..][..k - 1];
      PutAndPut(s[0], FromBits(s[1..]), FromBits(Ones(k - 1)));
    } else {
      OrZero(FromBits(s));
    }
  }

  /** The test in the decoder: the masked register equals the code's value exactly when the code
      is a prefix of the bits. */
  lemma MatchIsPrefix(s: seq<bool>, code: seq<bool>)
    requires |code| <= |s| == 32
    ensures And(FromBits(s), FromBits(Ones(|code|))) == FromBits(code) <==> code <= s
  {
    hide Put, And, Or, FromBits;
    MaskTakes(s, |code|);
    PrefixIsTake(s, code);
    SameValueSameBits(s[..|code|], code);
  }

  lemma SameValueSameBits(s: seq<bool>, t: seq<bool>)
    requires |s| == |t| <= 32
    ensures FromBits(s) == FromBits(t) <==> s == t
  {
    hide Put, And, Or, FromBits;
    if FromBits(s) == FromBits(t) {
      FromBitsInjective(s, t);
    }
  }

  lemma PrefixIsTake(s: seq<bool>, t: seq<bool>)
    requires |t| <= |s|
    ensures t <= s <==> s[..|t|] == t
  {
  }

  lemma {:induction false} ZerosAreZero(k: nat)
    ensures FromBits(seq(k, i => false)) == 0
  {
    if k > 0 {
      ZerosAreZero(k - 1);
      assert seq(k, i => false)[1..] == seq(k - 1, i => false);
    }
  }

  // -------------------------------------------------------------------------- bytes and the window

  /** Bit k of a byte, from the top. */
  predicate BitOf(b: bv8, k: nat)
    requires k < 8
  {
    match k
    case 0 => b & 0x80 != 0
    case 1 => b & 0x40 != 0
    case 2 => b & 0x20 != 0
    case 3 => b & 0x10 != 0
    case 4 => b & 8 != 0
    case 5 => b & 4 != 0
    case 6 => b & 2 != 0
    case _ => b & 1 != 0
  }

  /** The same bit as the decoder gets at it, as a register. */
  function BitAt(b: bv8, k: nat): bv32
    requires k < 8
  {
    ((b >> (7 - k)) & 1) as bv32
  }

  function ByteBits(b: bv8): (s: seq<bool>)
    ensures |s| == 8 && forall k :: 0 <= k < 8 ==> s[k] == BitOf(b, k)
  {
    hide BitOf;
    [BitOf(b, 0), BitOf(b, 1), BitOf(b, 2), BitOf(b, 3), BitOf(b, 4), BitOf(b, 5), BitOf(b, 6), BitOf(b, 7)]
  }

  /** The character that eight bits make. */
  function ToByte(s: seq<bool>): byte
    requires |s| == 8
  {
    (if s[0] then 128 else 0) + (if s[1] then 64 else 0) + (if s[2] then 32 else 0)
    + (if s[3] then 16 else 0) + (if s[4] then 8 else 0) + (if s[5] then 4 else 0)
    + (if s[6] then 2 else 0) + (if s[7] then 1 else 0)
  }

  /** A character as eight bits. */
  function RawBits(ch: byte): (s: seq<bool>)
    ensures |s| == 8
  {
    [ch / 128 % 2 == 1, ch / 64 % 2 == 1, ch / 32 % 2 == 1, ch / 16 % 2 == 1,
     ch / 8 % 2 == 1, ch / 4 % 2 == 1, ch / 2 % 2 == 1, ch % 2 == 1]
  }

  function Bit(n: int): int { if n % 2 == 1 then 1 else 0 }

  lemma ToByteInverts(ch: byte)
    ensures ToByte(RawBits(ch)) == ch
  {
    RawSum(ch);
    hide ToByte, RawBits, Bit;
    BitIsSmall(ch / 128);
    Halving(ch, 1);
    Halving(ch, 2);
    Halving(ch, 4);
    Halving(ch, 8);
    Halving(ch, 16);
    Halving(ch, 32);
    Halving(ch, 64);
  }

  lemma RawSum(ch: byte)
    ensures ToByte(RawBits(ch))
         == 128 * Bit(ch / 128) + 64 * Bit(ch / 64) + 32 * Bit(ch / 32) + 16 * Bit(ch / 16)
            + 8 * Bit(ch / 8) + 4 * Bit(ch / 4) + 2 * Bit(ch / 2) + Bit(ch)
  {
  }

  lemma BitIsSmall(n: int)
    requires 0 <= n < 2
    ensures Bit(n) == n
  {
  }

  lemma Halving(n: nat, k: nat)
    requires k in {1, 2, 4, 8, 16, 32, 64}
    ensures n / k == 2 * (n / (2 * k)) + Bit(n / k)
  {
    if
    case k == 1 =>
    case k == 2 => assert n / 4 == n / 2 / 2;
    case k == 4 => assert n / 8 == n / 4 / 2;
    case k == 8 => assert n / 16 == n / 8 / 2;
    case k == 16 => assert n / 32 == n / 16 / 2;
    case k == 32 => assert n / 64 == n / 32 / 2;
    case k == 64 => assert n / 128 == n / 64 / 2;
  }

  /** All bits of the bytes, first bit of the first byte first. */
  function Bits(src: seq<bv8>): (s: seq<bool>)
    ensures |s| == 8 * |src|
  {
    if src == [] then [] else Bits(src[..|src| - 1]) + ByteBits(src[|src| - 1])
  }

  lemma {:induction false} BitsAt(src: seq<bv8>, i: nat, k: nat)
    requires i < |src| && k < 8
    ensures Bits(src)[8 * i + k] == BitOf(src[i], k)
  {
    if i < |src| - 1 {
      BitsAt(src[..|src| - 1], i, k);
    }
  }

  /** The 32 bits from position p on, with zeros after the end. */
  function Window(bits: seq<bool>, p: nat): (w: seq<bool>)
    ensures |w| == 32
  {
    seq(32, i requires 0 <= i => p + i < |bits| && bits[p + i])
  }

  /** One shift of the register. */
  lemma Slide(bits: seq<bool>, p: nat, x: bool)
    requires x == (p + 32 < |bits| && bits[p + 32])
    ensures Or(Up(FromBits(Window(bits, p))), if x then 1 else 0) == FromBits(Window(bits, p + 1))
  {
    hide Up, Or, Put, Unit;
    var w := Window(bits, p);
    ShiftLeft(w);
    FromBitsAppend(w[1..], x);
    UnitEnds();
    assert w[1..] + [x] == Window(bits, p + 1);
  }

  lemma ByteOnTop(b: bv8)
    ensures FromBits(ByteBits(b)) == Lane(b, 2)
  {
    var s := ByteBits(b);
    var r7 := Put(s[7], 0);
    var r6 := Put(s[6], r7);
    var r5 := Put(s[5], r6);
    var r4 := Put(s[4], r5);
    var r3 := Put(s[3], r4);
    var r2 := Put(s[2], r3);
    var r1 := Put(s[1], r2);
    var r0 := Put(s[0], r1);
    EightBits(s);
    LaneDown(b);
    hide Lane;
    assert r0 == (b as bv32) << 24;
  }

  lemma EightBits(s: seq<bool>)
    requires |s| == 8
    ensures FromBits(s)
         == Put(s[0], Put(s[1], Put(s[2], Put(s[3], Put(s[4], Put(s[5], Put(s[6], Put(s[7], 0))))))))
  {
    hide Put, And, Or;
    assert s[1..][1..] == s[2..] && s[2..][1..] == s[3..] && s[3..][1..] == s[4..];
    assert s[4..][1..] == s[5..] && s[5..][1..] == s[6..] && s[6..][1..] == s[7..] && s[7..][1..] == [];
    assert FromBits(s[7..]) == Put(s[7], 0);
    assert FromBits(s[5..]) == Put(s[5], Put(s[6], Put(s[7], 0)));
    assert FromBits(s[3..]) == Put(s[3], Put(s[4], FromBits(s[5..])));
    assert FromBits(s[1..]) == Put(s[1], Put(s[2], FromBits(s[3..])));
  }

  lemma BitValue(b: bv8, k: nat)
    requires k < 8
    ensures BitAt(b, k) == if BitOf(b, k) then 1 else 0
  {
    match k {
      case 0 => assert BitAt(b, 0) == ((b >> 7) & 1) as bv32;
      case 1 => assert BitAt(b, 1) == ((b >> 6) & 1) as bv32;
      case 2 => assert BitAt(b, 2) == ((b >> 5) & 1) as bv32;
      case 3 => assert BitAt(b, 3) == ((b >> 4) & 1) as bv32;
      case 4 => assert BitAt(b, 4) == ((b >> 3) & 1) as bv32;
      case 5 => assert BitAt(b, 5) == ((b >> 2) & 1) as bv32;
      case 6 => assert BitAt(b, 6) == ((b >> 1) & 1) as bv32;
      case _ => assert BitAt(b, 7) == (b & 1) as bv32;
    }
  }

  /** A byte of the payload moved to its place in the register, 8 * (5 - byte) bits up. */
  function Lane(b: bv8, byte: nat): bv32
    requires 2 <= byte < 6
  {
    match byte
    case 2 => (b as bv32) << 24
    case 3 => (b as bv32) << 16
    case 4 => (b as bv32) << 8
    case _ => b as bv32
  }

  lemma ZeroPad(s: seq<bool>, k: nat)
    ensures FromBits(s + seq(k, i => false)) == FromBits(s)
  {
    hide FromBits, Or, And, Put, Half;
    FromBitsConcat(s, seq(k, i => false));
    ZerosAreZero(k);
    ShiftedZero(|s|);
    OrZero(FromBits(s));
  }

  /** The register holds 0 exactly when the next 32 bits are 0. */
  lemma ZeroMeansZeros(bits: seq<bool>, p: nat)
    ensures FromBits(Window(bits, p)) == 0 <==> Silent(bits, p)
  {
    hide FromBits;
    var zeros := seq(32, i => false);
    ZerosAreZero(32);
    SameValueSameBits(Window(bits, p), zeros);
    if Silent(bits, p) {
      assert Window(bits, p) == zeros;
    } else {
      var i :| p <= i < p + 32 && i < |bits| && bits[i];
      assert Window(bits, p)[i - p];
    }
  }

  predicate Silent(bits: seq<bool>, p: nat) {
    forall i :: p <= i < p + 32 && i < |bits| ==> !bits[i]
  }

  // ------------------------------------------------------------------------------------ the codes

  datatype Code = Code(bits: seq<bool>, next: byte)

  /** For each symbol, the codes of what may follow it. */
  type Table = t: seq<seq<Code>> | |t| == 256 witness seq(256, i => [])

  predicate Usable(code: Code) { 1 <= |code.bits| <= 32 }

  predicate AllUsable(table: Table) {
    forall c, k :: 0 <= c < 256 && 0 <= k < |table[c]| ==> Usable(table[c][k])
  }

  /** The first of the codes that the bits begin with, or their number. */
  function FirstMatch(codes: seq<Code>, w: seq<bool>): (k: nat)
    ensures k <= |codes| && (k < |codes| ==> codes[k].bits <= w)
    ensures forall j :: 0 <= j < k ==> !(codes[j].bits <= w)
  {
    if codes == [] then 0
    else if codes[0].bits <= w then 0
    else
      var k := FirstMatch(codes[1..], w);
      assert forall j :: 1 <= j < |codes| ==> codes[j] == codes[1..][j - 1];
      k + 1
  }

  /** What one round of the decoder makes of the next bits: how many it uses, the text it adds and
      the next context; or nothing, when no code matches. */
  datatype Round = Stuck | Round(used: nat, text: seq<byte>, next: byte)

  /** An ASCII character ends the raw ones. */
  function Escaped(ch: byte): byte { if ch < 0x80 then ch else ESCAPE }

  function OneRound(table: Table, w: seq<bool>, last: byte): Round
    requires |w| == 32
  {
    if last == ESCAPE then
      var ch := ToByte(w[..8]);
      Round(8, [ch], Escaped(ch))
    else
      var codes := table[last];
      var k := FirstMatch(codes, w);
      if k == |codes| then Stuck
      else Round(|codes[k].bits|, if codes[k].next == STOP || codes[k].next == ESCAPE then [] else [codes[k].next], codes[k].next)
  }

  lemma RoundsUse(table: Table, w: seq<bool>, last: byte)
    requires |w| == 32 && AllUsable(table) && OneRound(table, w, last).Round?
    ensures 1 <= OneRound(table, w, last).used <= 32
  {
  }

  /** The decoder on a list of bits, from position p, after symbol `last`. */
  function DecodeBits(table: Table, bits: seq<bool>, p: nat, last: byte): seq<byte>
    requires AllUsable(table)
    decreases |bits| - p
  {
    var r := OneRound(table, Window(bits, p), last);
    if r.Stuck? then []
    else
      RoundsUse(table, Window(bits, p), last);
      r.text + if r.next == STOP || Silent(bits, p + r.used) then [] else DecodeBits(table, bits, p + r.used, r.next)
  }

  lemma DecodeStep(table: Table, bits: seq<bool>, p: nat, last: byte)
    requires AllUsable(table)
    ensures var r := OneRound(table, Window(bits, p), last);
      && (r.Stuck? ==> DecodeBits(table, bits, p, last) == [])
      && (r.Round? ==>
            && r.used > 0
            && (p + r.used >= |bits| ==> Silent(bits, p + r.used))
            && DecodeBits(table, bits, p, last) == r.text
                 + if r.next == STOP || Silent(bits, p + r.used) then [] else DecodeBits(table, bits, p + r.used, r.next))
  {
    hide OneRound, Window, AllUsable;
    if OneRound(table, Window(bits, p), last).Round? {
      RoundsUse(table, Window(bits, p), last);
    }
  }

  // ---------------------------------------------------------------------------------- the program

  datatype HuffTableEntry = HuffTableEntry(value: bv32, bits: nat, next: byte)

  function Entry(code: Code): HuffTableEntry { HuffTableEntry(FromBits(code.bits), |code.bits|, code.next) }

  function Entries(codes: seq<Code>): seq<HuffTableEntry> {
    seq(|codes|, i requires 0 <= i < |codes| => Entry(codes[i]))
  }

  /** The bits that a line of a table file spells: any character but 1 stands for 0. */
  function Spelled(binary: string): seq<bool> {
    seq(|binary|, i requires 0 <= i < |binary| => binary[i] == '1')
  }

  lemma SpelledOut()
    ensures FromBits(Spelled("1011")) == 0xB000_0000 && FromBits(Spelled("0x1")) == 0x2000_0000
  {
    var a, b := Spelled("1011"), Spelled("0x1");
    assert a == [true, false, true, true] && b == [false, false, true];
    assert FromBits([true]) == 0x8000_0000 by { assert [true][1..] == []; }
    assert FromBits([true, true]) == 0xC000_0000 by { assert [true, true][1..] == [true]; }
    assert FromBits([false, true, true]) == 0x6000_0000 by { assert [false, true, true][1..] == [true, true]; }
    assert a[1..] == [false, true, true];
    assert FromBits([false, true]) == 0x4000_0000 by { assert [false, true][1..] == [true]; }
    assert b[1..] == [false, true];
  }

  /** decodeBinary. */
  method DecodeBinary(binary: string) returns (val: bv32)
    ensures val == FromBits(Spelled(binary))
  {
    hide FromBits, Or, Unit;
    var mask: bv32 := 0x8000_0000;
    val := 0;
    var i := 0;
    UnitStep(0);
    NoBits();
    assert Spelled(binary[..0]) == [];
    while i < |binary|
      invariant 0 <= i <= |binary|
      invariant mask == Unit(i) && val == FromBits(Spelled(binary[..i]))
    {
      FromBitsAppend(Spelled(binary[..i]), binary[i] == '1');
      assert Spelled(binary[..i + 1]) == Spelled(binary[..i]) + [binary[i] == '1'];
      OrIs(val, mask);
      OrZero(val);
      UnitStep(i);
      if binary[i] == '1' {
        val := val | mask;
      }
      mask := mask >> 1;
      i := i + 1;
    }
    assert binary[..i] == binary;
  }

  /** The mask that covers the first n bits. */
  method MaskOf(n: nat) returns (mask: bv32)
    ensures mask == FromBits(Ones(n))
  {
    hide FromBits, Or, Unit;
    mask := 0;
    var maskbit: bv32 := 0x8000_0000;
    var kk := 0;
    UnitStep(0);
    NoBits();
    while kk < n
      invariant 0 <= kk <= n
      invariant maskbit == Unit(kk) && mask == FromBits(Ones(kk))
    {
      FromBitsAppend(Ones(kk), true);
      assert Ones(kk + 1) == Ones(kk) + [true];
      OrIs(mask, maskbit);
      UnitStep(kk);
      mask := mask | maskbit;
      maskbit := maskbit >> 1;
      kk := kk + 1;
    }
  }

  /** The search through a bucket: the position of the first entry that matches. */
  method FindEntry(entries: seq<HuffTableEntry>, value: bv32, ghost codes: seq<Code>, ghost w: seq<bool>)
    returns (k: nat)
    requires entries == Entries(codes) && |w| == 32 && value == FromBits(w)
    requires forall j :: 0 <= j < |codes| ==> Usable(codes[j])
    ensures k == FirstMatch(codes, w)
  {
    hide FromBits, And;
    k := 0;
    while k < |entries|
      invariant 0 <= k <= |entries|
      invariant forall j :: 0 <= j < k ==> !(codes[j].bits <= w)
    {
      var mask := MaskOf(entries[k].bits);
      MatchIsPrefix(w, codes[k].bits);
      AndIs(value, mask);
      if value & mask == entries[k].value {
        return;
      }
      k := k + 1;
    }
  }

  /** Where the next bit comes from while the window is at p: the byte and bit counters, or beyond
      the end. */
  ghost predicate Reading(src: seq<bv8>, p: nat, byte: nat, bit: nat) {
    && |src| >= 2 && byte >= 2 && bit < 8
    && (8 * (byte - 2) + bit == p + 32 || (byte >= |src| && p + 32 >= 8 * (|src| - 2)))
  }

  lemma NextBit(src: seq<bv8>, p: nat, byte: nat, bit: nat)
    requires Reading(src, p, byte, bit)
    ensures (p + 32 < |Bits(src[2..])| && Bits(src[2..])[p + 32]) == (byte < |src| && BitOf(src[byte], bit))
  {
    if byte < |src| {
      BitsAt(src[2..], byte - 2, bit);
    }
  }

  /** One shift of the register, with the next bit of the payload if there is one. */
  method ShiftIn(src: seq<bv8>, v: bv32, byte: nat, bit: nat) returns (value: bv32)
    requires bit < 8
    ensures value == Or(Up(v), if byte < |src| && BitOf(src[byte], bit) then 1 else 0)
  {
    hide BitOf, BitAt, Or, Up;
    value := Up(v);
    OrZero(value);
    if byte < |src| {
      BitValue(src[byte], bit);
      value := Or(value, BitAt(src[byte], bit));
    }
  }

  /** The shift of the register by n bits, fetching one bit at a time. */
  method Shift(src: seq<bv8>, v: bv32, byte0: nat, bit0: nat, n: nat, ghost p: nat)
    returns (value: bv32, byte: nat, bit: nat)
    requires Reading(src, p, byte0, bit0) && v == FromBits(Window(Bits(src[2..]), p))
    ensures Reading(src, p + n, byte, bit) && value == FromBits(Window(Bits(src[2..]), p + n))
  {
    hide FromBits, Bits, BitOf, Window, Up, Or;
    value, byte, bit := v, byte0, bit0;
    var b := 0;
    while b < n
      invariant 0 <= b <= n
      invariant Reading(src, p + b, byte, bit) && value == FromBits(Window(Bits(src[2..]), p + b))
    {
      NextBit(src, p + b, byte, bit);
      Slide(Bits(src[2..]), p + b, byte < |src| && BitOf(src[byte], bit));
      value := ShiftIn(src, value, byte, bit);
      if bit == 7 {
        bit := 0;
        byte := byte + 1;
      } else {
        bit := bit + 1;
      }
      b := b + 1;
    }
  }

  lemma LoadByte(src: seq<bv8>, byte: nat)
    requires 2 <= byte < 6 && byte < |src|
    ensures FromBits(Bits(src[2..byte + 1]))
         == Or(FromBits(Bits(src[2..byte])), Lane(src[byte], byte))
  {
    hide FromBits, Or, Shifted, ByteBits, Lane;
    var before, b := src[2..byte], src[byte];
    assert src[2..byte + 1][..byte - 2] == before;
    FromBitsConcat(Bits(before), ByteBits(b));
    hide Bits;
    ByteOnTop(b);
    DownShift(b, byte - 2);
  }

  lemma DownShift(b: bv8, j: nat)
    requires j < 4
    ensures Shifted(Lane(b, 2), 8 * j) == Lane(b, j + 2)
  {
    var r := Lane(b, 2);
    hide Shifted, Lane, ByteDown;
    ShiftedNone(r);
    LaneDown(b);
    if j > 0 {
      EightHalves(r, 0);
    }
    if j > 1 {
      EightHalves(r, 8);
    }
    if j > 2 {
      EightHalves(r, 16);
    }
  }

  lemma LaneDown(b: bv8)
    ensures Lane(b, 2) == (b as bv32) << 24
    ensures ByteDown(Lane(b, 2)) == Lane(b, 3) && ByteDown(Lane(b, 3)) == Lane(b, 4)
    ensures ByteDown(Lane(b, 4)) == Lane(b, 5)
  {
  }

  lemma ShiftedNone(r: bv32)
    ensures Shifted(r, 0) == r
  {
  }

  lemma EightHalves(r: bv32, k: nat)
    ensures Shifted(r, k + 8) == ByteDown(Shifted(r, k))
  {
    hide Half, ByteDown;
    var x := Shifted(r, k);
    FourHalves(r, k);
    FourHalves(r, k + 4);
    hide Shifted;
    HalfEight(x);
  }

  lemma FourHalves(r: bv32, k: nat)
    ensures Shifted(r, k + 4) == Half(Half(Half(Half(Shifted(r, k)))))
  {
    hide Half;
    assert Shifted(r, k + 2) == Half(Half(Shifted(r, k)));
  }

  lemma HalfEight(x: bv32)
    ensures Half(Half(Half(Half(Half(Half(Half(Half(x)))))))) == ByteDown(x)
  {
  }

  lemma BitsPrefix(src: seq<bv8>, k: nat)
    requires 2 <= k <= |src|
    ensures Bits(src[2..k]) == Bits(src[2..])[..8 * (k - 2)]
  {
    forall i | 0 <= i < 8 * (k - 2) ensures Bits(src[2..k])[i] == Bits(src[2..])[i] {
      BitsAt(src[2..k], i / 8, i % 8);
      BitsAt(src[2..], i / 8, i % 8);
    }
  }

  /** Filling the register with the first bytes of the payload. */
  method Load(src: seq<bv8>) returns (value: bv32, byte: nat)
    requires |src| >= 2
    ensures value == FromBits(Window(Bits(src[2..]), 0)) && Reading(src, 0, byte, 0)
  {
    hide FromBits, Bits, Or, Lane;
    value, byte := 0, 2;
    assert src[2..2] == [];
    NoBits();
    while byte < 6 && byte < |src|
      invariant 2 <= byte <= 6 && byte <= |src|
      invariant value == FromBits(Bits(src[2..byte]))
    {
      LoadByte(src, byte);
      OrIs(value, Lane(src[byte], byte));
      value := value | Lane(src[byte], byte);
      byte := byte + 1;
    }
    ghost var have := 8 * (byte - 2);
    ghost var bits := Bits(src[2..]);
    BitsPrefix(src, byte);
    ZeroPad(bits[..have], 32 - have);
    assert bits[..have] + seq(32 - have, i => false) == Window(bits, 0) by {
      assert have == 32 || have == |bits|;
    }
  }

  lemma NoBits()
    ensures FromBits(Bits([])) == 0 && FromBits([]) == 0 && FromBits(Ones(0)) == 0
  {
  }

  lemma TopByte(s: seq<bool>)
    requires |s| == 32
    ensures ((FromBits(s) >> 24) & 0xFF) as int == ToByte(s[..8])
  {
    assert s == s[..8] + s[8..];
    FromBitsConcat(s[..8], s[8..]);
    EightHalves(FromBits(s[8..]), 0);
    ShiftedNone(FromBits(s[8..]));
    EightBits(s[..8]);
    TopByteOfPuts(s[..8], FromBits(s[8..]));
  }

  lemma TopByteOfPuts(s: seq<bool>, r: bv32)
    requires |s| == 8
    ensures (((Put(s[0], Put(s[1], Put(s[2], Put(s[3], Put(s[4], Put(s[5], Put(s[6], Put(s[7], 0)))))))) | (r >> 8)) >> 24)
             & 0xFF) as int == ToByte(s)
  {
  }

  class FreesatHuffmanDecoder {
    const tables: array2<seq<HuffTableEntry>>
    ghost var codes: seq<Table>

    ghost predicate Valid()
      reads this, tables
    {
      && tables.Length0 == 2 && tables.Length1 == 256 && |codes| == 2
      && forall t, c :: 0 <= t < 2 && 0 <= c < 256 ==> tables[t, c] == Entries(codes[t][c])
    }

    constructor ()
      ensures Valid() && fresh(tables) && codes == seq(2, t => seq(256, c => []))
    {
      tables := new seq<HuffTableEntry>[2, 256]((t, c) => []);
      codes := seq(2, t => seq(256, c => []));
    }

    /** What loadFile does with a line: an entry at the end of a bucket. */
    method AddEntry(t: nat, from: byte, binary: string, to: byte)
      requires Valid() && t < 2
      modifies this, tables
      ensures Valid()
      ensures codes == old(codes)[t := old(codes)[t][from := old(codes)[t][from] + [Code(Spelled(binary), to)]]]
    {
      var bin := DecodeBinary(binary);
      var entry := HuffTableEntry(bin, |binary|, to);
      ghost var bucket := codes[t][from];
      assert Entries(bucket + [Code(Spelled(binary), to)]) == Entries(bucket) + [entry];
      tables[t, from] := tables[t, from] + [entry];
      codes := codes[t := codes[t][from := bucket + [Code(Spelled(binary), to)]]];
    }

    /** What decode returns: nothing for a text that is not encoded with one of the tables. */
    ghost function Decoded(src: seq<bv8>): seq<byte>
      requires Valid() && AllUsable(codes[0]) && AllUsable(codes[1])
      requires |src| >= 1 && (src[0] == 0x1f ==> |src| >= 2)
      reads this, tables
    {
      if src[0] != 0x1f || (src[1] != 1 && src[1] != 2) then []
      else DecodeBits(codes[if src[1] == 1 then 0 else 1], Bits(src[2..]), 0, START)
    }

    /** freesatHuffmanDecoder::decode.  Codes of length 0 would keep it from ending. */
    method Decode(src: seq<bv8>) returns (uncompressed: seq<byte>)
      requires Valid() && AllUsable(codes[0]) && AllUsable(codes[1])
      requires |src| >= 1 && (src[0] == 0x1f ==> |src| >= 2)
      ensures uncompressed == Decoded(src)
      ensures src[0] != 0x1f ==> uncompressed == []
      ensures src[0] == 0x1f ==>
        uncompressed == if src[1] == 1 then DecodeBits(codes[0], Bits(src[2..]), 0, 0)
                        else if src[1] == 2 then DecodeBits(codes[1], Bits(src[2..]), 0, 0)
                        else []
    {
      uncompressed := [];
      if src[0] != 0x1f {
        return;
      }
      if src[1] != 1 && src[1] != 2 {
        return;
      }
      uncompressed := DecodeText(if src[1] == 1 then 0 else 1, src);
    }

    /** The text after the header, with the table that the header names. */
    method DecodeText(t: nat, src: seq<bv8>) returns (uncompressed: seq<byte>)
      requires Valid() && t < 2 && AllUsable(codes[t]) && |src| >= 2
      ensures uncompressed == DecodeBits(codes[t], Bits(src[2..]), 0, START)
    {
      hide Bits, FromBits, Window, OneRound, Silent, Reading, DecodeBits, AllUsable;
      uncompressed := [];
      ghost var table, bits := codes[t], Bits(src[2..]);
      var value, byte := Load(src);
      var bit, lastch := 0, START;
      ghost var p := 0;
      var more := true;
      ghost var expected := DecodeBits(table, bits, 0, START);
      assert [] + expected == expected;
      while more
        invariant Reading(src, p, byte, bit) && value == FromBits(Window(bits, p))
        invariant expected == uncompressed + if more then DecodeBits(table, bits, p, lastch) else []
        decreases more, |bits| - p
      {
        ghost var last, text, r := lastch, uncompressed, OneRound(table, Window(bits, p), lastch);
        DecodeStep(table, bits, p, last);
        var found, used;
        found, used, uncompressed, lastch := Round(t, value, lastch, uncompressed, Window(bits, p));
        if !found {
          assert text + [] == text;
          return;
        }
        value, byte, bit := Shift(src, value, byte, bit, used, p);
        p := p + used;
        ZeroMeansZeros(bits, p);
        more := lastch != STOP && value != 0;
        ghost var rest := if more then DecodeBits(table, bits, p, lastch) else [];
        Regroup(text, r.text, rest);
      }
    }

    /** One turn of the loop, up to the shift. */
    method Round(t: nat, value: bv32, last: byte, text: seq<byte>, ghost w: seq<bool>)
      returns (found: bool, bitShift: nat, uncompressed: seq<byte>, lastch: byte)
      requires Valid() && t < 2 && AllUsable(codes[t])
      requires |w| == 32 && value == FromBits(w)
      ensures found <==> OneRound(codes[t], w, last).Round?
      ensures found ==> OneRound(codes[t], w, last).used == bitShift
      ensures found ==> text + OneRound(codes[t], w, last).text == uncompressed
      ensures found ==> OneRound(codes[t], w, last).next == lastch
      ensures !found ==> uncompressed == text
    {
      uncompressed, lastch := text, last;
      if last == ESCAPE {
        TopByte(w);
        var nextCh := ((value >> 24) & 0xFF) as int;
        if nextCh < 0x80 {
          lastch := nextCh;
        }
        uncompressed := uncompressed + [nextCh];
        return true, 8, uncompressed, lastch;
      }
      var bucket := tables[t, last];
      var k := FindEntry(bucket, value, codes[t][last], w);
      if k == |bucket| {
        return false, 0, uncompressed, lastch;
      }
      var nextCh := bucket[k].next;
      if nextCh != STOP && nextCh != ESCAPE {
        uncompressed := uncompressed + [nextCh];
      }
      return true, bucket[k].bits, uncompressed, nextCh;
    }
  }

  // -------------------------------------------------------------------------- encoding and back

  /** The context after a symbol: eight raw bits follow an escape until an ASCII character. */
  function Next(last: byte, sym: byte): byte { if last == ESCAPE then Escaped(sym) else sym }

  predicate HasCode(codes: seq<Code>, sym: byte) { exists k :: 0 <= k < |codes| && codes[k].next == sym }

  /** A symbol's code: the raw bits of an escaped one, else any entry for it in the bucket of the
      symbol before it; the encoder takes the first. */
  function CodeFor(codes: seq<Code>, sym: byte): (code: Code)
    requires HasCode(codes, sym)
    ensures code in codes && code.next == sym
  {
    if codes[0].next == sym then codes[0]
    else
      var k :| 0 <= k < |codes| && codes[k].next == sym;
      assert codes[1..][k - 1].next == sym;
      CodeFor(codes[1..], sym)
  }

  predicate CanEncode(table: Table, last: byte, syms: seq<byte>)
    decreases |syms|
  {
    syms == []
    || ((last == ESCAPE || HasCode(table[last], syms[0])) && CanEncode(table, Next(last, syms[0]), syms[1..]))
  }

  function CodeOf(table: Table, last: byte, sym: byte): seq<bool>
    requires last == ESCAPE || HasCode(table[last], sym)
  {
    if last == ESCAPE then RawBits(sym) else CodeFor(table[last], sym).bits
  }

  function Encode(table: Table, last: byte, syms: seq<byte>): seq<bool>
    requires CanEncode(table, last, syms)
    decreases |syms|
  {
    if syms == [] then [] else CodeOf(table, last, syms[0]) + Encode(table, Next(last, syms[0]), syms[1..])
  }

  /** What a symbol adds to the text: escapes and the stop add nothing. */
  function Own(last: byte, sym: byte): seq<byte> {
    if last != ESCAPE && (sym == STOP || sym == ESCAPE) then [] else [sym]
  }

  /** 0 is the stop and 1 the escape: both add nothing, and any other symbol itself.  Behind an escape
      every symbol adds itself, and the escape lasts until one below 0x80. */
  lemma SymbolsAre(last: byte, sym: byte)
    ensures last != 1 ==> Own(last, sym) == (if sym == 0 || sym == 1 then [] else [sym]) && Next(last, sym) == sym
    ensures last == 1 ==> Own(last, sym) == [sym] && Next(last, sym) == if sym < 0x80 then sym else 1
  {
  }

  /** The text that a list of symbols stands for. */
  function Text(last: byte, syms: seq<byte>): seq<byte>
    decreases |syms|
  {
    if syms == [] then [] else Own(last, syms[0]) + Text(Next(last, syms[0]), syms[1..])
  }

  /** Nothing but the last symbol ends the text. */
  predicate Terminated(last: byte, syms: seq<byte>)
    decreases |syms|
  {
    syms != []
    && if |syms| == 1 then Next(last, syms[0]) == STOP
       else Next(last, syms[0]) != STOP && Terminated(Next(last, syms[0]), syms[1..])
  }

  /** Characters from 0x80 on come in runs: an escape, their raw bits, and those of the ASCII character
      that ends the run. */
  lemma {:induction false} EscapedRun(table: Table, run: seq<byte>, end: byte, rest: seq<byte>)
    requires (forall i :: 0 <= i < |run| ==> run[i] >= 0x80) && end < 0x80 && CanEncode(table, end, rest)
    ensures CanEncode(table, 1, run + [end] + rest)
    ensures Text(1, run + [end] + rest) == run + [end] + Text(end, rest)
    ensures Encode(table, 1, run + [end] + rest) == AllRaw(run + [end]) + Encode(table, end, rest)
    decreases |run|
  {
    hide RawBits;
    var all := run + [end] + rest;
    if run == [] {
      assert all[0] == end && all[1..] == rest;
      assert (run + [end])[1..] == [];
      assert AllRaw([end]) == RawBits(end) + AllRaw([]);
    } else {
      assert all[0] == run[0] && all[1..] == run[1..] + [end] + rest;
      assert (run + [end])[1..] == run[1..] + [end];
      EscapedRun(table, run[1..], end, rest);
    }
  }

  /** Raw bits, byte after byte, the highest bit first. */
  function AllRaw(s: seq<byte>): seq<bool> { if s == [] then [] else RawBits(s[0]) + AllRaw(s[1..]) }

  predicate PrefixFree(codes: seq<Code>) {
    forall i, j :: 0 <= i < |codes| && 0 <= j < |codes| && i != j ==> !(codes[i].bits <= codes[j].bits)
  }

  predicate AllPrefixFree(table: Table) { forall c :: 0 <= c < 256 ==> PrefixFree(table[c]) }

  /** How many symbols the decoder gets to see: it stops after one when the next 32 bits are 0. */
  function Seen(table: Table, bits: seq<bool>, p: nat, last: byte, syms: seq<byte>): (n: nat)
    requires CanEncode(table, last, syms)
    ensures n <= |syms|
    decreases |syms|
  {
    if syms == [] then 0
    else
      var q := p + |CodeOf(table, last, syms[0])|;
      if Silent(bits, q) then 1 else 1 + Seen(table, bits, q, Next(last, syms[0]), syms[1..])
  }

  /** Of prefix-free codes only one is a prefix of the bits. */
  lemma OnlyMatch(codes: seq<Code>, w: seq<bool>, k: nat)
    requires PrefixFree(codes) && k < |codes| && codes[k].bits <= w
    ensures FirstMatch(codes, w) == k
  {
    var j := FirstMatch(codes, w);
    if j < k {
      Nested(codes[j].bits, codes[k].bits, w);
    }
  }

  lemma CodeIsNext(bits: seq<bool>, p: nat, code: seq<bool>, rest: seq<bool>)
    requires p <= |bits| && code + rest <= bits[p..] && |code| <= 32
    ensures code <= Window(bits, p) && p + |code| <= |bits| && rest <= bits[p + |code|..]
  {
    var w := Window(bits, p);
    forall i | 0 <= i < |code| ensures code[i] == w[i] {
      assert (code + rest)[i] == bits[p..][i];
    }
    forall i | 0 <= i < |rest| ensures rest[i] == bits[p + |code|..][i] {
      assert (code + rest)[|code| + i] == bits[p..][|code| + i];
    }
  }

  /** One round on a code undoes one step of encoding. */
  lemma RoundInverts(table: Table, w: seq<bool>, last: byte, sym: byte)
    requires |w| == 32 && AllPrefixFree(table)
    requires last == ESCAPE || HasCode(table[last], sym)
    requires CodeOf(table, last, sym) <= w
    ensures OneRound(table, w, last)
         == Round(|CodeOf(table, last, sym)|, Own(last, sym), Next(last, sym))
  {
    if last == ESCAPE {
      assert w[..8] == RawBits(sym);
      hide ToByte, RawBits;
      ToByteInverts(sym);
    } else {
      var codes := table[last];
      var code := CodeFor(codes, sym);
      var k :| 0 <= k < |codes| && codes[k] == code;
      OnlyMatch(codes, w, k);
    }
  }

  /** The text of the symbols that the decoder gets to see. */
  function SeenText(table: Table, bits: seq<bool>, p: nat, last: byte, syms: seq<byte>): seq<byte>
    requires CanEncode(table, last, syms)
    decreases |syms|
  {
    if syms == [] then []
    else
      var q := p + |CodeOf(table, last, syms[0])|;
      Own(last, syms[0])
      + if |syms| == 1 || Silent(bits, q) then [] else SeenText(table, bits, q, Next(last, syms[0]), syms[1..])
  }

  lemma {:induction false} SeenTextIsText(table: Table, bits: seq<bool>, p: nat, last: byte, syms: seq<byte>)
    requires CanEncode(table, last, syms)
    ensures SeenText(table, bits, p, last, syms) == Text(last, syms[..Seen(table, bits, p, last, syms)])
    decreases |syms|
  {
    hide CodeOf, HasCode, Next, Silent;
    if syms != [] {
      SeenStep(table, bits, p, last, syms);
      var n := Seen(table, bits, p, last, syms);
      TextStep(last, syms, n);
      SeenTextIsText(table, bits, p + |CodeOf(table, last, syms[0])|, Next(last, syms[0]), syms[1..]);
      hide Text, Seen;
      NoText(Next(last, syms[0]));
    }
  }

  lemma NoText(last: byte)
    ensures Text(last, []) == []
  {
  }

  lemma TextStep(last: byte, syms: seq<byte>, n: nat)
    requires 0 < n <= |syms|
    ensures Text(last, syms[..n]) == Own(last, syms[0]) + Text(Next(last, syms[0]), syms[1..][..n - 1])
  {
    hide Next;
    assert syms[..n][0] == syms[0] && syms[..n][1..] == syms[1..][..n - 1];
  }

  lemma SeenStep(table: Table, bits: seq<bool>, p: nat, last: byte, syms: seq<byte>)
    requires CanEncode(table, last, syms) && syms != []
    ensures var q := p + |CodeOf(table, last, syms[0])|;
      Seen(table, bits, p, last, syms)
        == if Silent(bits, q) || |syms| == 1 then 1 else 1 + Seen(table, bits, q, Next(last, syms[0]), syms[1..])
  {
    hide CodeOf, Next, HasCode, Silent;
  }

  /** One round on the code of a list of symbols. */
  lemma RoundOnCode(table: Table, bits: seq<bool>, p: nat, last: byte, syms: seq<byte>)
    requires AllUsable(table) && AllPrefixFree(table) && syms != [] && CanEncode(table, last, syms)
    requires p <= |bits| && Encode(table, last, syms) <= bits[p..]
    ensures OneRound(table, Window(bits, p), last)
         == Round(|CodeOf(table, last, syms[0])|, Own(last, syms[0]), Next(last, syms[0]))
    ensures var q := p + |CodeOf(table, last, syms[0])|;
      q <= |bits| && Encode(table, Next(last, syms[0]), syms[1..]) <= bits[q..]
  {
    hide CodeOf, HasCode, Next, AllUsable, AllPrefixFree, OneRound, Window;
    CodeLength(table, last, syms[0]);
    CodeIsNext(bits, p, CodeOf(table, last, syms[0]), Encode(table, Next(last, syms[0]), syms[1..]));
    RoundInverts(table, Window(bits, p), last, syms[0]);
  }

  lemma {:induction false} DecodeSeesSymbols(table: Table, bits: seq<bool>, p: nat, last: byte, syms: seq<byte>)
    requires AllUsable(table) && AllPrefixFree(table)
    requires CanEncode(table, last, syms) && Terminated(last, syms)
    requires p <= |bits| && Encode(table, last, syms) <= bits[p..]
    ensures DecodeBits(table, bits, p, last) == SeenText(table, bits, p, last, syms)
    decreases |syms|
  {
    hide OneRound, Window, AllUsable, AllPrefixFree, DecodeBits, CodeOf, Next, HasCode, Silent, Own, Encode;
    RoundOnCode(table, bits, p, last, syms);
    DecodeStep(table, bits, p, last);
    var q := p + |CodeOf(table, last, syms[0])|;
    if |syms| > 1 && !Silent(bits, q) {
      DecodeSeesSymbols(table, bits, q, Next(last, syms[0]), syms[1..]);
    }
  }

  /** Decoding after encoding, for any symbols and whatever follows their code: the decoder gives
      the text of exactly the symbols it gets to see. */
  lemma DecodeAfterEncode(table: Table, bits: seq<bool>, p: nat, last: byte, syms: seq<byte>)
    requires AllUsable(table) && AllPrefixFree(table)
    requires CanEncode(table, last, syms) && Terminated(last, syms)
    requires p <= |bits| && Encode(table, last, syms) <= bits[p..]
    ensures DecodeBits(table, bits, p, last) == Text(last, syms[..Seen(table, bits, p, last, syms)])
  {
    DecodeSeesSymbols(table, bits, p, last, syms);
    SeenTextIsText(table, bits, p, last, syms);
  }

  lemma CodeLength(table: Table, last: byte, sym: byte)
    requires AllUsable(table) && (last == ESCAPE || HasCode(table[last], sym))
    ensures 1 <= |CodeOf(table, last, sym)| <= 32
  {
  }

  /** The code that remains after each symbol but the last has a 1 among its next 32 bits. */
  predicate KeepsOnes(table: Table, last: byte, syms: seq<byte>)
    requires CanEncode(table, last, syms)
    decreases |syms|
  {
    |syms| <= 1
    || (var rest := Encode(table, Next(last, syms[0]), syms[1..]);
        (exists i :: 0 <= i < 32 && i < |rest| && rest[i]) && KeepsOnes(table, Next(last, syms[0]), syms[1..]))
  }

  lemma {:induction false} OnesAreSeen(table: Table, bits: seq<bool>, p: nat, last: byte, syms: seq<byte>)
    requires AllUsable(table) && AllPrefixFree(table)
    requires CanEncode(table, last, syms) && KeepsOnes(table, last, syms)
    requires p <= |bits| && Encode(table, last, syms) <= bits[p..]
    ensures Seen(table, bits, p, last, syms) == |syms|
    decreases |syms|
  {
    hide OneRound, Window, AllUsable, AllPrefixFree, CodeOf, Next, HasCode, Silent, Encode;
    if syms != [] {
      RoundOnCode(table, bits, p, last, syms);
      SeenStep(table, bits, p, last, syms);
      var q := p + |CodeOf(table, last, syms[0])|;
      if |syms| > 1 {
        var rest := Encode(table, Next(last, syms[0]), syms[1..]);
        var i :| 0 <= i < 32 && i < |rest| && rest[i];
        HeardAt(bits, q, rest, i);
        OnesAreSeen(table, bits, q, Next(last, syms[0]), syms[1..]);
      }
    }
  }

  lemma HeardAt(bits: seq<bool>, q: nat, rest: seq<bool>, i: nat)
    requires q <= |bits| && rest <= bits[q..] && i < 32 && i < |rest| && rest[i]
    ensures !Silent(bits, q)
  {
    assert bits[q..][i] == bits[q + i];
  }

  /** The decoder inverts encoding: any list of symbols that ends with a stop, with prefix-free
      codes, whatever follows its code, when the remaining code always has a 1 within 32 bits. */
  lemma DecodeInvertsEncode(table: Table, bits: seq<bool>, syms: seq<byte>)
    requires AllUsable(table) && AllPrefixFree(table)
    requires CanEncode(table, START, syms) && Terminated(START, syms) && KeepsOnes(table, START, syms)
    requires Encode(table, START, syms) <= bits
    ensures DecodeBits(table, bits, 0, START) == Text(START, syms)
  {
    assert bits[0..] == bits;
    OnesAreSeen(table, bits, 0, START, syms);
    DecodeAfterEncode(table, bits, 0, START, syms);
    assert syms[..|syms|] == syms;
  }

  function After(last: byte, syms: seq<byte>): byte
    decreases |syms|
  {
    if syms == [] then last else After(Next(last, syms[0]), syms[1..])
  }

  lemma {:induction false} TextSplit(last: byte, syms: seq<byte>, k: nat)
    requires k <= |syms|
    ensures Text(last, syms) == Text(last, syms[..k]) + Text(After(last, syms[..k]), syms[k..])
    decreases k
  {
    hide Text, Next;
    if k == 0 {
      assert syms[0..] == syms && syms[..0] == [];
      NoText(last);
    } else {
      TextStep(last, syms, k);
      TextStep(last, syms, |syms|);
      assert syms[..|syms|] == syms && syms[1..][..|syms| - 1] == syms[1..];
      TextSplit(Next(last, syms[0]), syms[1..], k - 1);
      assert syms[..k][1..] == syms[1..][..k - 1] && syms[1..][k - 1..] == syms[k..];
    }
  }

  /** Where the code of the first k symbols ends. */
  function CodeEnd(table: Table, last: byte, syms: seq<byte>, k: nat): nat
    requires CanEncode(table, last, syms) && k <= |syms|
    decreases k
  {
    if k == 0 then 0
    else |CodeOf(table, last, syms[0])| + CodeEnd(table, Next(last, syms[0]), syms[1..], k - 1)
  }

  /** None of the first m symbols but the last is followed by 32 zero bits. */
  predicate Heard(table: Table, bits: seq<bool>, p: nat, last: byte, syms: seq<byte>, m: nat)
    requires CanEncode(table, last, syms) && m <= |syms|
  {
    forall k :: 1 <= k < m ==> !Silent(bits, p + CodeEnd(table, last, syms, k))
  }

  lemma HeardStep(table: Table, bits: seq<bool>, p: nat, last: byte, syms: seq<byte>, m: nat)
    requires CanEncode(table, last, syms) && 2 <= m <= |syms|
    ensures var q := p + |CodeOf(table, last, syms[0])|;
      Heard(table, bits, p, last, syms, m)
      <==> !Silent(bits, q) && Heard(table, bits, q, Next(last, syms[0]), syms[1..], m - 1)
  {
    hide CodeOf, Next, HasCode, Silent, CodeEnd;
    var q, after := p + |CodeOf(table, last, syms[0])|, Next(last, syms[0]);
    FirstEnd(table, last, syms);
    forall k | 2 <= k < m
      ensures p + CodeEnd(table, last, syms, k) == q + CodeEnd(table, after, syms[1..], k - 1)
    {
      EndStep(table, last, syms, k);
    }
    if Heard(table, bits, p, last, syms, m) {
      assert !Silent(bits, p + CodeEnd(table, last, syms, 1));
      forall k | 1 <= k < m - 1
        ensures !Silent(bits, q + CodeEnd(table, after, syms[1..], k))
      {
        assert !Silent(bits, p + CodeEnd(table, last, syms, k + 1));
      }
    }
  }

  /** Symbol after symbol is seen until one is followed by 32 zero bits. */
  lemma {:induction false} SeenIff(table: Table, bits: seq<bool>, p: nat, last: byte, syms: seq<byte>, m: nat)
    requires CanEncode(table, last, syms) && 1 <= m <= |syms|
    ensures m <= Seen(table, bits, p, last, syms) <==> Heard(table, bits, p, last, syms, m)
    decreases m
  {
    hide CodeOf, Next, HasCode, Silent, Seen;
    SeenStep(table, bits, p, last, syms);
    if m > 1 {
      HeardStep(table, bits, p, last, syms, m);
      SeenIff(table, bits, p + |CodeOf(table, last, syms[0])|, Next(last, syms[0]), syms[1..], m - 1);
    }
  }

  lemma EndStep(table: Table, last: byte, syms: seq<byte>, k: nat)
    requires CanEncode(table, last, syms) && 1 <= k <= |syms|
    ensures CodeEnd(table, last, syms, k)
         == |CodeOf(table, last, syms[0])| + CodeEnd(table, Next(last, syms[0]), syms[1..], k - 1)
  {
  }

  lemma FirstEnd(table: Table, last: byte, syms: seq<byte>)
    requires CanEncode(table, last, syms) && syms != []
    ensures CodeEnd(table, last, syms, 1) == |CodeOf(table, last, syms[0])|
  {
    EndStep(table, last, syms, 1);
  }

  /** Only a stop that is not escaped has no text. */
  lemma NoTextIff(last: byte, syms: seq<byte>)
    requires Terminated(last, syms)
    ensures Text(last, syms) == [] <==> last != 1 && syms == [0]
  {
    if |syms| > 1 {
      TextStep(last, syms, |syms|);
      TextStep(Next(last, syms[0]), syms[1..], |syms| - 1);
      assert syms[..|syms|] == syms && syms[1..][..|syms| - 1] == syms[1..];
    } else {
      assert syms == [syms[0]];
    }
  }

  lemma {:induction false} TerminatedTail(last: byte, syms: seq<byte>, k: nat)
    requires Terminated(last, syms) && k < |syms|
    ensures Terminated(After(last, syms[..k]), syms[k..])
    decreases k
  {
    hide Next;
    if k == 0 {
      assert syms[0..] == syms;
    } else {
      assert syms[..k][1..] == syms[1..][..k - 1] && syms[k..] == syms[1..][k - 1..];
      TerminatedTail(Next(last, syms[0]), syms[1..], k - 1);
    }
  }

  /** The unseen symbols have no text only when there are none, or just the stop. */
  lemma RestHasNoTextIff(syms: seq<byte>, n: nat)
    requires Terminated(START, syms) && n <= |syms|
    ensures var stop := |syms| - 1;
      Text(After(START, syms[..n]), syms[n..]) == []
      <==> n == |syms| || (n == stop && After(START, syms[..stop]) != ESCAPE)
  {
    hide After, Text;
    if n < |syms| {
      TerminatedTail(START, syms, n);
      NoTextIff(After(START, syms[..n]), syms[n..]);
      if n == |syms| - 1 && After(START, syms[..n]) != ESCAPE {
        LastIsStop(After(START, syms[..n]), syms[n..]);
      }
    } else {
      assert syms[n..] == [];
      NoText(After(START, syms[..n]));
    }
  }

  lemma LastIsStop(last: byte, syms: seq<byte>)
    requires Terminated(last, syms) && |syms| == 1 && last != ESCAPE
    ensures syms == [STOP]
  {
  }

  /** Without that condition the text may be cut short.  It comes back whole if and only if no
      symbol before the stop is followed by 32 zero bits; the one right before it may be, unless
      it is an escape. */
  lemma WholeTextIff(table: Table, bits: seq<bool>, syms: seq<byte>)
    requires AllUsable(table) && AllPrefixFree(table)
    requires CanEncode(table, START, syms) && Terminated(START, syms) && Encode(table, START, syms) <= bits
    ensures var must := if After(START, syms[..|syms| - 1]) == ESCAPE then |syms| else |syms| - 1;
      DecodeBits(table, bits, 0, START) == Text(START, syms) <==> Heard(table, bits, 0, START, syms, must)
  {
    hide CodeOf, Next, HasCode, Silent, CodeEnd, Seen, Text, Encode, CanEncode, AllUsable, AllPrefixFree, DecodeBits, After;
    assert bits[0..] == bits;
    DecodeAfterEncode(table, bits, 0, START, syms);
    var n := Seen(table, bits, 0, START, syms);
    TextSplit(START, syms, n);
    RestHasNoTextIff(syms, n);
    var must := if After(START, syms[..|syms| - 1]) == ESCAPE then |syms| else |syms| - 1;
    if must > 0 {
      SeenIff(table, bits, 0, START, syms, must);
    }
    assert DecodeBits(table, bits, 0, START) == Text(START, syms) <==> n >= must;
  }

  function Quiet(): (s: seq<bool>)
    ensures |s| == 32 && forall i :: 0 <= i < 32 ==> !s[i]
  {
    seq(32, i => false)
  }

  /** Three symbols, one behind the other; the second has 32 zero bits for a code. */
  function ThreeCodes(): (t: Table)
    ensures t[0] == [Code([true], 97)] && t[97] == [Code(Quiet(), 98)] && t[98] == [Code([true], 0)]
    ensures AllUsable(t) && AllPrefixFree(t)
  {
    var t: Table := seq(256, i => []);
    t[START := [Code([true], 97)]][97 := [Code(Quiet(), 98)]][98 := [Code([true], STOP)]]
  }

  lemma ThreeSymbols(last: byte, c: byte)
    requires [last, c] in {[START, 97], [97, 98], [98, STOP]}
    ensures HasCode(ThreeCodes()[last], c) && Next(last, c) == c
    ensures CodeOf(ThreeCodes(), last, c) == if c == 98 then Quiet() else [true]
    ensures Own(last, c) == if c == STOP then [] else [c]
  {
    hide Quiet, AllUsable, AllPrefixFree;
    var codes := ThreeCodes()[last];
    assert codes[0].next == c;
    hide ThreeCodes;
  }

  /** A text that is cut short. */
  lemma TextCutShort()
    ensures var syms := [97, 98, 0];
      && CanEncode(ThreeCodes(), 0, syms) && Terminated(0, syms) && Text(0, syms) == [97, 98]
      && DecodeBits(ThreeCodes(), Encode(ThreeCodes(), 0, syms), 0, 0) == [97]
  {
    hide CodeOf, Next, HasCode, AllUsable, AllPrefixFree, ThreeCodes, Quiet, DecodeBits, Own;
    var t, syms: seq<byte> := ThreeCodes(), [97, 98, STOP];
    ThreeSymbols(START, 97);
    ThreeSymbols(97, 98);
    ThreeSymbols(98, STOP);
    assert syms[1..] == [98, STOP] && syms[1..][1..] == [STOP];
    assert CanEncode(t, 98, [STOP]);
    assert CanEncode(t, 97, [98, STOP]);
    var bits := Encode(t, START, syms);
    assert Encode(t, 98, [STOP]) == [true];
    assert Encode(t, 97, [98, STOP]) == Quiet() + [true];
    assert bits == [true] + (Quiet() + [true]);
    assert bits[0..] == bits;
    assert Silent(bits, 1) by {
      assert forall i :: 1 <= i < 33 ==> bits[i] == Quiet()[i - 1];
    }
    DecodeAfterEncode(t, bits, 0, START, syms);
    SeenStep(t, bits, 0, START, syms);
    assert syms[..1] == [97];
    assert Text(98, [STOP]) == [];
    assert Text(97, [98, STOP]) == [98];
    assert Text(START, syms) == [97] + Text(97, [98, STOP]);
  }
}
