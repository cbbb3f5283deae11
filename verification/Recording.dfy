/** A recording in parts, as it looks to a reader while another process is still writing it.

  The writer only appends to the last part and starts part k + 1 only when part k is complete.
  The reader uses at most MAX_PARTS parts.  Read end to end the parts form one flat stream.
 */
module Recording {

  import opened Bytes

  type Parts = seq<seq<byte>>

  const MAX_PARTS: int := 1000
  const OFF_MAX: int := 0x7FFF_FFFF_FFFF_FFFF
  const SSIZE_MAX: int := 0x7FFF_FFFF_FFFF_FFFF

  // ---------------------------------------------------------------- the flat stream

  /** Bytes in the first k parts. */
  function Len(p: Parts, k: nat): nat
    requires k <= |p|
  {
    if k == 0 then 0 else Len(p, k - 1) + |p[k - 1]|
  }

  function Flat(p: Parts): seq<byte> {
    if p == [] then [] else Flat(p[..|p| - 1]) + p[|p| - 1]
  }

  lemma {:induction false} LenPrefix(p: Parts, n: nat, k: nat)
    requires k <= n <= |p|
    ensures Len(p[..n], k) == Len(p, k)
  {
    if k > 0 {
      LenPrefix(p, n, k - 1);
    }
  }

  lemma {:induction false} FlatLength(p: Parts)
    ensures |Flat(p)| == Len(p, |p|)
  {
    if p != [] {
      FlatLength(p[..|p| - 1]);
      LenPrefix(p, |p| - 1, |p| - 1);
    }
  }

  lemma {:induction false} LenMonotone(p: Parts, j: nat, k: nat)
    requires j <= k <= |p|
    ensures Len(p, j) <= Len(p, k)
  {
    if j < k {
      LenMonotone(p, j, k - 1);
    }
  }

  /** Where a part sits in the flat stream. */
  lemma {:induction false} PartInFlat(p: Parts, k: nat, a: nat, b: nat)
    requires k < |p| && a <= b <= |p[k]|
    ensures Len(p, k) + b <= |Flat(p)|
    ensures Flat(p)[Len(p, k) + a..Len(p, k) + b] == p[k][a..b]
  {
    var init := p[..|p| - 1];
    FlatLength(p);
    FlatLength(init);
    LenPrefix(p, |p| - 1, |p| - 1);
    LenMonotone(p, k + 1, |p|);
    if k == |p| - 1 {
      assert Flat(p)[Len(p, k)..] == p[k];
    } else {
      PartInFlat(init, k, a, b);
      LenPrefix(p, |p| - 1, k);
      assert Flat(p)[..|Flat(init)|] == Flat(init);
    }
  }

  // ---------------------------------------------------------------- the writer

  /** What a later state of the recording may look like. */
  ghost predicate Grows(p: Parts, q: Parts) {
    && |p| <= |q|
    && (forall k :: 0 <= k < |p| ==> p[k] <= q[k])
    && (forall k :: 0 <= k < |p| - 1 ==> p[k] == q[k])
  }

  /** One action of the writer: append to the last part, or start the next one. */
  ghost predicate WriterStep(p: Parts, q: Parts) {
    || (p != [] && |q| == |p| && q[..|p| - 1] == p[..|p| - 1] && p[|p| - 1] <= q[|p| - 1])
    || q == p + [[]]
  }

  /** A writer appends any bytes, or none, to the last part, or starts the next one. */
  lemma WriterMay(before: Parts, last: seq<byte>, more: seq<byte>)
    ensures WriterStep(before + [last], before + [last + more])
    ensures WriterStep(before + [last], before + [last] + [[]]) && WriterStep([], [[]])
  {
    var p, q := before + [last], before + [last + more];
    assert p[..|p| - 1] == before == q[..|q| - 1];
  }

  lemma GrowsTrans(p: Parts, q: Parts, r: Parts)
    requires Grows(p, q) && Grows(q, r)
    ensures Grows(p, r)
  {
    forall k | 0 <= k < |p|
      ensures p[k] <= r[k]
    {
      assert p[k] <= q[k] && q[k] <= r[k];
    }
  }

  lemma StepGrows(p: Parts, q: Parts)
    requires WriterStep(p, q)
    ensures Grows(p, q)
  {
    if |q| == |p| {
      forall k | 0 <= k < |p| - 1
        ensures p[k] == q[k]
      {
        assert p[..|p| - 1][k] == q[..|p| - 1][k];
      }
    }
  }

  /** Any run of writer actions only grows the recording. */
  lemma {:induction false} WriterRunGrows(run: seq<Parts>, i: nat, j: nat)
    requires i <= j < |run|
    requires forall k :: 0 <= k < |run| - 1 ==> WriterStep(run[k], run[k + 1])
    ensures Grows(run[i], run[j])
  {
    if i < j {
      WriterRunGrows(run, i, j - 1);
      assert WriterStep(run[j - 1], run[j - 1 + 1]);
      StepGrows(run[j - 1], run[j]);
      GrowsTrans(run[i], run[j - 1], run[j]);
    }
  }

  /** The parts the reader can see. */
  function Seen(p: Parts): (q: Parts)
    ensures |q| <= 1000 && (|p| <= 1000 ==> q == p) && (|p| > 1000 ==> q == p[..1000])
  {
    if |p| <= MAX_PARTS then p else p[..MAX_PARTS]
  }

  lemma SeenGrows(p: Parts, q: Parts)
    requires Grows(p, q)
    ensures Grows(Seen(p), Seen(q))
  {
  }

  /** Offsets of complete parts are final, and the flat stream only gets longer. */
  lemma {:induction false} LenStable(p: Parts, q: Parts, k: nat)
    requires Grows(p, q) && k <= |p|
    ensures k < |p| ==> Len(p, k) == Len(q, k)
    ensures Len(p, k) <= Len(q, k)
  {
    if k > 0 {
      LenStable(p, q, k - 1);
      assert p[k - 1] <= q[k - 1];
    }
  }

  lemma FlatStable(p: Parts, q: Parts)
    requires Grows(p, q)
    ensures Flat(p) <= Flat(q)
  {
    if p != [] {
      var k := |p| - 1;
      var at, n := Len(q, k), |p[k]|;
      FlatLength(q);
      LenMonotone(q, k + 1, |q|);
      assert p[k] <= q[k];
      PartInFlat(q, k, 0, n);
      FlatOfFirst(q, k);
      assert p[..k] == q[..k];
      hide Len, Flat;
      assert Flat(p) == Flat(q[..k]) + q[k][0..n] by {
        LastPart(p);
        assert q[k][0..n] == p[k];
      }
      JoinSlices(Flat(q), at, at + n);
    }
  }

  lemma LastPart(p: Parts)
    requires p != []
    ensures Flat(p) == Flat(p[..|p| - 1]) + p[|p| - 1]
  {
  }

  lemma JoinSlices(s: seq<byte>, a: nat, b: nat)
    requires a <= b <= |s|
    ensures s[..a] + s[a..b] == s[..b] <= s
  {
  }

  lemma {:induction false} FlatOfFirst(p: Parts, k: nat)
    requires k <= |p|
    ensures Len(p, k) <= |Flat(p)| && Flat(p[..k]) == Flat(p)[..Len(p, k)]
  {
    FlatLength(p);
    LenMonotone(p, k, |p|);
    if k < |p| {
      var init := p[..|p| - 1];
      FlatOfFirst(init, k);
      LenPrefix(p, |p| - 1, k);
      assert init[..k] == p[..k];
      FlatLength(init);
      assert Flat(p)[..|Flat(init)|] == Flat(init);
    } else {
      assert p[..k] == p;
    }
  }

  // ---------------------------------------------------------------- the system calls

  /** Everything the reader does not control: the recording at each system call, which calls
      fail, and how much a read call delivers at most. */
  datatype World = World(parts: nat -> Parts, fails: nat -> bool, chunk: nat -> nat)

  ghost predicate Growing(w: World) {
    forall i: nat, j: nat :: i <= j ==> Grows(w.parts(i), w.parts(j))
  }

  /** The recording as seen at system call t. */
  function View(w: World, t: nat): Parts { Seen(w.parts(t)) }

  lemma ViewGrows(w: World, i: nat, j: nat)
    requires Growing(w) && i <= j
    ensures Grows(View(w, i), View(w, j))
  {
    SeenGrows(w.parts(i), w.parts(j));
  }

  datatype Stat = Size(size: nat) | NoEntry | Failed

  function StatAt(w: World, t: nat, k: nat): Stat {
    if w.fails(t) then Failed
    else if k < |w.parts(t)| then Size(|w.parts(t)[k]|)
    else NoEntry
  }

  /** What a read call delivers: at least one byte when there is one. */
  function ReadAt(w: World, t: nat, k: nat, pos: nat, amount: nat): (r: seq<byte>)
    requires k < |View(w, t)|
    ensures |r| <= amount
    ensures pos < |View(w, t)[k]| && amount > 0 ==> |r| > 0
    ensures r != [] ==> pos + |r| <= |View(w, t)[k]| && r == View(w, t)[k][pos..pos + |r|]
  {
    var part := View(w, t)[k];
    if pos >= |part| then []
    else
      var most := if amount <= |part| - pos then amount else |part| - pos;
      var n := if w.chunk(t) == 0 then 1 else w.chunk(t);
      part[pos..pos + if n < most then n else most]
  }

  // ---------------------------------------------------------------- the offset index

  /** The index records final offsets of parts that exist. */
  ghost predicate IndexOf(offsets: seq<int>, p: Parts) {
    && 1 <= |offsets| <= |p|
    && forall k :: 0 <= k < |offsets| ==> offsets[k] == Len(p, k)
  }

  /** The total covers all parts before the last indexed one, and no more than is present. */
  ghost predicate TotalOf(offsets: seq<int>, total: int, p: Parts)
    requires 1 <= |offsets| <= |p|
  {
    Len(p, |offsets| - 1) <= total <= Len(p, |offsets|)
  }

  lemma IndexStable(offsets: seq<int>, total: int, p: Parts, q: Parts)
    requires Grows(p, q) && IndexOf(offsets, p) && TotalOf(offsets, total, p)
    ensures IndexOf(offsets, q) && TotalOf(offsets, total, q)
  {
    forall k | 0 <= k < |offsets|
      ensures offsets[k] == Len(q, k)
    {
      LenStable(p, q, k);
    }
    LenStable(p, q, |offsets| - 1);
    LenStable(p, q, |offsets|);
  }

  /** An exact index: its last part is the last there is, and the total is everything. */
  ghost predicate Covers(offsets: seq<int>, total: int, p: Parts) {
    |p| <= |offsets| && total >= Len(p, |p|)
  }

  // The position of the first offset beyond off.
  ghost predicate IsUpperBound(offsets: seq<int>, off: int, k: nat) {
    && k <= |offsets|
    && (forall i :: 0 <= i < k ==> offsets[i] <= off)
    && (k < |offsets| ==> off < offsets[k])
  }

  lemma OffsetsSorted(offsets: seq<int>, p: Parts, i: nat, j: nat)
    requires IndexOf(offsets, p) && i <= j < |offsets|
    ensures offsets[i] <= offsets[j]
  {
    LenMonotone(p, i, j);
  }

  /** The data are the bytes of the flat stream at an offset. */
  ghost predicate IsSlice(p: Parts, offset: int, data: seq<byte>) {
    data != [] ==> 0 <= offset && offset + |data| <= |Flat(p)| && data == Flat(p)[offset..offset + |data|]
  }

  lemma EmptySlice(p: Parts, offset: int)
    ensures IsSlice(p, offset, [])
  {
  }

  lemma SliceFits(p: Parts, offset: int, data: seq<byte>)
    requires IsSlice(p, offset, data)
    ensures data != [] ==> 0 <= offset && offset + |data| <= |Flat(p)|
  {
  }

  lemma SliceStable(p: Parts, q: Parts, offset: int, data: seq<byte>)
    requires Grows(p, q) && IsSlice(p, offset, data)
    ensures IsSlice(q, offset, data)
  {
    FlatStable(p, q);
    hide Flat, Grows;
  }

  lemma SliceGrows(p: Parts, offset: int, data: seq<byte>, chunk: seq<byte>)
    requires IsSlice(p, offset, data) && IsSlice(p, offset + |data|, chunk) && chunk != [] && offset >= 0
    ensures IsSlice(p, offset, data + chunk)
  {
    hide Flat;
    var n, m := offset + |data|, offset + |data| + |chunk|;
    if data != [] {
      assert Flat(p)[offset..m] == Flat(p)[offset..n] + Flat(p)[n..m];
    } else {
      assert data + chunk == chunk;
    }
  }

  /** A read within a part delivers a slice of the stream. */
  lemma ReadIsSlice(w: World, t: nat, k: nat, pos: nat, amount: nat)
    requires k < |View(w, t)|
    ensures IsSlice(View(w, t), Len(View(w, t), k) + pos, ReadAt(w, t, k, pos, amount))
  {
    var r := ReadAt(w, t, k, pos, amount);
    hide ReadAt, Flat;
    if r != [] {
      PartInFlat(View(w, t), k, pos, pos + |r|);
    }
  }
}
