/** eRawFile: the parts of a recording read as one file. */
module RawFile {
  import opened Basics
  import opened Bytes
  import opened Recording

  datatype Turn = Bytes | AtEnd | Failure

  class RawFile {
    /** The surroundings, and the number of system calls made so far. */
    const world: World
    var time: nat

    var isOpen: bool
    /** The position of the open descriptor within the current part. */
    var fdPos: nat
    var offsets: seq<int>
    var totalLength: int
    var lastOffset: int
    var currentFile: nat

    constructor (world: World)
      ensures this.world == world && !isOpen && time == 0 && offsets == []
    {
      this.world, time, isOpen := world, 0, false;
      fdPos, offsets, totalLength, lastOffset, currentFile := 0, [], 0, 0, 0;
    }

    /** The recording as of the last system call. */
    ghost function Now(): (p: Parts)
      reads this
      ensures |world.parts(time)| <= 1000 ==> p == world.parts(time)
    {
      View(world, time)
    }

    /** While open: the index is right, and the descriptor stands at the last offset. */
    ghost predicate Valid()
      reads this
    {
      Growing(world) &&
      (isOpen ==>
        && IndexOf(offsets, Now()) && TotalOf(offsets, totalLength, Now())
        && currentFile < |offsets| && fdPos + offsets[currentFile] == lastOffset)
    }

    /** Nothing known about the recording is given up. */
    twostate predicate Keeps()
      reads this
    {
      && old(time) <= time && isOpen == old(isOpen)
      && old(offsets) <= offsets && old(totalLength) <= totalLength
    }

    /** No system call since the start of the method failed. */
    ghost predicate NoFailures(from: nat)
      reads this
    {
      forall t :: from < t <= time ==> !world.fails(t)
    }

    /** No size the program adds up overflows. */
    ghost predicate Fits()
      reads this
    {
      Len(Now(), |Now()|) <= 0x7FFF_FFFF_FFFF_FFFF
    }

    /** Both in terms of the recording and its surroundings. */
    lemma SurroundingsAre(from: nat)
      ensures Fits() <==> |Flat(Now())| <= 0x7FFF_FFFF_FFFF_FFFF
      ensures NoFailures(from) <==> forall t :: from + 1 <= t <= time ==> !world.fails(t)
    {
      FlatLength(Now());
    }

    /** One stat or fstat call on a part. */
    method StatPart(k: nat) returns (st: Stat)
      requires Valid()
      modifies `time
      ensures Valid() && time == old(time) + 1 && Grows(old(Now()), Now())
      ensures st == StatAt(world, time, k)
    {
      ghost var was := Now();
      time := time + 1;
      ViewGrows(world, time - 1, time);
      if isOpen {
        IndexStable(offsets, totalLength, was, Now());
      }
      st := StatAt(world, time, k);
    }

    /** The size of a part known to exist. */
    method PartSize(k: nat) returns (ok: bool, size: nat)
      requires Valid() && isOpen && k < |offsets|
      modifies `time
      ensures Valid() && time == old(time) + 1 && Grows(old(Now()), Now())
      ensures ok ==> k < |Now()| && size == |Now()[k]|
      ensures !ok ==> world.fails(time)
    {
      var st := StatPart(k);
      ok, size := st.Size?, if st.Size? then st.size else 0;
    }

    /** What the scan loop knows: `current` is a size of part `last` seen since the scan began,
        when the recording was p0. */
    ghost predicate Scanning(p0: Parts, last: nat, current: nat)
      reads this
    {
      && Valid() && isOpen && Grows(p0, Now())
      && |offsets| == last + 1 && last < MAX_PARTS
      && current <= |Now()[last]| && (last < |p0| ==> |p0[last]| <= current)
    }

    /** eRawFile::scan: 0, or -1 when a stat call fails or a size does not fit.  On success the
        index covers everything that was there when the scan began. */
    method Scan() returns (r: int)
      requires Valid()
      modifies `time, `offsets, `totalLength
      ensures Valid() && Keeps() && Grows(old(Now()), Now())
      ensures r == 0 || r == -1
      ensures r == 0 ==> isOpen && Covers(offsets, totalLength, old(Now()))
      ensures isOpen && NoFailures(old(time)) && Fits() ==> r == 0
    {
      if !isOpen {
        GrowsRefl(Now());
        return -1;
      }
      ghost var p0 := Now();
      var last: nat, ok, current: nat := |offsets| - 1, false, 0;
      ok, current := PartSize(last);
      if !ok {
        return -1;
      }
      TotalBelow(offsets, totalLength, p0, last);
      GrownPart(p0, Now(), last);
      hide Growing, Grows;
      r := 1;
      while r == 1
        invariant Keeps() && old(time) < time && Valid() && isOpen && Grows(p0, Now())
        invariant r == 1 ==> Scanning(p0, last, current) && totalLength <= offsets[last] + current
        invariant r == 1 || r == 0 || r == -1
        invariant r == 0 ==> Covers(offsets, totalLength, p0)
        invariant r == -1 ==> !(NoFailures(old(time)) && Fits())
        decreases if r == 1 then MAX_PARTS - last else -1
      {
        r, last, current := ScanPart(p0, last, current);
      }
    }

    /** One turn of the scan loop: record the size, look for a successor, and if there is one
        enter it.  The result is 1 to go on, 0 when done, -1 on failure. */
    method ScanPart(ghost p0: Parts, last: nat, current: nat) returns (r: int, last': nat, current': nat)
      requires Scanning(p0, last, current) && totalLength <= offsets[last] + current
      modifies `time, `offsets, `totalLength
      ensures Keeps() && Valid() && isOpen && Grows(p0, Now())
      ensures r == 1 || r == 0 || r == -1
      ensures r == 1 ==> last' == last + 1 && Scanning(p0, last', current') && totalLength <= offsets[last'] + current'
      ensures r == 0 ==> Covers(offsets, totalLength, p0)
      ensures r == -1 ==> !(NoFailures(old(time)) && Fits())
    {
      hide Growing, Grows, Len, Covers, Seen, Flat;
      last', current' := last, current;
      TotalFits(offsets, Now(), last, current);
      if current > OFF_MAX - offsets[last] {
        return -1, last', current';
      }
      totalLength := offsets[last] + current;
      SizeIsTotal(offsets, Now(), last, current);
      if last == MAX_PARTS - 1 {
        NoMoreParts(world, time, p0);
        CoversAll(offsets, totalLength, p0, Now());
        return 0, last', current';
      }
      ghost var p1 := Now();
      var st := StatPart(last + 1);
      GrowsTrans(p0, p1, Now());
      if st.NoEntry? {
        SeenLength(world, time, p0, last);
        CoversAll(offsets, totalLength, p0, Now());
        return 0, last', current';
      }
      if st.Failed? {
        return -1, last', current';
      }
      var ok := EnterPart(p0, last, current, st.size);
      if !ok {
        return -1, last', current';
      }
      return 1, last + 1, st.size;
    }

    /** A successor exists, so part `last` is complete: re-read its size and index the successor. */
    method EnterPart(ghost p0: Parts, last: nat, ghost current: nat, next: nat) returns (ok: bool)
      requires Valid() && isOpen && Grows(p0, Now()) && |offsets| == last + 1 && last + 1 < MAX_PARTS
      requires last + 1 < |Now()| && next == |Now()[last + 1]|
      requires totalLength == offsets[last] + current && current <= |Now()[last]|
      modifies `time, `offsets, `totalLength
      ensures Keeps() && Valid() && isOpen && Grows(p0, Now())
      ensures ok ==> Scanning(p0, last + 1, next) && totalLength == offsets[last + 1]
      ensures !ok ==> !(NoFailures(old(time)) && Fits())
    {
      hide Growing, Len, Covers, Seen, Flat;
      ghost var p2 := Now();
      var size;
      ok, size := PartSize(last);
      GrowsTrans(p0, p2, Now());
      if !ok {
        return;
      }
      TotalFits(offsets, Now(), last, size);
      GrownPart(p2, Now(), last);
      GrownPart(p2, Now(), last + 1);
      GrownPart(p0, p2, last + 1);
      hide Grows;
      if size > OFF_MAX - offsets[last] {
        return false;
      }
      PartComplete(offsets, Now(), last);
      totalLength := offsets[last] + size;
      offsets := offsets + [totalLength];
    }

    /** eRawFile::open: the descriptor, or -1. */
    method Open() returns (fd: int)
      requires Growing(world)
      modifies this
      ensures Valid() && old(time) <= time && (fd >= 0 <==> isOpen)
      ensures isOpen ==> offsets != [] && offsets[0] == 0 && lastOffset == 0
      ensures NoFailures(old(time)) && Fits() && old(Now()) != [] ==> isOpen
    {
      ghost var p0 := Now();
      isOpen, offsets, totalLength, currentFile, lastOffset, fdPos := false, [], 0, 0, 0, 0;
      var failed := Tick();
      if failed || |world.parts(time)| == 0 {
        return -1;
      }
      isOpen, offsets := true, [0];
      var r := Scan();
      if r < 0 {
        isOpen := false;
        return -1;
      }
      fd := 0;
    }

    /** Any other system call: time passes, the recording may have grown. */
    method Tick() returns (failed: bool)
      requires Valid()
      modifies `time
      ensures Valid() && time == old(time) + 1 && Grows(old(Now()), Now()) && failed == world.fails(time)
    {
      var st := StatPart(0);
      failed := world.fails(time);
    }

    /** std::upper_bound on the offsets. */
    method UpperBound(off: int) returns (k: nat)
      requires Valid() && isOpen
      ensures IsUpperBound(offsets, off, k)
    {
      var count := |offsets|;
      k := 0;
      while count > 0
        invariant 0 <= k <= k + count <= |offsets|
        invariant forall i :: 0 <= i < k ==> offsets[i] <= off
        invariant forall i :: k + count <= i < |offsets| ==> off < offsets[i]
        decreases count
      {
        var step := count / 2;
        SortedAround(offsets, Now(), k + step);
        if off < offsets[k + step] {
          count := step;
        } else {
          k := k + step + 1;
          count := count - step - 1;
        }
      }
    }

    /** eRawFile::switchOffset: bring the right part and position under the descriptor. */
    method SwitchOffset(off: int) returns (r: int)
      requires Valid() && isOpen && off >= 0
      modifies `time, `fdPos, `lastOffset, `currentFile
      ensures Valid() && old(time) <= time && Grows(old(Now()), Now())
      ensures r == -1 ==> old(time) < time && world.fails(time)
      ensures r != -1 ==> r == off == lastOffset && IsUpperBound(offsets, off, currentFile + 1)
    {
      hide Grows, Growing, IndexOf, TotalOf;
      GrowsRefl(Now());
      var k := UpperBound(off);
      FirstOffset(offsets, Now());
      assert k > 0;
      var filenr := k - 1;
      if filenr != currentFile {
        var failed := Tick();
        if failed {
          return -1;
        }
        currentFile, fdPos, lastOffset := filenr, 0, offsets[filenr];
      }
      if off != lastOffset {
        ghost var was := Now();
        var failed := Tick();
        GrowsTrans(old(Now()), was, Now());
        if failed {
          return -1;
        }
        fdPos, lastOffset := off - offsets[filenr], off;
      }
      r := lastOffset;
    }

    /** The read call within the current part. */
    method ReadSome(off: int, count: nat) returns (ok: bool, chunk: seq<byte>)
      requires Valid() && isOpen && count > 0 && 0 <= off == lastOffset < totalLength
      requires IsUpperBound(offsets, off, currentFile + 1)
      modifies `time, `fdPos, `lastOffset
      ensures Valid() && time == old(time) + 1 && Grows(old(Now()), Now())
      ensures ok ==> 0 < |chunk| <= count && lastOffset == off + |chunk| && IsSlice(Now(), off, chunk)
      ensures !ok ==> world.fails(time) && lastOffset == off
    {
      hide Grows, Growing, ReadAt, IsSlice, Len;
      var end := if currentFile + 1 < |offsets| then offsets[currentFile + 1] else totalLength;
      var amount := if count < end - off then count else end - off;
      WithinPart(offsets, totalLength, Now(), off, currentFile);
      var failed := Tick();
      if failed {
        return false, [];
      }
      WithinPart(offsets, totalLength, Now(), off, currentFile);
      hide IndexOf, TotalOf, IsUpperBound;
      chunk := ReadAt(world, time, currentFile, fdPos, amount);
      ReadIsSlice(world, time, currentFile, fdPos, amount);
      fdPos, lastOffset := fdPos + |chunk|, off + |chunk|;
      ok := true;
    }

    /** eRawFile::read.  The bytes delivered are the bytes of the flat stream at the offset.  It
        delivers everything asked for, or everything up to the end the recording had when the
        call began, unless a system call fails. */
    method Read(offset: int, count0: nat) returns (n: int, data: seq<byte>)
      requires Valid()
      modifies this
      ensures Valid() && Keeps() && Grows(old(Now()), Now())
      ensures if n == -1 then data == [] else 0 <= n == |data| <= count0
      ensures IsSlice(Now(), offset, data)
      ensures n >= 0 ==> isOpen && offset >= 0
      ensures isOpen && offset >= 0 && NoFailures(old(time)) && Fits() ==>
                n >= 0 && (n == Clip(count0) || offset + n >= |Flat(old(Now()))|)
      ensures isOpen && offset >= 0 && NoFailures(old(time)) && Fits() && Now() == old(Now()) ==>
                n == Min(Clip(count0), Max(0, |Flat(Now())| - offset))
      ensures |world.parts(time)| <= 1000 ==> Now() == world.parts(time) && old(Now()) == old(world.parts(time))
    {
      hide Growing, Grows, Flat, IsSlice;
      GrowsRefl(Now());
      EmptySlice(Now(), offset);
      PartsOnlyGrow(world);
      if !isOpen || offset < 0 {
        return -1, [];
      }
      var count := Clip(count0);
      ghost var p0 := Now();
      var off := offset;
      data := [];
      while |data| < count
        invariant Valid() && isOpen && Keeps() && Grows(p0, Now())
        invariant |data| <= count && off == offset + |data| && IsSlice(Now(), offset, data)
        decreases count - |data|
      {
        ghost var p1 := Now();
        var turn, chunk := ReadTurn(off, count - |data|);
        GrowsTrans(p0, p1, Now());
        SliceStable(p1, Now(), offset, data);
        if turn == AtEnd {
          LongerFlat(p0, p1);
          SliceFits(Now(), offset, data);
          return |data|, data;
        }
        if turn == Failure {
          return if data == [] then -1 else |data|, data;
        }
        SliceGrows(Now(), offset, data, chunk);
        data := data + chunk;
        off := off + |chunk|;
      }
      SliceFits(Now(), offset, data);
      n := |data|;
    }

    /** One turn of the read loop at an offset: scan when the known end is reached, position the
        descriptor, read. */
    method ReadTurn(off: int, count: nat) returns (turn: Turn, chunk: seq<byte>)
      requires Valid() && isOpen && off >= 0 && count > 0
      modifies this
      ensures Valid() && Keeps() && Grows(old(Now()), Now())
      ensures turn == Bytes ==> 0 < |chunk| <= count && IsSlice(Now(), off, chunk)
      ensures turn == AtEnd ==> off >= |Flat(old(Now()))|
      ensures turn == Failure ==> !(NoFailures(old(time)) && Fits())
    {
      chunk := [];
      ghost var p1 := Now();
      hide Growing, Grows, Flat, IsUpperBound, IndexOf, TotalOf, Len, IsSlice;
      GrowsRefl(p1);
      if off >= totalLength {
        var r := Scan();
        if r < 0 {
          return Failure, chunk;
        }
      }
      ghost var p2 := Now();
      var at := SwitchOffset(off);
      GrowsTrans(p1, p2, Now());
      if at < 0 {
        return Failure, chunk;
      }
      if off >= totalLength {
        EndReached(offsets, totalLength, p1, off);
        return AtEnd, chunk;
      }
      ghost var p3 := Now();
      var ok;
      ok, chunk := ReadSome(off, count);
      GrowsTrans(p1, p3, Now());
      turn := if ok then Bytes else Failure;
    }

    /** eRawFile::length. */
    method Length() returns (len: int)
      requires Valid()
      modifies `time, `offsets, `totalLength
      ensures Valid() && Keeps()
      ensures len == -1 || |Flat(old(Now()))| <= len <= |Flat(Now())|
      ensures isOpen && NoFailures(old(time)) && Fits() ==> len >= 0
      ensures !isOpen ==> len == -1
      ensures |world.parts(time)| <= 1000 && len >= 0 ==> |Flat(old(world.parts(time)))| <= len <= |Flat(world.parts(time))|
    {
      PartsOnlyGrow(world);
      var r := Scan();
      if r < 0 {
        return -1;
      }
      FlatLength(old(Now()));
      FlatLength(Now());
      LenMonotone(Now(), |offsets|, |Now()|);
      len := totalLength;
    }
  }

  lemma NoMoreParts(w: World, t: nat, p0: Parts)
    requires Grows(p0, View(w, t))
    ensures |p0| <= 1000
  {
  }

  lemma PartsOnlyGrow(w: World)
    requires Growing(w)
    ensures forall i: nat, j: nat :: i <= j ==> |w.parts(i)| <= |w.parts(j)|
  {
    forall i: nat, j: nat | i <= j
      ensures |w.parts(i)| <= |w.parts(j)|
    {
      assert Grows(w.parts(i), w.parts(j));
    }
  }

  /** The request size that fits the result type. */
  function Clip(count: nat): (c: nat)
    ensures c <= count && c <= 0x7FFF_FFFF_FFFF_FFFF && (count <= 0x7FFF_FFFF_FFFF_FFFF ==> c == count)
  {
    if count < SSIZE_MAX then count else SSIZE_MAX
  }

  lemma FirstOffset(offsets: seq<int>, p: Parts)
    requires IndexOf(offsets, p)
    ensures offsets[0] == 0
  {
  }

  lemma SortedAround(offsets: seq<int>, p: Parts, k: nat)
    requires IndexOf(offsets, p) && k < |offsets|
    ensures forall i :: 0 <= i <= k ==> offsets[i] <= offsets[k]
    ensures forall i :: k <= i < |offsets| ==> offsets[k] <= offsets[i]
  {
    forall i | 0 <= i <= k
      ensures offsets[i] <= offsets[k]
    {
      OffsetsSorted(offsets, p, i, k);
    }
    forall i | k <= i < |offsets|
      ensures offsets[k] <= offsets[i]
    {
      OffsetsSorted(offsets, p, k, i);
    }
  }

  /** An offset below the total lies inside the part that the offsets select. */
  lemma WithinPart(offsets: seq<int>, total: int, p: Parts, off: int, k: nat)
    requires IndexOf(offsets, p) && TotalOf(offsets, total, p) && k < |offsets|
    requires IsUpperBound(offsets, off, k + 1) && 0 <= off < total
    ensures offsets[k] == Len(p, k) <= off < Len(p, k) + |p[k]|
    ensures off < if k + 1 < |offsets| then offsets[k + 1] else total
  {
  }

  lemma LongerFlat(p: Parts, q: Parts)
    requires Grows(p, q)
    ensures |Flat(p)| <= |Flat(q)|
  {
    FlatStable(p, q);
  }

  /** Past the total right after a scan: past everything there was when the scan began. */
  lemma EndReached(offsets: seq<int>, total: int, p: Parts, off: int)
    requires Covers(offsets, total, p) && off >= total
    ensures off >= |Flat(p)|
  {
    FlatLength(p);
  }

  lemma TotalBelow(offsets: seq<int>, total: int, p: Parts, last: nat)
    requires IndexOf(offsets, p) && TotalOf(offsets, total, p) && |offsets| == last + 1
    ensures total <= offsets[last] + |p[last]|
  {
  }

  lemma SizeIsTotal(offsets: seq<int>, p: Parts, last: nat, current: nat)
    requires IndexOf(offsets, p) && |offsets| == last + 1 && current <= |p[last]|
    ensures TotalOf(offsets, offsets[last] + current, p)
  {
  }

  /** No successor at call t: the recording had no more parts earlier either. */
  lemma SeenLength(w: World, t: nat, p0: Parts, last: nat)
    requires StatAt(w, t, last + 1).NoEntry? && Grows(p0, View(w, t))
    ensures |p0| <= last + 1
  {
  }

  lemma GrowsRefl(p: Parts)
    ensures Grows(p, p)
  {
  }

  lemma GrownPart(p: Parts, q: Parts, k: nat)
    requires Grows(p, q)
    ensures k < |p| ==> k < |q| && |p[k]| <= |q[k]|
  {
  }

  lemma TotalFits(offsets: seq<int>, p: Parts, last: nat, current: nat)
    requires IndexOf(offsets, p) && |offsets| == last + 1 && current <= |p[last]|
    ensures offsets[last] + current <= Len(p, last + 1) <= Len(p, |p|)
  {
    LenMonotone(p, last + 1, |p|);
  }

  /** When the last indexed part is the last there is, the total covers what there was before. */
  lemma CoversAll(offsets: seq<int>, total: int, p0: Parts, p: Parts)
    requires Grows(p0, p) && IndexOf(offsets, p) && |p0| <= |offsets|
    requires total >= offsets[|offsets| - 1]
    requires |p0| == |offsets| ==> total >= offsets[|offsets| - 1] + |p0[|offsets| - 1]|
    ensures Covers(offsets, total, p0)
  {
    var n := |p0|;
    if n < |offsets| {
      LenStable(p0, p, n);
      LenMonotone(p, n, |offsets| - 1);
    } else {
      LenStable(p0, p, n - 1);
    }
  }

  /** A part with a successor is complete: its size closes the index entry of the successor. */
  lemma PartComplete(offsets: seq<int>, p: Parts, last: nat)
    requires IndexOf(offsets, p) && |offsets| == last + 1 && last + 1 < |p|
    ensures IndexOf(offsets + [offsets[last] + |p[last]|], p)
    ensures TotalOf(offsets + [offsets[last] + |p[last]|], offsets[last] + |p[last]|, p)
  {
    LenMonotone(p, last + 1, last + 2);
  }
}
