/** eIOBuffer: a list of blocks with a read pointer, behaving as one queue of bytes.

  A block keeps its bytes in use; the unused rest of its allocation is not represented.
 */
module IoBuffer {
  import opened Basics
  import opened Bytes

  type Block = seq<byte>

  /** The bytes of all blocks, in order. */
  function Concat(blocks: seq<Block>): seq<byte> {
    if blocks == [] then [] else blocks[0] + Concat(blocks[1..])
  }

  lemma {:induction false} ConcatSplit(blocks: seq<Block>, k: nat)
    requires k <= |blocks|
    ensures Concat(blocks) == Concat(blocks[..k]) + Concat(blocks[k..])
  {
    if k > 0 {
      ConcatSplit(blocks[1..], k - 1);
      assert blocks[..k][1..] == blocks[1..][..k - 1];
      assert blocks[k..] == blocks[1..][k - 1..];
    } else {
      assert blocks[0..] == blocks;
    }
  }

  lemma ConcatLast(blocks: seq<Block>, b: Block)
    ensures Concat(blocks + [b]) == Concat(blocks) + b
  {
    ConcatSplit(blocks + [b], |blocks|);
    assert (blocks + [b])[..|blocks|] == blocks;
    assert (blocks + [b])[|blocks|..] == [b];
    assert Concat([b]) == b;
  }

  /** The position of the first byte equal to ch, or -1. */
  function FirstIndex(s: seq<byte>, ch: int): (i: int)
    ensures -1 <= i < |s|
    ensures i >= 0 ==> s[i] == ch && forall j :: 0 <= j < i ==> s[j] != ch
    ensures i == -1 ==> forall j :: 0 <= j < |s| ==> s[j] != ch
  {
    if s == [] then -1
    else if s[0] == ch then 0
    else
      var i := FirstIndex(s[1..], ch);
      assert forall j :: 1 <= j < |s| ==> s[j] == s[1..][j - 1];
      if i < 0 then -1 else i + 1
  }

  // ------------------------------------------------------------------ the room in the last block

  /** How much fits before a block must be added; a full or missing block has no room, and a block
      about to be written has all of its room. */
  function Space(room: nat, size: nat): nat { if room == 0 then size else room }

  /** The room left after n bytes, n > 0, have been appended. */
  function RoomAfterAppending(room: nat, n: nat, size: nat): nat
    requires size > 0
  {
    if n == 0 then room else (room - n) % size
  }

  /** The room left after fromfile asked for len bytes and got re: a block added for bytes that do
      not come stays without any. */
  function RoomAfterReading(room: nat, len: nat, re: nat, size: nat): nat
    requires size > 0
  {
    if len == 0 then room
    else if re < len && (room - re) % size == 0 then size
    else (room - re) % size
  }

  /** The room left after the first n of `have` bytes have been dropped: the last block goes with
      its last byte, unless it never had one. */
  function RoomAfterTaking(room: nat, have: nat, n: nat, size: nat): nat {
    if n == have && n > 0 && room < size then 0 else room
  }

  /** The room left after tofile: asked for more than there is, it drops even a block without
      bytes. */
  function RoomAfterFile(room: nat, have: nat, len: nat, n: nat, size: nat): nat {
    if n == have && len > have then 0 else RoomAfterTaking(room, have, n, size)
  }

  /** The length of the first chunk: all blocks but the last are full when they are filled. */
  function FrontLength(have: nat, room: nat, size: nat): (f: nat)
    requires 0 < have && room <= size && size > 0
    ensures 0 < f <= have
  {
    if have <= size - room then have
    else
      ModIsSmall(have - (size - room) - 1, size);
      (have - (size - room) - 1) % size + 1
  }

  /** The same for a buffer that may be without bytes. */
  function FirstLength(have: nat, room: nat, size: nat): (f: nat)
    requires room <= size && size > 0
    ensures f <= have
  {
    if have > 0 then FrontLength(have, room, size) else 0
  }

  /** What dropping the first w of `have` bytes, all in the first block, does to the room: `gone`
      when no block is left. */
  predicate Moved(have: nat, room: nat, w: nat, left: nat, gone: bool, size: nat) {
    if w < have then left == room && !gone
    else if have > 0 then left == (if room < size then 0 else size) && (gone <==> room < size)
    else left == 0 && gone
  }

  lemma ModIsSmall(x: nat, size: nat)
    requires size > 0
    ensures 0 <= x % size <= x
  {
  }

  /** Appending in two steps: what the first leaves, the second starts from. */
  lemma AppendingAddsUp(room: nat, done: nat, now: nat, n: nat, size: nat)
    requires size > 0 && room <= size && now <= size && now == RoomAfterAppending(room, done, size)
    requires 0 < n <= Space(now, size)
    ensures RoomAfterAppending(room, done + n, size) == Space(now, size) - n
  {
    var q := if done == 0 then 0 else (room - done) / size;
    assert room - done == q * size + now;
    if Space(now, size) == now {
      ModUnique(room - (done + n), size, q, now - n);
    } else {
      assert (q - 1) * size == q * size - size;
      ModUnique(room - (done + n), size, q - 1, size - n);
    }
  }

  lemma AppendingNothing(room: nat, size: nat)
    requires size > 0
    ensures RoomAfterAppending(room, 0, size) == room
  {
  }

  /** Reading that gets all it was asked for is appending. */
  lemma ReadingWhole(room: nat, len: nat, size: nat)
    requires size > 0
    ensures RoomAfterReading(room, len, len, size) == RoomAfterAppending(room, len, size)
  {
  }

  /** A read that comes short after `done` bytes. */
  lemma ReadingShort(room: nat, len: nat, done: nat, now: nat, r: nat, size: nat)
    requires size > 0 && room <= size && now <= size && now == RoomAfterAppending(room, done, size)
    requires r < Space(now, size) && done + r < len
    ensures RoomAfterReading(room, len, done + r, size) == Space(now, size) - r
  {
    if r > 0 {
      AppendingAddsUp(room, done, now, r, size);
    } else if done == 0 {
      if room < size {
        ModUnique(room, size, 0, room);
      } else {
        ModUnique(room, size, 1, 0);
      }
    }
  }

  /** How many bytes tofile hands over, block by block, until it is done or one is not taken
      whole. */
  function Taken(have: nat, room: nat, size: nat, len: nat, accept: nat -> int, k: nat): (n: nat)
    requires room <= size && size > 0
    ensures n <= have && n <= len
    decreases have
  {
    if len == 0 || have == 0 then 0
    else
      var tc := Min(FrontLength(have, room, size), len);
      var w := Offered(accept(k), tc);
      if w < tc then w else w + Taken(have - w, room, size, len - w, accept, k + 1)
  }

  /** What a write of n bytes takes: nothing on an error. */
  function Offered(answer: int, n: nat): (w: nat)
    ensures w <= n
  {
    if answer < 0 then 0 else Min(answer, n)
  }

  /** How many bytes fromfile gets, block by block, until it is done or one read comes short. */
  function Arriving(room: nat, size: nat, len: nat, input: nat, chunk: nat -> nat, k: nat): (n: nat)
    requires room <= size && size > 0
    ensures n <= len && n <= input
    decreases len
  {
    if len == 0 then 0
    else
      var tc := Min(len, Space(room, size));
      var r := Min(tc, Min(input, chunk(k)));
      if r < tc then r else r + Arriving(Space(room, size) - r, size, len - r, input - r, chunk, k + 1)
  }

  /** When no write is cut short, tofile hands over all that was asked for or all there is. */
  lemma {:induction false} AllTaken(have: nat, room: nat, size: nat, len: nat, accept: nat -> int, k: nat)
    requires room <= size && size > 0 && forall i :: accept(i) >= size
    ensures Taken(have, room, size, len, accept, k) == Min(len, have)
    decreases have
  {
    if len > 0 && have > 0 {
      FrontFits(have, room, size);
      var tc := Min(FrontLength(have, room, size), len);
      AllTaken(have - tc, room, size, len - tc, accept, k + 1);
    }
  }

  lemma FrontFits(have: nat, room: nat, size: nat)
    requires 0 < have && room <= size && size > 0
    ensures FrontLength(have, room, size) <= size
  {
  }

  /** When no read comes short of a block, fromfile gets all that was asked for or all there is. */
  lemma {:induction false} AllArrives(room: nat, size: nat, len: nat, input: nat, chunk: nat -> nat, k: nat)
    requires room <= size && size > 0 && forall i :: chunk(i) >= size
    ensures Arriving(room, size, len, input, chunk, k) == Min(len, input)
    decreases len
  {
    if len > 0 {
      var tc := Min(len, Space(room, size));
      if input >= tc {
        AllArrives(Space(room, size) - tc, size, len - tc, input - tc, chunk, k + 1);
      }
    }
  }

  function RoomOf(blocks: seq<Block>, size: nat): nat {
    if blocks == [] || |blocks[|blocks| - 1]| >= size then 0 else size - |blocks[|blocks| - 1]|
  }

  /** All blocks but the last are full, and that is not overfull. */
  ghost predicate Full(blocks: seq<Block>, size: nat) {
    && (forall i :: 0 <= i < |blocks| ==> |blocks[i]| <= size)
    && (forall i :: 0 <= i < |blocks| - 1 ==> |blocks[i]| == size)
  }

  lemma FullTail(blocks: seq<Block>, size: nat)
    requires Full(blocks, size) && blocks != []
    ensures Full(blocks[1..], size)
    ensures RoomOf(blocks[1..], size) == if |blocks| == 1 then 0 else RoomOf(blocks, size)
  {
  }

  /** Nothing is left only when there is no block, or one without bytes. */
  lemma BytesInBlocks(blocks: seq<Block>, ptr: nat, size: nat)
    requires Full(blocks, size) && size > 0
    requires if blocks == [] || blocks[0] == [] then ptr == 0 else ptr < |blocks[0]|
    ensures ptr <= |Concat(blocks)|
    ensures Concat(blocks)[ptr..] == [] <==> blocks == [] || blocks == [[]]
    ensures blocks != [] && blocks[0] == [] ==> blocks == [[]]
  {
  }

  lemma {:induction false} TotalLength(blocks: seq<Block>, size: nat)
    requires Full(blocks, size) && blocks != []
    ensures |Concat(blocks)| == (|blocks| - 1) * size + |blocks[|blocks| - 1]|
  {
    if |blocks| > 1 {
      FullTail(blocks, size);
      TotalLength(blocks[1..], size);
      assert (|blocks| - 1) * size == size + (|blocks| - 2) * size;
    } else {
      assert blocks[1..] == [];
    }
  }

  lemma FrontOfMany(n: nat, last: nat, ptr: nat, size: nat)
    requires n > 1 && last <= size && ptr < size
    ensures (n - 1) * size + last - ptr > last
    ensures FrontLength((n - 1) * size + last - ptr, size - last, size) == size - ptr
  {
    assert (n - 1) * size == (n - 2) * size + size;
    assert (n - 2) * size >= 0;
    ModUnique((n - 1) * size - ptr - 1, size, n - 2, size - ptr - 1);
  }

  /** The first chunk is as long as the number of bytes and the room say. */
  lemma FrontIs(blocks: seq<Block>, ptr: nat, size: nat)
    requires Full(blocks, size) && size > 0 && blocks != [] && blocks[0] != [] && ptr < |blocks[0]|
    ensures ptr < |Concat(blocks)| && RoomOf(blocks, size) <= size
    ensures FrontLength(|Concat(blocks)| - ptr, RoomOf(blocks, size), size) == |blocks[0]| - ptr
  {
    hide Concat;
    TotalLength(blocks, size);
    var n, last := |blocks|, |blocks[|blocks| - 1]|;
    if n > 1 {
      FrontOfMany(n, last, ptr, size);
    } else {
      assert blocks[0] == blocks[n - 1];
    }
  }

  /** The length of the first block's bytes, none for a block without bytes. */
  lemma FirstChunk(blocks: seq<Block>, ptr: nat, size: nat)
    requires Full(blocks, size) && size > 0 && blocks != [] && ptr <= |Concat(blocks)| && RoomOf(blocks, size) <= size
    requires if blocks[0] == [] then ptr == 0 else ptr < |blocks[0]|
    ensures var have := |Concat(blocks)| - ptr;
      |blocks[0]| - ptr == FirstLength(have, RoomOf(blocks, size), size)
  {
    BytesInBlocks(blocks, ptr, size);
    hide Concat, RoomOf;
    if blocks[0] != [] {
      FrontIs(blocks, ptr, size);
    }
  }

  /** What moving the pointer leaves, and the room with it. */
  lemma AfterAdvance(before: seq<Block>, ptr: nat, w: nat, after: seq<Block>, ptr': nat, size: nat)
    requires Full(before, size) && size > 0 && before != []
    requires (if before[0] == [] then ptr == 0 else ptr < |before[0]|) && ptr + w <= |before[0]|
    requires after == if ptr + w == |before[0]| then before[1..] else before
    requires if after == [] || after[0] == [] then ptr' == 0 else ptr' < |after[0]|
    requires ptr <= |Concat(before)| && ptr' <= |Concat(after)| && |Concat(before)| - ptr == w + |Concat(after)| - ptr'
    ensures Moved(|Concat(before)| - ptr, RoomOf(before, size), w, RoomOf(after, size), after == [], size)
  {
    FullTail(before, size);
    BytesInBlocks(before, ptr, size);
    BytesInBlocks(after, ptr', size);
    OneBlockRoom(before, size);
    OneBlockRoom(after, size);
    hide Concat, Full, RoomOf;
  }

  datatype Queue = Queue(bytes: seq<byte>, room: nat)

  class IOBuffer {
    const allocationSize: nat
    var blocks: seq<Block>
    var ptr: nat

    constructor (allocationSize: nat)
      requires allocationSize > 0
      ensures Valid() && View() == Queue([], 0) && this.allocationSize == allocationSize
    {
      this.allocationSize, blocks, ptr := allocationSize, [], 0;
    }

    /** All blocks but the last are full, and the pointer has not reached the end of a block with
        bytes. */
    ghost predicate Valid()
      reads this
    {
      && allocationSize > 0 && Full(blocks, allocationSize)
      && (if blocks == [] || blocks[0] == [] then ptr == 0 else ptr < |blocks[0]|)
    }

    /** The room in the last block; none when there is no block. */
    function Room(): nat
      reads this
    {
      RoomOf(blocks, allocationSize)
    }

    /** What the buffer amounts to. */
    ghost function View(): (q: Queue)
      requires Valid()
      reads this
      ensures q.room <= allocationSize
    {
      Queue(Contents(), Room())
    }

    ghost function Contents(): seq<byte>
      requires Valid()
      reads this
    {
      PointerInside(blocks, ptr);
      Concat(blocks)[ptr..]
    }

    /** eIOBuffer::size. */
    method Size() returns (total: int)
      requires Valid()
      ensures total == |Contents()|
    {
      var i := 0;
      total := 0;
      while i < |blocks|
        invariant 0 <= i <= |blocks|
        invariant total == |Concat(blocks[..i])|
      {
        assert blocks[..i + 1] == blocks[..i] + [blocks[i]];
        ConcatLast(blocks[..i], blocks[i]);
        total := total + |blocks[i]|;
        i := i + 1;
      }
      assert blocks[..i] == blocks;
      total := total - ptr;
    }

    /** eIOBuffer::empty: whether there are blocks, which may be without bytes. */
    method Empty() returns (e: bool)
      requires Valid()
      ensures e <==> View() == Queue([], 0)
    {
      BytesInBlocks(blocks, ptr, allocationSize);
      e := blocks == [];
    }

    /** eIOBuffer::clear. */
    method Clear()
      requires Valid()
      modifies this
      ensures Valid() && View() == Queue([], 0)
    {
      while blocks != []
        invariant Valid()
        decreases |blocks|
      {
        RemoveBlock();
      }
    }

    method RemoveBlock()
      requires blocks != [] && allocationSize > 0 && Full(blocks, allocationSize)
      modifies this
      ensures blocks == old(blocks)[1..] && ptr == 0 && Valid()
    {
      FullTail(blocks, allocationSize);
      blocks, ptr := blocks[1..], 0;
    }

    /** eIOBuffer::peek: a copy of the first bytes. */
    method Peek(len: nat) returns (dst: seq<byte>)
      requires Valid()
      ensures dst == Contents()[..Min(len, |Contents()|)]
    {
      hide Copied, Concat;
      var i, p: nat, rest := 0, ptr, len;
      dst := [];
      ghost var all := Contents();
      PointerInside(blocks, ptr);
      StartCopy(blocks, ptr, len, all);
      while rest > 0 && i < |blocks|
        invariant 0 <= i <= |blocks| && |dst| + rest == len && rest >= 0
        invariant i < |blocks| ==> p <= |blocks[i]|
        invariant Copied(blocks, i, p, dst, rest, all)
        decreases |blocks| - i
      {
        var tc := |blocks[i]| - p;
        if tc > rest {
          tc := rest;
        }
        CopyMore(blocks, i, p, dst, rest, all, tc);
        dst := dst + blocks[i][p..p + tc];
        i, p, rest := i + 1, 0, rest - tc;
      }
      EndCopy(blocks, i, p, dst, rest, all);
    }

    /** eIOBuffer::skip: drops the first bytes; asking for more than there are trips an assertion. */
    method Skip(len: nat)
      requires Valid() && len <= |Contents()|
      modifies this
      ensures Valid() && Contents() == old(Contents())[len..]
      ensures Room() == RoomAfterTaking(old(Room()), |old(Contents())|, len, allocationSize)
    {
      hide Concat, Dropped, Full, RoomOf;
      var rest := len;
      ghost var all, room := Contents(), Room();
      DropNothing(all);
      while rest > 0
        invariant 0 <= rest <= len <= |all| && Valid()
        invariant Dropped(all, len - rest, Contents())
        invariant Room() == RoomAfterTaking(room, |all|, len - rest, allocationSize)
        decreases rest, |blocks|
      {
        BytesInBlocks(blocks, ptr, allocationSize);
        DropMore(all, len - rest, Contents(), 0);
        var tn := rest;
        if tn > |blocks[0]| - ptr {
          tn := |blocks[0]| - ptr;
        }
        DropMore(all, len - rest, Contents(), tn);
        OneBlockRoom(blocks, allocationSize);
        Advance(tn);
        BytesInBlocks(blocks, ptr, allocationSize);
        OneBlockRoom(blocks, allocationSize);
        rest := rest - tn;
        DropEnds(all, len - rest, Contents());
      }
      DropEnds(all, len, Contents());
    }

    /** The bytes of the first block from the pointer on. */
    function Front(n: nat): (front: seq<byte>)
      requires Valid() && blocks != [] && ptr + n <= |blocks[0]|
      reads this
      ensures n <= |Contents()| && front + Contents()[n..] == Contents()
    {
      FrontBytes(blocks, ptr, n);
      blocks[0][ptr..ptr + n]
    }

    /** Moving the pointer within the first block, and dropping the block at its end. */
    method Advance(n: nat)
      requires Valid() && blocks != [] && ptr + n <= |blocks[0]|
      modifies this
      ensures Valid() && n <= |old(Contents())| && Contents() == old(Contents())[n..]
      ensures blocks == if n == old(|blocks[0]| - ptr) then old(blocks)[1..] else old(blocks)
      ensures Room() == if blocks == [] then 0 else old(Room())
    {
      PointerInside(blocks, ptr);
      FullTail(blocks, allocationSize);
      ptr := ptr + n;
      if ptr == |blocks[0]| {
        assert Concat(blocks)[ptr..] == Concat(blocks[1..]);
        RemoveBlock();
      }
    }

    /** eIOBuffer::read. */
    method Read(len: nat) returns (dst: seq<byte>)
      requires Valid()
      modifies this
      ensures Valid() && dst + Contents() == old(Contents()) && |dst| == Min(len, |old(Contents())|)
      ensures Room() == RoomAfterTaking(old(Room()), |old(Contents())|, |dst|, allocationSize)
    {
      dst := Peek(len);
      Skip(|dst|);
    }

    /** Appending to the last block, after adding one if it is full: the common part of write
        and fromfile. */
    method Append(chunk: seq<byte>)
      requires Valid() && blocks != [] && |blocks[|blocks| - 1]| + |chunk| <= allocationSize
      modifies `blocks
      ensures Valid() && Contents() == old(Contents()) + chunk
      ensures blocks != [] && Room() == old(allocationSize - |blocks[|blocks| - 1]|) - |chunk|
    {
      var n := |blocks| - 1;
      ghost var init, last := blocks[..n], blocks[n];
      assert blocks == init + [last];
      ConcatLast(init, last);
      ConcatLast(init, last + chunk);
      PointerInside(blocks, ptr);
      blocks := blocks[n := blocks[n] + chunk];
      assert blocks == init + [last + chunk];
    }

    method AddBlockIfFull()
      requires Valid()
      modifies `blocks
      ensures Valid() && Contents() == old(Contents())
      ensures blocks != [] && |blocks[|blocks| - 1]| < allocationSize
      ensures allocationSize - |blocks[|blocks| - 1]| == Space(old(Room()), allocationSize)
    {
      if blocks == [] || |blocks[|blocks| - 1]| == allocationSize {
        ConcatLast(blocks, []);
        blocks := blocks + [[]];
      }
    }

    /** eIOBuffer::write. */
    method Write(source: seq<byte>)
      requires Valid()
      modifies `blocks
      ensures Valid() && Contents() == old(Contents()) + source
      ensures Room() == RoomAfterAppending(old(Room()), |source|, allocationSize)
    {
      hide Concat, Grown, Full, RoomOf, RoomAfterAppending;
      var done := 0;
      ghost var base, room := Contents(), Room();
      RoomFits(blocks, allocationSize);
      GrowNothing(base, source);
      AppendingNothing(room, allocationSize);
      while done < |source|
        invariant 0 <= done <= |source| && Valid()
        invariant Grown(base, source, done, Contents())
        invariant Room() == RoomAfterAppending(room, done, allocationSize)
      {
        ghost var now := Room();
        RoomFits(blocks, allocationSize);
        var tc := |source| - done;
        AddBlockIfFull();
        if tc > allocationSize - |blocks[|blocks| - 1]| {
          tc := allocationSize - |blocks[|blocks| - 1]|;
        }
        GrowMore(base, source, done, Contents(), tc);
        Append(source[done..done + tc]);
        AppendingAddsUp(room, done, now, tc, allocationSize);
        done := done + tc;
      }
      GrowEnds(base, source, |source|, Contents());
      assert source[..|source|] == source;
    }

    /** One turn of tofile: what is wanted of the first chunk is offered to a write call, and what
        it takes is dropped. */
    method HandOver(len: nat, answer: int) returns (w: nat, tc: nat, front: seq<byte>)
      requires Valid() && blocks != []
      modifies this
      ensures Valid() && |front| == w && front + Contents() == old(Contents())
      ensures old(View().room) <= allocationSize
      ensures tc == Min(FirstLength(|old(Contents())|, old(View().room), allocationSize), len) && w == Offered(answer, tc)
      ensures Moved(|old(Contents())|, old(View().room), w, View().room, blocks == [], allocationSize)
      ensures |blocks| <= old(|blocks|) && (w == tc < len ==> |blocks| < old(|blocks|))
    {
      hide Concat, Full, RoomOf, Offered, FirstLength, FrontLength, Moved;
      ghost var before, from, all := blocks, ptr, Contents();
      ContentsLength();
      FirstChunk(blocks, ptr, allocationSize);
      tc := |blocks[0]| - ptr;
      if tc > len {
        tc := len;
      }
      w := Offered(answer, tc);
      front := Front(w);
      Advance(w);
      ContentsLength();
      assert |all| == w + |Contents()|;
      AfterAdvance(before, from, w, blocks, ptr, allocationSize);
    }

    lemma ContentsLength()
      requires Valid()
      ensures ptr <= |Concat(blocks)| && |Contents()| == |Concat(blocks)| - ptr && RoomOf(blocks, allocationSize) <= allocationSize
    {
      PointerInside(blocks, ptr);
      hide Concat;
    }

    /** eIOBuffer::tofile.  `accept(k)` is the answer of the k-th write call: an error when
        negative, else how many bytes the descriptor takes at most. */
    method ToFile(len: nat, accept: nat -> int) returns (written: nat, out: seq<byte>)
      requires Valid()
      modifies this
      ensures Valid() && written == |out| && out + Contents() == old(Contents())
      ensures written == Taken(|old(Contents())|, old(View()).room, allocationSize, len, accept, 0)
      ensures Room() == RoomAfterFile(old(Room()), |old(Contents())|, len, written, allocationSize)
    {
      hide Concat, Full, RoomOf, Taken, Handing, RoomAfterFile, FirstLength, Moved;
      var rest, k := len, 0;
      written, out := 0, [];
      ghost var all, room := Contents(), View().room;
      BytesInBlocks(blocks, ptr, allocationSize);
      HandingStarts(|all|, room, allocationSize, len, blocks == [], accept);
      while rest > 0 && blocks != []
        invariant Valid() && written == |out| && written + rest == len && rest >= 0
        invariant out + Contents() == all
        invariant Handing(|all|, room, allocationSize, len, written, |Contents()|, View().room, blocks == [], accept, k)
        decreases |blocks|, rest
      {
        ghost var have, now := |Contents()|, View().room;
        var w, tc, front := HandOver(rest, accept(k));
        Regroup(out, front, Contents());
        HandingStep(|all|, room, allocationSize, len, written, have, now, accept, k, w, View().room, blocks == []);
        out := out + front;
        written, rest, k := written + w, rest - w, k + 1;
        if tc != w {
          return;
        }
      }
      BytesInBlocks(blocks, ptr, allocationSize);
      OneBlockRoom(blocks, allocationSize);
      HandingEnds(|all|, room, allocationSize, len, written, |Contents()|, View().room, blocks == [], accept, k);
    }

    /** eIOBuffer::fromfile, when no read call fails.  `input` is what the descriptor will deliver,
        `chunk(k)` the most that the k-th read call brings. */
    method FromFile(len: nat, input: seq<byte>, chunk: nat -> nat) returns (re: nat)
      requires Valid()
      modifies `blocks
      ensures Valid() && re <= |input| && Contents() == old(Contents()) + input[..re]
      ensures re == Arriving(old(View()).room, allocationSize, len, |input|, chunk, 0)
      ensures Room() == RoomAfterReading(old(Room()), len, re, allocationSize)
    {
      hide Concat, Grown, Full, RoomOf, Arriving, RoomAfterAppending, RoomAfterReading;
      var rest, k := len, 0;
      re := 0;
      ghost var base, room := Contents(), View().room;
      ghost var goal := Arriving(room, allocationSize, len, |input|, chunk, 0);
      GrowNothing(base, input);
      AppendingNothing(room, allocationSize);
      while rest > 0
        invariant 0 <= rest && re + rest == len && re <= |input| && Valid()
        invariant Grown(base, input, re, Contents())
        invariant goal == re + Arriving(View().room, allocationSize, rest, |input| - re, chunk, k)
        invariant Room() == RoomAfterAppending(room, re, allocationSize)
        decreases rest
      {
        ghost var now := View().room;
        ArrivingStep(now, allocationSize, rest, |input| - re, chunk, k);
        var tc := rest;
        AddBlockIfFull();
        if tc > allocationSize - |blocks[|blocks| - 1]| {
          tc := allocationSize - |blocks[|blocks| - 1]|;
        }
        var r := Min(tc, Min(|input| - re, chunk(k)));
        GrowMore(base, input, re, Contents(), r);
        Append(input[re..re + r]);
        if r != tc {
          ReadingShort(room, len, re, now, r, allocationSize);
          re := re + r;
          GrowEnds(base, input, re, Contents());
          return;
        }
        AppendingAddsUp(room, re, now, r, allocationSize);
        re, rest, k := re + r, rest - r, k + 1;
      }
      ReadingWhole(room, len, allocationSize);
      ArrivingNothing(View().room, allocationSize, |input| - re, chunk, k);
      GrowEnds(base, input, re, Contents());
    }

    /** eIOBuffer::searchchr.  `ch` is the character after promotion, so a negative one matches
        no byte. */
    method SearchChr(ch: int) returns (c: int)
      requires Valid()
      ensures c == FirstIndex(Contents(), ch)
    {
      hide Concat, Sought, Full;
      var i, p: nat := 0, ptr;
      c := 0;
      PointerInside(blocks, ptr);
      ghost var all := Contents();
      assert blocks[0..] == blocks;
      StartSearch(all, ch);
      while i < |blocks|
        invariant 0 <= i <= |blocks|
        invariant (if i < |blocks| then p <= |blocks[i]| else p == 0) && p <= |Concat(blocks[i..])|
        invariant Sought(all, c, Concat(blocks[i..])[p..], ch)
      {
        OpenBlock(blocks, i, p);
        while p < |blocks[i]|
          invariant p <= |blocks[i]|
          invariant Sought(all, c, blocks[i][p..] + Concat(blocks[i + 1..]), ch)
        {
          Compare(all, c, blocks[i][p..] + Concat(blocks[i + 1..]), ch);
          if blocks[i][p] == ch {
            return;
          }
          assert blocks[i][p..] + Concat(blocks[i + 1..])
              == [blocks[i][p]] + (blocks[i][p + 1..] + Concat(blocks[i + 1..]));
          assert (blocks[i][p..] + Concat(blocks[i + 1..]))[1..] == blocks[i][p + 1..] + Concat(blocks[i + 1..]);
          c, p := c + 1, p + 1;
        }
        assert blocks[i][p..] + Concat(blocks[i + 1..]) == Concat(blocks[i + 1..])[0..];
        i, p := i + 1, 0;
      }
      ConcatNothing();
      assert blocks[i..] == [];
      EndSearch(all, c, ch);
      c := -1;
    }
  }

  /** `now` is what remains of `all` without its first n bytes. */
  ghost predicate Dropped(all: seq<byte>, n: int, now: seq<byte>) {
    0 <= n <= |all| && now == all[n..]
  }

  lemma DropNothing(all: seq<byte>)
    ensures Dropped(all, 0, all)
  {
  }

  lemma DropMore(all: seq<byte>, n: int, now: seq<byte>, k: nat)
    requires Dropped(all, n, now) && k <= |all| - n
    ensures k <= |now| && Dropped(all, n + k, now[k..])
  {
  }

  lemma DropEnds(all: seq<byte>, n: int, now: seq<byte>)
    requires Dropped(all, n, now)
    ensures 0 <= n <= |all| && now == all[n..]
  {
  }

  lemma RoomFits(blocks: seq<Block>, size: nat)
    ensures RoomOf(blocks, size) <= size
  {
  }

  /** No room without a block, all of it in a block without bytes, less in one with some. */
  lemma OneBlockRoom(blocks: seq<Block>, size: nat)
    requires size > 0
    ensures blocks == [] ==> RoomOf(blocks, size) == 0
    ensures blocks == [[]] ==> RoomOf(blocks, size) == size
    ensures |blocks| == 1 && blocks[0] != [] ==> RoomOf(blocks, size) < size
  {
  }

  /** tofile on its way: `written` of `total` bytes are out, the others are still there, and so is
      the last block until its last byte is gone. */
  ghost predicate Handing(total: nat, room: nat, size: nat, len: nat, written: nat, have: nat, now: nat, gone: bool,
                          accept: nat -> int, k: nat)
  {
    && size > 0 && room <= size && now <= size && written <= len && written + have == total && (gone ==> have == 0)
    && Taken(total, room, size, len, accept, 0) == written + Taken(have, now, size, len - written, accept, k)
    && (now == RoomAfterTaking(room, total, written, size) || (gone && now == 0 && total < len))
  }

  lemma HandingStarts(total: nat, room: nat, size: nat, len: nat, gone: bool, accept: nat -> int)
    requires size > 0 && room <= size && (gone ==> total == 0)
    ensures Handing(total, room, size, len, 0, total, room, gone, accept, 0)
  {
    hide Taken;
  }

  /** One write call, of the first chunk or what is wanted of it. */
  lemma HandingStep(total: nat, room: nat, size: nat, len: nat, written: nat, have: nat, now: nat,
                    accept: nat -> int, k: nat, w: nat, left: nat, gone: bool)
    requires Handing(total, room, size, len, written, have, now, false, accept, k) && written < len
    requires var tc := Min(FirstLength(have, now, size), len - written); w == Offered(accept(k), tc)
    requires Moved(have, now, w, left, gone, size)
    ensures if w < Min(FirstLength(have, now, size), len - written)
            then written + w == Taken(total, room, size, len, accept, 0)
                 && left == RoomAfterFile(room, total, len, written + w, size)
            else Handing(total, room, size, len, written + w, have - w, left, gone, accept, k + 1)
  {
  }

  lemma HandingEnds(total: nat, room: nat, size: nat, len: nat, written: nat, have: nat, now: nat, gone: bool,
                    accept: nat -> int, k: nat)
    requires Handing(total, room, size, len, written, have, now, gone, accept, k) && (written == len || gone)
    requires gone ==> now == 0
    ensures written == Taken(total, room, size, len, accept, 0)
    ensures now == RoomAfterFile(room, total, len, written, size)
  {
  }

  lemma ArrivingStep(room: nat, size: nat, len: nat, input: nat, chunk: nat -> nat, k: nat)
    requires room <= size && size > 0 && len > 0
    ensures var tc := Min(len, Space(room, size));
      var r := Min(tc, Min(input, chunk(k)));
      Arriving(room, size, len, input, chunk, k)
        == if r < tc then r else r + Arriving(Space(room, size) - r, size, len - r, input - r, chunk, k + 1)
  {
  }

  lemma ArrivingNothing(room: nat, size: nat, input: nat, chunk: nat -> nat, k: nat)
    requires room <= size && size > 0
    ensures Arriving(room, size, 0, input, chunk, k) == 0
  {
  }

  /** `now` is `base` followed by the first n bytes of `source`. */
  ghost predicate Grown(base: seq<byte>, source: seq<byte>, n: int, now: seq<byte>) {
    0 <= n <= |source| && now == base + source[..n]
  }

  lemma GrowNothing(base: seq<byte>, source: seq<byte>)
    ensures Grown(base, source, 0, base)
  {
    assert base + [] == base;
  }

  lemma GrowMore(base: seq<byte>, source: seq<byte>, n: nat, now: seq<byte>, k: nat)
    requires Grown(base, source, n, now) && n + k <= |source|
    ensures Grown(base, source, n + k, now + source[n..n + k])
  {
    assert source[..n + k] == source[..n] + source[n..n + k];
  }

  lemma GrowEnds(base: seq<byte>, source: seq<byte>, n: int, now: seq<byte>)
    requires Grown(base, source, n, now)
    ensures 0 <= n <= |source| && now == base + source[..n]
  {
  }

  /** The first c bytes hold no match; `rest` follows them. */
  ghost predicate Sought(all: seq<byte>, c: int, rest: seq<byte>, ch: int) {
    0 <= c <= |all| && all[c..] == rest && forall j :: 0 <= j < c ==> all[j] != ch
  }

  lemma StartSearch(all: seq<byte>, ch: int)
    ensures Sought(all, 0, all, ch)
  {
  }

  lemma Compare(all: seq<byte>, c: int, rest: seq<byte>, ch: int)
    requires Sought(all, c, rest, ch) && rest != []
    ensures if rest[0] == ch then FirstIndex(all, ch) == c else Sought(all, c + 1, rest[1..], ch)
  {
    assert all[c] == all[c..][0];
    assert all[c + 1..] == all[c..][1..];
  }

  lemma EndSearch(all: seq<byte>, c: int, ch: int)
    requires Sought(all, c, [], ch)
    ensures FirstIndex(all, ch) == -1
  {
    assert |all[c..]| == 0;
  }

  lemma OpenBlock(blocks: seq<Block>, i: nat, p: nat)
    requires i < |blocks| && p <= |blocks[i]|
    ensures p <= |Concat(blocks[i..])| && Concat(blocks[i..])[p..] == blocks[i][p..] + Concat(blocks[i + 1..])
  {
    assert blocks[i..][1..] == blocks[i + 1..];
  }

  lemma FrontBytes(blocks: seq<Block>, ptr: nat, n: nat)
    requires blocks != [] && ptr + n <= |blocks[0]|
    ensures blocks[0][ptr..ptr + n] + Concat(blocks)[ptr..][n..] == Concat(blocks)[ptr..]
  {
    assert Concat(blocks)[ptr..][..n] == blocks[0][ptr..ptr + n];
  }

  /** The pointer stays within the first block, hence within the bytes. */
  lemma PointerInside(blocks: seq<Block>, ptr: nat)
    requires if blocks == [] then ptr == 0 else ptr <= |blocks[0]|
    ensures ptr <= |Concat(blocks)|
  {
  }

  lemma ConcatNothing()
    ensures Concat([]) == []
  {
  }

  /** `dst` holds the first bytes; if more are wanted, the rest of block i and what follows it are
      the others. */
  ghost predicate Copied(blocks: seq<Block>, i: nat, p: nat, dst: seq<byte>, rest: int, all: seq<byte>) {
    && dst <= all && i <= |blocks| && (i < |blocks| ==> p <= |blocks[i]|)
    && (rest > 0 ==> dst + (if i < |blocks| then blocks[i][p..] + Concat(blocks[i + 1..]) else []) == all)
  }

  lemma StartCopy(blocks: seq<Block>, ptr: nat, rest: int, all: seq<byte>)
    requires (if blocks == [] then ptr == 0 else ptr <= |blocks[0]|)
    requires ptr <= |Concat(blocks)| && all == Concat(blocks)[ptr..]
    ensures Copied(blocks, 0, ptr, [], rest, all)
  {
  }

  lemma CopyMore(blocks: seq<Block>, i: nat, p: nat, dst: seq<byte>, rest: int, all: seq<byte>, tc: nat)
    requires Copied(blocks, i, p, dst, rest, all) && rest > 0 && i < |blocks| && p + tc <= |blocks[i]|
    requires p + tc == |blocks[i]| || tc == rest
    ensures Copied(blocks, i + 1, 0, dst + blocks[i][p..p + tc], rest - tc, all)
  {
    var chunk, last, tail := blocks[i][p..p + tc], blocks[i][p + tc..], Concat(blocks[i + 1..]);
    assert blocks[i][p..] == chunk + last;
    assert all == dst + chunk + (last + tail);
    if i + 1 < |blocks| {
      assert blocks[i + 1..][1..] == blocks[i + 2..];
    }
    if p + tc == |blocks[i]| {
      assert last + tail == tail;
    }
  }

  lemma EndCopy(blocks: seq<Block>, i: nat, p: nat, dst: seq<byte>, rest: int, all: seq<byte>)
    requires Copied(blocks, i, p, dst, rest, all) && (rest <= 0 || i == |blocks|)
    ensures |dst| <= |all| && dst == all[..|dst|] && (rest > 0 ==> dst == all)
  {
    assert dst + [] == dst;
  }

  // ---------------------------------------------------------------- any sequence of operations

  datatype Op =
    | WriteOp(source: seq<byte>)
    | PeekOp(len: nat)
    | ReadOp(len: nat)
    | SkipOp(len: nat)
    | FromFileOp(len: nat, input: seq<byte>, chunk: nat -> nat)
    | ToFileOp(len: nat, accept: nat -> int)
    | SearchOp(ch: int)
    | SizeOp
    | EmptyOp
    | ClearOp

  /** `Aborted`: an assertion has ended the program. */
  datatype Result = Nothing | Number(n: int) | Data(data: seq<byte>) | Truth(b: bool) | Aborted

  /** The queue without its first n bytes. */
  function Drop(q: Queue, n: nat, size: nat): Queue
    requires n <= |q.bytes|
  {
    Queue(q.bytes[n..], RoomAfterTaking(q.room, |q.bytes|, n, size))
  }

  /** One operation on a flat queue of bytes that remembers the room behind its last byte. */
  function QueueStep(q: Queue, op: Op, size: nat): (Queue, Result)
    requires q.room <= size && size > 0
  {
    match op
    case WriteOp(source) => (Queue(q.bytes + source, RoomAfterAppending(q.room, |source|, size)), Nothing)
    case PeekOp(len) => (q, Data(q.bytes[..Min(len, |q.bytes|)]))
    case ReadOp(len) =>
      var n := Min(len, |q.bytes|);
      (Drop(q, n, size), Data(q.bytes[..n]))
    case SkipOp(len) => if len <= |q.bytes| then (Drop(q, len, size), Nothing) else (q, Aborted)
    case FromFileOp(len, input, chunk) =>
      var re := Arriving(q.room, size, len, |input|, chunk, 0);
      (Queue(q.bytes + input[..re], RoomAfterReading(q.room, len, re, size)), Number(re))
    case ToFileOp(len, accept) =>
      var n := Taken(|q.bytes|, q.room, size, len, accept, 0);
      (Queue(q.bytes[n..], RoomAfterFile(q.room, |q.bytes|, len, n, size)), Data(q.bytes[..n]))
    case SearchOp(ch) => (q, Number(FirstIndex(q.bytes, ch)))
    case SizeOp => (q, Number(|q.bytes|))
    case EmptyOp => (q, Truth(q == Queue([], 0)))
    case ClearOp => (Queue([], 0), Nothing)
  }

  lemma StepKeepsRoom(q: Queue, op: Op, size: nat)
    requires q.room <= size && size > 0
    ensures QueueStep(q, op, size).0.room <= size
  {
  }

  /** A run on the flat queue, up to the operation that ends the program if there is one. */
  function QueueRun(q: Queue, ops: seq<Op>, size: nat): (Queue, seq<Result>)
    requires q.room <= size && size > 0
    decreases ops
  {
    if ops == [] then (q, [])
    else
      StepKeepsRoom(q, ops[0], size);
      var (q1, r) := QueueStep(q, ops[0], size);
      if r == Aborted then (q1, [r])
      else
        var (q2, rest) := QueueRun(q1, ops[1..], size);
        (q2, [r] + rest)
  }

  method Execute(b: IOBuffer, op: Op) returns (r: Result)
    requires b.Valid()
    modifies b
    ensures b.Valid() && (b.View(), r) == QueueStep(old(b.View()), op, b.allocationSize)
  {
    hide RoomOf, Full, Concat, Taken, Arriving, RoomAfterTaking, RoomAfterFile, RoomAfterReading, RoomAfterAppending;
    r := Nothing;
    ghost var all := b.Contents();
    match op {
      case WriteOp(source) => b.Write(source);
      case PeekOp(len) =>
        var dst := b.Peek(len);
        r := Data(dst);
      case ReadOp(len) =>
        var dst := b.Read(len);
        SplitsAt(dst, b.Contents(), all);
        r := Data(dst);
      case SkipOp(len) =>
        var n := b.Size();
        if len > n {
          return Aborted;
        }
        b.Skip(len);
      case FromFileOp(len, input, chunk) =>
        var re := b.FromFile(len, input, chunk);
        r := Number(re);
      case ToFileOp(len, accept) =>
        var n, out := b.ToFile(len, accept);
        SplitsAt(out, b.Contents(), all);
        r := Data(out);
      case SearchOp(ch) =>
        var c := b.SearchChr(ch);
        r := Number(c);
      case SizeOp =>
        var n := b.Size();
        r := Number(n);
      case EmptyOp =>
        var e := b.Empty();
        r := Truth(e);
      case ClearOp => b.Clear();
    }
  }

  lemma SplitsAt(front: seq<byte>, rest: seq<byte>, all: seq<byte>)
    requires front + rest == all
    ensures all[..|front|] == front && all[|front|..] == rest
  {
  }

  /** Byte queue refinement: any sequence of operations on a buffer gives exactly the results of the
      flat queue, up to the operation that ends the program, and leaves that queue. */
  method Run(b: IOBuffer, ops: seq<Op>) returns (results: seq<Result>)
    requires b.Valid()
    modifies b
    ensures b.Valid() && (b.View(), results) == QueueRun(old(b.View()), ops, b.allocationSize)
    decreases ops
  {
    if ops == [] {
      return [];
    }
    hide QueueStep;
    ghost var q := b.View();
    StepKeepsRoom(q, ops[0], b.allocationSize);
    var r := Execute(b, ops[0]);
    if r == Aborted {
      return [r];
    }
    var rest := Run(b, ops[1..]);
    results := [r] + rest;
  }

  // ------------------------------------------------------------------------ when empty() is wrong

  /** The last block has no bytes. */
  predicate Hollow(q: Queue, size: nat) { q.room == size }

  /** empty() misses that there are no bytes exactly when room is left over. */
  lemma EmptyIsWrongIff(q: Queue, size: nat)
    requires q.room <= size && size > 0
    ensures QueueStep(q, EmptyOp, size).1 != Truth(q.bytes == []) <==> q.bytes == [] && q.room > 0
  {
  }

  /** fromfile leaves a block without bytes if and only if it was asked for more than came and what
      came fills the last block, and every one added, to the end. */
  lemma HollowIff(q: Queue, len: nat, input: seq<byte>, chunk: nat -> nat, size: nat)
    requires q.room < size
    ensures var (r, n) := QueueStep(q, FromFileOp(len, input, chunk), size);
      && n.Number? && 0 <= n.n <= len
      && (Hollow(r, size) <==> n.n < len && (q.room - n.n) % size == 0)
  {
    var re := Arriving(q.room, size, len, |input|, chunk, 0);
    ModIsBelow(q.room - re, size);
    hide Arriving;
  }

  lemma ModIsBelow(x: int, size: nat)
    requires size > 0
    ensures 0 <= x % size < size
  {
  }

  /** After fromfile on an empty buffer empty() is wrong if and only if something was asked for and
      nothing came. */
  lemma EmptyWrongAfterReading(len: nat, input: seq<byte>, chunk: nat -> nat, size: nat)
    requires size > 0
    ensures var (q, re) := QueueStep(Queue([], 0), FromFileOp(len, input, chunk), size);
      && q.room <= size
      && (QueueStep(q, EmptyOp, size).1 != Truth(q.bytes == []) <==> len > 0 && re == Number(0))
  {
    var re := Arriving(0, size, len, |input|, chunk, 0);
    StepKeepsRoom(Queue([], 0), FromFileOp(len, input, chunk), size);
    if re == 0 {
      ModUnique(0, size, 0, 0);
    }
  }

  /** The end of the input met on an empty buffer: nothing comes, and empty() says that there is
      something. */
  method EndOfInput(b: IOBuffer, len: nat, chunk: nat -> nat) returns (re: nat, e: bool)
    requires b.Valid() && b.View() == Queue([], 0) && len > 0
    modifies b
    ensures b.Valid() && b.Contents() == [] && re == 0 && !e
  {
    re := b.FromFile(len, [], chunk);
    EmptyWrongAfterReading(len, [], chunk, b.allocationSize);
    e := b.Empty();
  }

  /** Without fromfile no block is ever left without bytes, so empty() is right throughout. */
  lemma {:induction false} NeverHollow(q: Queue, ops: seq<Op>, size: nat)
    requires size > 0 && q.room < size && (q.bytes == [] ==> q.room == 0)
    requires forall i :: 0 <= i < |ops| ==> !ops[i].FromFileOp?
    ensures var r := QueueRun(q, ops, size).0;
      r.room < size && (r.bytes == [] ==> r.room == 0)
    decreases ops
  {
    if ops != [] {
      StepNotHollow(q, ops[0], size);
      hide QueueStep;
      if QueueStep(q, ops[0], size).1 != Aborted {
        NeverHollow(QueueStep(q, ops[0], size).0, ops[1..], size);
      }
    }
  }

  lemma StepNotHollow(q: Queue, op: Op, size: nat)
    requires size > 0 && q.room < size && (q.bytes == [] ==> q.room == 0) && !op.FromFileOp?
    ensures var r := QueueStep(q, op, size).0;
      r.room < size && (r.bytes == [] ==> r.room == 0)
  {
    hide Taken, Arriving;
    match op {
      case WriteOp(source) => ModIsBelow(q.room - |source|, size);
      case _ =>
    }
  }
}
