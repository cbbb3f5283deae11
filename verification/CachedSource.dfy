/** eCachedSource: small reads served from a block read ahead. */
module CachedSource {
  import opened Bytes
  import opened Recording
  import RawFile

  const CACHE_SIZE: int := 32 * 1024

  class CachedSource {
    const source: RawFile.RawFile
    var cache: seq<byte>
    var cacheOffset: int

    constructor (source: RawFile.RawFile)
      requires source.Valid()
      ensures Valid() && this.source == source
    {
      this.source, cache, cacheOffset := source, [], 0;
    }

    /** The cached block is a slice of the stream. */
    ghost predicate Valid()
      reads this, source
    {
      source.Valid() && cacheOffset >= 0 && |cache| <= CACHE_SIZE && IsSlice(source.Now(), cacheOffset, cache)
    }

    /** eCachedSource::read.  Whatever reads came before, the bytes delivered are the bytes of
        the flat stream at the offset, and a read is cut short only where the recording ended
        when the call began. */
    method Read(offset: int, count: nat) returns (n: int, data: seq<byte>)
      requires Valid()
      modifies this, source
      ensures Valid() && Grows(old(source.Now()), source.Now())
      ensures if n == -1 then data == [] else 0 <= n == |data| <= count
      ensures IsSlice(source.Now(), offset, data)
      ensures source.isOpen && offset >= 0 && source.NoFailures(old(source.time)) && source.Fits() ==>
                n >= 0 && (n == RawFile.Clip(count) || offset + n >= |Flat(old(source.Now()))|)
      ensures old(count < 32768 && cacheOffset <= offset && offset + count < cacheOffset + |cache|) ==>
                n == count && source.time == old(source.time)
      ensures count >= 32768 ==> cache == old(cache) && cacheOffset == old(cacheOffset)
      ensures old(count < 32768 && !(cacheOffset <= offset && offset + count < cacheOffset + |cache|)) && n > 0
              && source.NoFailures(old(source.time)) && source.Fits() ==>
                cacheOffset == offset && (|cache| == 32768 || offset + |cache| >= |Flat(old(source.Now()))|)
    {
      hide Grows, Flat, Growing;
      if count >= CACHE_SIZE {
        ghost var was := source.Now();
        n, data := source.Read(offset, count);
        SliceStable(was, source.Now(), cacheOffset, cache);
        return;
      }
      n := count;
      if offset < cacheOffset || offset + count >= cacheOffset + |cache| {
        ghost var was := source.Now();
        var bytes, block := source.Read(offset, CACHE_SIZE);
        SliceStable(was, source.Now(), cacheOffset, cache);
        if bytes <= 0 {
          return bytes, [];
        }
        if bytes < count {
          n := bytes;
        }
        cacheOffset, cache := offset, block;
      } else {
        RawFile.GrowsRefl(source.Now());
      }
      var index := offset - cacheOffset;
      data := cache[index..index + n];
      SubSlice(source.Now(), cacheOffset, cache, index, index + n);
    }
  }

  lemma SubSlice(p: Parts, offset: int, data: seq<byte>, a: nat, b: nat)
    requires IsSlice(p, offset, data) && a <= b <= |data|
    ensures IsSlice(p, offset + a, data[a..b])
  {
    hide Flat;
  }
}
