/**
 * The stream writer that replaces a flash region piece by piece (bl1/bl1_2/lib/image.c, lines 215-372).
 * Pieces may have any length: partial sectors go through a RAM copy, whole sectors are erased and programmed.
 */
module BindStream {
  import opened Bytes
  import opened FlashDevice
  import opened BindWriter

  /** Some sector lies wholly inside [cur, cur + n). */
  predicate CoversSector(cur: nat, n: nat, size: nat)
    requires size > 0
  {
    AlignUp(cur, size) + size <= cur + n
  }

  /**
   * The pieces the writer can store at all. Partial sectors need a driver that returns item counts,
   * whole sectors need one that returns ARM_DRIVER_OK, so one driver never serves both.
   */
  predicate Storable(countsItems: bool, cur: nat, n: nat, size: nat)
    requires size > 0
  {
    n == 0 || (if countsItems then !CoversSector(cur, n, size) else cur % size == 0 && n % size == 0)
  }

  /** A counting driver can store what holds no whole sector, the other kind only whole sectors. */
  lemma StorableMeans(cur: nat, n: nat, size: nat, sector: nat)
    requires size > 0
    ensures sector % size == 0 && cur <= sector && sector + size <= cur + n ==> !Storable(true, cur, n, size)
    ensures n < size ==> Storable(true, cur, n, size)
    ensures Storable(false, cur, n, size) <==> n == 0 || (cur % size == 0 && n % size == 0)
  {
    if sector % size == 0 && cur <= sector && AlignUp(cur, size) > sector {
      ModAdd(AlignUp(cur, size), sector, size);
      PositiveMultiple(AlignUp(cur, size) - sector, size);
    }
  }

  /** What a counting driver cannot store holds a whole sector. */
  lemma UnstorableSector(cur: nat, n: nat, size: nat) returns (sector: nat)
    requires size > 0 && !Storable(true, cur, n, size)
    ensures sector % size == 0 && cur <= sector && sector + size <= cur + n
  {
    sector := AlignUp(cur, size);
  }

  /** Erases `whole` sectors from `cur` on. */
  method EraseSectors(flash: Flash, cur: nat, whole: nat) returns (ok: bool)
    requires flash.Valid() && cur % flash.sectorSize == 0 && whole > 0
    modifies flash`mem
    ensures flash.Valid() && |flash.mem| == old(|flash.mem|)
    ensures ok ==>
      && cur + whole * flash.sectorSize <= |flash.mem|
      && flash.mem == Patch(old(flash.mem), cur, Fill(whole * flash.sectorSize, flash.erased))
    ensures !ok ==> SameOutside(old(flash.mem), flash.mem, cur, cur + whole * flash.sectorSize)
    ensures flash.reliable && cur + whole * flash.sectorSize <= |flash.mem| ==> ok
  {
    ghost var mem0 := flash.mem;
    var size := flash.sectorSize;
    var s, at := 0, 0;
    while s < whole
      invariant 0 <= s <= whole && at == s * size <= whole * size
      invariant flash.Valid() && |flash.mem| == |mem0|
      invariant s == 0 ==> flash.mem == mem0
      invariant s > 0 ==> cur + at <= |mem0| && flash.mem == Patch(mem0, cur, Fill(at, flash.erased))
      invariant (cur + at) % size == 0
    {
      MulMono(s + 1, whole, size);
      assert (s + 1) * size == at + size;
      ghost var before := flash.mem;
      var rc := flash.EraseSector(cur + at);
      if rc != 0 {
        return false;
      }
      if s > 0 {
        FillAppend(mem0, cur, at, size, flash.erased);
      }
      MulMod(1, size);
      ModAdd(cur + at, size, size);
      s, at := s + 1, at + size;
    }
    return true;
  }

  /** Erases `whole` sectors from `cur` on, then programs them from `buf`. */
  method EraseAndProgram(flash: Flash, cur: nat, buf: Bytes, whole: nat) returns (ok: bool)
    requires flash.Valid() && flash.dataWidth == 1
    requires cur % flash.sectorSize == 0 && whole * flash.sectorSize <= |buf| && whole > 0
    modifies flash`mem
    ensures flash.Valid() && |flash.mem| == old(|flash.mem|)
    ensures ok ==>
      && !flash.countsItems && cur + whole * flash.sectorSize <= |flash.mem|
      && flash.mem == Patch(old(flash.mem), cur, buf[..whole * flash.sectorSize])
    ensures !ok ==> SameOutside(old(flash.mem), flash.mem, cur, cur + whole * flash.sectorSize)
    ensures flash.reliable && !flash.countsItems && cur + whole * flash.sectorSize <= |flash.mem| ==> ok
  {
    ghost var mem0 := flash.mem;
    var block := whole * flash.sectorSize;
    ok := EraseSectors(flash, cur, whole);
    if !ok {
      return;
    }
    MulMono(1, whole, flash.sectorSize);
    MulMod(whole, flash.sectorSize);
    ModTrans(block, flash.sectorSize, flash.programUnit);
    var data := buf[..block];
    var rc := ProgramUnits(flash, cur, data, block, 0);
    if rc == 0 {
      assert data[..block] == data;
      BlankThenProgram(flash.cell, flash.erased, mem0, cur, data);
    }
    return rc == 0;
  }

  lemma MulMono(a: nat, b: nat, c: nat)
    requires a <= b
    ensures a * c <= b * c
  {
  }

  /** `after` is `before` with the bytes from `at` on replaced by `data`. */
  ghost predicate Stored(before: Bytes, after: Bytes, at: nat, data: Bytes) {
    if data == [] then after == before else at + |data| <= |before| && after == Patch(before, at, data)
  }

  /** Storing two adjacent pieces is storing their concatenation. */
  lemma StoredJoin(start: Bytes, before: Bytes, after: Bytes, at: nat, p: Bytes, q: Bytes)
    requires Stored(start, before, at, p) && Stored(before, after, at + |p|, q)
    ensures Stored(start, after, at, p + q)
  {
    if p == [] {
      assert p + q == q;
    } else if q == [] {
      assert p + q == p;
    } else {
      PatchAppend(start, at, p, q);
    }
  }

  lemma StoredStep(start: Bytes, before: Bytes, after: Bytes, at: nat, cur: nat, data: Bytes, done: nat, rest: Bytes,
      n: nat)
    requires cur == at + done && done + |rest| == |data| && 0 < n <= |rest| && rest == data[done..]
    requires Stored(start, before, at, data[..done])
    requires cur + n <= |before| && after == Patch(before, cur, rest[..n])
    ensures Stored(start, after, at, data[..done + n])
  {
    StoredJoin(start, before, after, at, data[..done], rest[..n]);
    assert data[..done] + rest[..n] == data[..done + n];
  }

  /** How many bytes the next slice of `n` pending bytes at `cur` takes. */
  function SliceLen(cur: nat, n: nat, size: nat): nat
    requires size > 0
  {
    var room := size - (cur - AlignDown(cur, size));
    if room < size || n < size then (if room > n then n else room) else n / size * size
  }

  /** A slice that is one or more whole sectors. */
  predicate WholeSlice(cur: nat, n: nat, size: nat)
    requires size > 0
  {
    AlignDown(cur, size) == cur && n >= size
  }

  lemma SliceBounds(cur: nat, n: nat, size: nat)
    requires size > 0 && n > 0
    ensures 0 < SliceLen(cur, n, size) <= n
    ensures SliceLen(cur, n, size) == n || (cur + SliceLen(cur, n, size)) % size == 0
    ensures AlignDown(cur, size) == cur <==> cur % size == 0
  {
    if cur % size == 0 {
      AlignUnique(cur, size, cur);
    }
    if WholeSlice(cur, n, size) {
      MulBound(n / size, size);
      MulMod(n / size, size);
      ModAdd(cur, n / size * size, size);
      assert n == n / size * size + n % size;
    } else {
      MulMod(1, size);
      ModAdd(AlignDown(cur, size), size, size);
    }
  }

  /** Whether a piece can be stored is decided slice by slice. */
  lemma StorableStep(countsItems: bool, cur: nat, n: nat, size: nat)
    requires size > 0 && n > 0
    ensures 0 < SliceLen(cur, n, size) <= n
    ensures Storable(countsItems, cur, n, size) <==>
      && WholeSlice(cur, n, size) != countsItems
      && Storable(countsItems, cur + SliceLen(cur, n, size), n - SliceLen(cur, n, size), size)
  {
    SliceBounds(cur, n, size);
    var k := SliceLen(cur, n, size);
    if cur % size == 0 {
      AlignUnique(cur + size - 1, size, cur);
    } else {
      MulMod(1, size);
      ModAdd(AlignDown(cur, size), size, size);
      AlignUnique(cur + size - 1, size, AlignDown(cur, size) + size);
    }
    if k < n {
      AlignUnique(cur + k + size - 1, size, cur + k);
    }
    if WholeSlice(cur, n, size) {
      MulMod(n / size, size);
      ModAdd(n, k, size);
    } else if n % size == 0 {
      PositiveMultiple(n, size);
    }
  }

  /** A whole-sector slice ends before the hull of the pending bytes does. */
  lemma SliceInHull(cur: nat, n: nat, size: nat)
    requires size > 0 && n > 0
    ensures AlignDown(cur, size) + size <= AlignUp(cur + n, size)
    ensures n / size * size <= n
  {
    var lo, hi := AlignDown(cur, size), AlignUp(cur + n, size);
    ModAdd(hi, lo, size);
    PositiveMultiple(hi - lo, size);
  }

  /** A smaller piece has a smaller hull of sectors. */
  lemma HullShrinks(cur: nat, at: nat, size: nat)
    requires size > 0 && cur <= at
    ensures AlignDown(cur, size) <= AlignDown(at, size)
    ensures AlignUp(cur, size) <= AlignUp(at, size)
  {
    DownMono(cur, at, size);
    UpMono(cur, at, size);
  }

  lemma UpMono(v: nat, w: nat, size: nat)
    requires size > 0 && v <= w
    ensures AlignUp(v, size) <= AlignUp(w, size)
  {
    DownMono(v + size - 1, w + size - 1, size);
  }

  lemma DownMono(v: nat, w: nat, size: nat)
    requires size > 0 && v <= w
    ensures AlignDown(v, size) <= AlignDown(w, size)
  {
    MultiplesOrdered(v, AlignDown(v, size), w, AlignDown(w, size), size);
  }

  lemma MultiplesOrdered(v: nat, lo: nat, w: nat, lo': nat, size: nat)
    requires size > 0 && v <= w && lo % size == 0 && lo' % size == 0 && lo <= v && w < lo' + size
    ensures lo <= lo'
  {
    if lo > lo' {
      ModAdd(lo, lo', size);
      PositiveMultiple(lo - lo', size);
    }
  }

  /** Whatever a failing write did stays inside the sectors the whole region [cur, end) touches. */
  lemma HullFrame(start: Bytes, before: Bytes, after: Bytes, cur: nat, at: nat, written: Bytes, n: nat, end: nat,
      size: nat)
    requires size > 0 && at == cur + |written| && at + n <= end
    requires Stored(start, before, cur, written)
    requires SameOutside(before, after, AlignDown(at, size), AlignUp(at + n, size))
    ensures SameOutside(start, after, AlignDown(cur, size), AlignUp(end, size))
  {
    HullShrinks(cur, at, size);
    HullShrinks(at + n, end, size);
  }

  /** bl1_2_image_flash_bind_ctx_t, with the history of what was written since it was opened. */
  class BindContext {
    const flash: Flash
    const sectorBuf: array<byte>
    const regionBase: nat
    const regionLen: nat
    const regionEnd: nat
    var cur: nat
    /** The flash contents when the context was opened, and all bytes written through it since. */
    ghost const origin: Bytes
    ghost var written: Bytes

    ghost predicate Valid()
      reads this, flash
    {
      && flash.Valid() && flash.dataWidth == 1
      && flash.sectorSize <= sectorBuf.Length
      && regionEnd == regionBase + regionLen
      && regionBase <= cur <= regionEnd
      && |origin| == |flash.mem|
    }

    /** Flash is the original with [regionBase, cur) replaced by everything written, and nothing else changed. */
    ghost predicate InSync()
      reads this, flash
    {
      cur == regionBase + |written| && Stored(origin, flash.mem, regionBase, written)
    }

    /** No sector outside those of the region was touched. */
    ghost predicate Contained()
      requires flash.sectorSize > 0
      reads this, flash
    {
      SameOutside(origin, flash.mem, AlignDown(regionBase, flash.sectorSize), AlignUp(regionEnd, flash.sectorSize))
    }

    constructor (flash: Flash, regionBase: nat, regionLen: nat, sectorBuf: array<byte>)
      requires flash.Valid() && flash.dataWidth == 1
      requires flash.sectorSize <= sectorBuf.Length
      ensures Valid() && InSync()
      ensures this.flash == flash && this.sectorBuf == sectorBuf && origin == flash.mem && written == []
      ensures this.regionBase == regionBase == cur && regionEnd == regionBase + regionLen
    {
      this.flash, this.sectorBuf := flash, sectorBuf;
      this.regionBase, this.regionLen, this.regionEnd := regionBase, regionLen, regionBase + regionLen;
      cur := regionBase;
      origin, written := flash.mem, [];
    }

    /** bl1_2_image_flash_bind_begin; null stands for the error return. */
    static method Begin(flash: Flash, regionBase: nat, regionLen: nat, sectorBuf: array<byte>)
        returns (ctx: BindContext?)
      requires flash.Valid() && flash.dataWidth == 1
      ensures ctx == null <==> sectorBuf.Length < flash.sectorSize
      ensures ctx != null ==>
        && fresh(ctx) && ctx.Valid() && ctx.InSync() && ctx.flash == flash && ctx.sectorBuf == sectorBuf
        && ctx.origin == flash.mem && ctx.written == []
        && ctx.cur == ctx.regionBase == regionBase && ctx.regionEnd == regionBase + regionLen
    {
      if sectorBuf.Length < flash.sectorSize {
        return null;
      }
      ctx := new BindContext(flash, regionBase, regionLen, sectorBuf);
    }

    /** One iteration of the writer's loop: stores the next slice of `rest` at the cursor. */
    method WriteSlice(rest: Bytes) returns (rc: int, n: nat)
      requires Valid() && rest != []
      requires cur + |rest| <= regionEnd
      modifies this`cur, flash`mem, flash`requests, sectorBuf
      ensures Valid()
      ensures n == SliceLen(old(cur), |rest|, flash.sectorSize) <= |rest|
      ensures rc == 0 || rc == -1
      ensures rc == 0 ==>
        && cur == old(cur) + n <= |flash.mem|
        && flash.mem == Patch(old(flash.mem), old(cur), rest[..n])
        && WholeSlice(old(cur), |rest|, flash.sectorSize) != flash.countsItems
      ensures rc != 0 ==> cur == old(cur)
      ensures rc != 0 ==> SameOutside(old(flash.mem), flash.mem, AlignDown(old(cur), flash.sectorSize),
        AlignUp(old(cur) + |rest|, flash.sectorSize))
      ensures flash.reliable && regionEnd <= |flash.mem|
        && WholeSlice(old(cur), |rest|, flash.sectorSize) != flash.countsItems
        ==> rc == 0
    {
      var size := flash.sectorSize;
      var secBase := AlignDown(cur, size);
      var offInSec := cur - secBase;
      var capInSec := size - offInSec;
      if capInSec > |rest| {
        capInSec := |rest|;
      }
      SliceBounds(cur, |rest|, size);
      SliceInHull(cur, |rest|, size);
      if cur < |flash.mem| {
        SectorInside(secBase, size, |flash.mem|);
      }
      if offInSec != 0 || capInSec < size {
        n := capInSec;
        rc := UpdatePatchSectorRam(flash, secBase, offInSec, rest[..n], sectorBuf);
        if rc != 0 {
          return -1, n;
        }
        cur := cur + n;
        return;
      }
      var whole := |rest| / size;
      assert whole != 0;
      n := whole * size;
      var ok := EraseAndProgram(flash, cur, rest, whole);
      if !ok {
        return -1, n;
      }
      cur := cur + n;
      rc := 0;
    }

    /** The writer's loop over the slices of `buf`. */
    method WriteSlices(buf: Bytes) returns (rc: int)
      requires Valid() && cur + |buf| <= regionEnd
      modifies this`cur, flash`mem, flash`requests, sectorBuf
      ensures Valid()
      ensures rc == 0 || rc == -1
      ensures rc == 0 ==> cur == old(cur) + |buf| && Stored(old(flash.mem), flash.mem, old(cur), buf)
      ensures rc != 0 ==> SameOutside(old(flash.mem), flash.mem, AlignDown(old(cur), flash.sectorSize),
        AlignUp(old(cur) + |buf|, flash.sectorSize))
      ensures rc == 0 ==> Storable(flash.countsItems, old(cur), |buf|, flash.sectorSize)
      ensures flash.reliable && regionEnd <= |flash.mem|
        && Storable(flash.countsItems, old(cur), |buf|, flash.sectorSize)
        ==> rc == 0
    {
      ghost var mem0, cur0, storable := flash.mem, cur, Storable(flash.countsItems, cur, |buf|, flash.sectorSize);
      var done := 0;
      while done < |buf|
        invariant 0 <= done <= |buf|
        invariant Valid() && |flash.mem| == |mem0| && cur == cur0 + done
        invariant Stored(mem0, flash.mem, cur0, buf[..done])
        invariant storable <==> Storable(flash.countsItems, cur, |buf| - done, flash.sectorSize)
      {
        var rest, n := buf[done..], 0;
        StorableStep(flash.countsItems, cur, |rest|, flash.sectorSize);
        ghost var before, at := flash.mem, cur;
        rc, n := WriteSlice(rest);
        if rc != 0 {
          HullFrame(mem0, before, flash.mem, cur0, at, buf[..done], |rest|, cur0 + |buf|, flash.sectorSize);
          return -1;
        }
        StoredStep(mem0, before, flash.mem, cur0, at, buf, done, rest, n);
        done := done + n;
      }
      rc := 0;
      assert buf[..|buf|] == buf;
    }

    /** bl1_2_image_flash_bind_write: stores `buf` at the cursor. */
    method Write(buf: Bytes) returns (rc: int)
      requires Valid()
      modifies this`cur, this`written, flash`mem, flash`requests, sectorBuf
      ensures Valid()
      ensures rc == 0 || rc == -1
      ensures old(cur) + |buf| > regionEnd ==> rc == -1 && flash.mem == old(flash.mem)
      ensures rc == 0 ==> cur == old(cur) + |buf| && written == old(written) + buf
      ensures rc == 0 ==> Stored(old(flash.mem), flash.mem, old(cur), buf)
      ensures rc == 0 && old(InSync()) ==> InSync()
      ensures rc != 0 ==> SameOutside(old(flash.mem), flash.mem, AlignDown(old(cur), flash.sectorSize),
        AlignUp(old(cur) + |buf|, flash.sectorSize))
      ensures rc == 0 ==> Storable(flash.countsItems, old(cur), |buf|, flash.sectorSize)
      ensures flash.reliable && regionEnd <= |flash.mem| && old(cur) + |buf| <= regionEnd
        && Storable(flash.countsItems, old(cur), |buf|, flash.sectorSize)
        ==> rc == 0
    {
      if cur + |buf| > regionEnd {
        return -1;
      }
      ghost var mem0 := flash.mem;
      rc := WriteSlices(buf);
      if rc == 0 {
        if old(InSync()) {
          StoredJoin(origin, mem0, flash.mem, regionBase, written, buf);
        }
        written := written + buf;
      }
    }

    lemma InSyncContained()
      requires Valid() && InSync()
      ensures Contained()
    {
      HullFrame(origin, flash.mem, flash.mem, regionBase, cur, written, 0, regionEnd, flash.sectorSize);
    }

    /** Writes what a cipher step produced, if it produced anything. */
    method Emit(out: Bytes) returns (ok: bool)
      requires Valid() && InSync() && cur + |out| <= regionEnd
      modifies this`cur, this`written, flash`mem, flash`requests, sectorBuf
      ensures Valid()
      ensures ok ==> InSync() && written == old(written) + out
      ensures !ok ==> Contained()
      ensures flash.reliable && flash.countsItems && regionEnd <= |flash.mem| && |out| < flash.sectorSize ==> ok
    {
      ghost var before, written0 := flash.mem, written;
      if |out| > 0 {
        assert |out| < flash.sectorSize ==> !CoversSector(cur, |out|, flash.sectorSize);
        var rc := Write(out);
        if rc != 0 {
          HullFrame(origin, before, flash.mem, regionBase, regionBase + |written0|, written0, |out|, regionEnd,
            flash.sectorSize);
          return false;
        }
      } else {
        assert written + out == written;
      }
      return true;
    }
  }
}
