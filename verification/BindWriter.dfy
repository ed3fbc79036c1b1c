/**
 * Writing a BL2 image back to flash (bl1/bl1_2/lib/image.c): the sector read-modify-write stream writer
 * and the routine that stores the 16-byte binding tag.
 */
module BindWriter {
  import opened Bytes
  import opened FlashDevice
  import opened ImageLayout

  const MAX_SECTOR_SIZE: nat := 0x1000

  /** Writing back a patched copy of a whole sector changes only the patch. */
  lemma RewriteSector(mem: Bytes, base: nat, size: nat, copy: Bytes, off: nat, patch: Bytes)
    requires base + size <= |mem| && off + |patch| <= size && |copy| == size
    requires copy == Patch(mem[base..base + size], off, patch)
    ensures Patch(mem, base, copy) == Patch(mem, base + off, patch)
  {
  }

  /** The first w bytes of `data` have been programmed at dst. */
  ghost predicate Programmed(cell: CellRule, start: Bytes, now: Bytes, dst: nat, data: Bytes, w: nat) {
    && |now| == |start| && w <= |data|
    && (w == 0 ==> now == start)
    && (w > 0 ==> dst + w <= |start| && now == BurnAt(cell, start, dst, data[..w]))
  }

  lemma ProgramStep(cell: CellRule, start: Bytes, before: Bytes, after: Bytes, dst: nat, data: Bytes, w: nat,
      piece: Bytes)
    requires Programmed(cell, start, before, dst, data, w) && w + |piece| <= |data|
    requires piece == data[w..w + |piece|] && piece != [] && dst + w + |piece| <= |start|
    requires after == BurnAt(cell, before, dst + w, piece)
    ensures Programmed(cell, start, after, dst, data, w + |piece|)
  {
    var n := w + |piece|;
    var goal := BurnAt(cell, start, dst, data[..n]);
    forall i | 0 <= i < |start| ensures after[i] == goal[i] {
      if dst + w <= i < dst + n {
        assert before[i] == start[i];
      }
    }
  }

  lemma StillBlank(cell: CellRule, start: Bytes, before: Bytes, dst: nat, data: Bytes, w: nat, len: nat, u: nat,
      erased: byte)
    requires Programmed(cell, start, before, dst, data, w) && w + u <= len
    ensures Blank(start, dst, len, erased) ==> Blank(before, dst + w, u, erased)
  {
  }

  /** A step that failed, or that returned the wrong code, changed nothing outside the piece being programmed. */
  lemma StepFrame(cell: CellRule, start: Bytes, before: Bytes, after: Bytes, dst: nat, data: Bytes, w: nat, len: nat,
      piece: Bytes)
    requires Programmed(cell, start, before, dst, data, w) && w + |piece| <= len
    requires
      || SameOutside(before, after, dst + w, dst + w + |piece|)
      || (dst + w + |piece| <= |start| && after == BurnAt(cell, before, dst + w, piece))
    ensures SameOutside(start, after, dst, dst + len)
  {
  }

  method IsAll(p: Bytes, v: byte) returns (all: bool)
    ensures all <==> forall i :: 0 <= i < |p| ==> p[i] == v
  {
    for i := 0 to |p|
      invariant forall j :: 0 <= j < i ==> p[j] == v
    {
      if p[i] != v {
        return false;
      }
    }
    return true;
  }

  /**
   * Programs `len` bytes in steps of one program unit, demanding the return code `wanted` from each step.
   * Both programming loops of the source are this loop: one expects the unit size, the other ARM_DRIVER_OK.
   */
  method ProgramUnits(flash: Flash, dst: nat, data: Bytes, len: nat, wanted: int) returns (rc: int)
    requires flash.Valid() && flash.dataWidth == 1
    requires len <= |data| && len % flash.programUnit == 0 && wanted >= 0
    modifies flash`mem
    ensures flash.Valid() && |flash.mem| == old(|flash.mem|)
    ensures rc == 0 || rc == -1
    ensures rc == 0 && len > 0 ==>
      && flash.Done(flash.programUnit) == wanted && dst + len <= |flash.mem|
      && flash.mem == BurnAt(flash.cell, old(flash.mem), dst, data[..len])
    ensures rc != 0 ==> SameOutside(old(flash.mem), flash.mem, dst, dst + len)
    ensures flash.reliable && flash.Done(flash.programUnit) == wanted
      ==> (Blank(old(flash.mem), dst, len, flash.erased) ==> rc == 0)
  {
    ghost var mem0 := flash.mem;
    var unit := flash.programUnit;
    var written := 0;
    while written < len
      invariant 0 <= written <= len && (len - written) % unit == 0
      invariant flash.Valid() && Programmed(flash.cell, mem0, flash.mem, dst, data, written)
      invariant written > 0 ==> flash.Done(unit) == wanted
    {
      UnitsLeft(len - written, unit);
      var ok := ProgramUnit(flash, mem0, dst, data, written, len, wanted);
      if !ok {
        return -1;
      }
      written := written + unit;
    }
    rc := 0;
  }

  lemma UnitsLeft(rest: nat, unit: nat)
    requires unit > 0 && rest > 0 && rest % unit == 0
    ensures unit <= rest && (rest - unit) % unit == 0
  {
    PositiveMultiple(rest, unit);
    MulMod(1, unit);
    ModAdd(rest, unit, unit);
  }

  /** One turn of that loop. */
  method ProgramUnit(flash: Flash, ghost start: Bytes, dst: nat, data: Bytes, written: nat, ghost len: nat, wanted: int)
    returns (ok: bool)
    requires flash.Valid() && flash.dataWidth == 1 && wanted >= 0
    requires written + flash.programUnit <= len <= |data|
    requires Programmed(flash.cell, start, flash.mem, dst, data, written)
    modifies flash`mem
    ensures flash.Valid() && |flash.mem| == |start|
    ensures ok ==> flash.Done(flash.programUnit) == wanted
    ensures ok ==> Programmed(flash.cell, start, flash.mem, dst, data, written + flash.programUnit)
    ensures !ok ==> SameOutside(start, flash.mem, dst, dst + len)
    ensures flash.reliable && flash.Done(flash.programUnit) == wanted && Blank(start, dst, len, flash.erased) ==> ok
  {
    ghost var before := flash.mem;
    var unit := flash.programUnit;
    StillBlank(flash.cell, start, before, dst, data, written, len, unit, flash.erased);
    var piece := data[written..written + unit];
    var rc := flash.ProgramBytes(dst + written, piece);
    ok := rc == wanted;
    if ok {
      ProgramStep(flash.cell, start, before, flash.mem, dst, data, written, piece);
    } else {
      StepFrame(flash.cell, start, before, flash.mem, dst, data, written, len, piece);
    }
  }

  method ProgramBufferAligned(flash: Flash, dst: nat, buf: Bytes, len: nat) returns (rc: int)
    requires flash.Valid() && flash.dataWidth == 1
    requires len <= |buf|
    modifies flash`mem
    ensures flash.Valid() && |flash.mem| == old(|flash.mem|)
    ensures rc == 0 || rc == -1
    ensures rc == 0 ==> dst % flash.programUnit == 0 && len % flash.programUnit == 0
    ensures rc == 0 && len > 0 ==>
      && flash.countsItems && dst + len <= |flash.mem|
      && flash.mem == BurnAt(flash.cell, old(flash.mem), dst, buf[..len])
    ensures rc != 0 ==> SameOutside(old(flash.mem), flash.mem, dst, dst + len)
    ensures flash.reliable && flash.countsItems && dst % flash.programUnit == 0 && len % flash.programUnit == 0
      ==> (Blank(old(flash.mem), dst, len, flash.erased) ==> rc == 0)
  {
    if dst % flash.programUnit != 0 || len % flash.programUnit != 0 {
      return -1;
    }
    rc := ProgramUnits(flash, dst, buf, len, flash.programUnit);
  }

  /** memcpy of a constant buffer into `dst`. */
  method CopyInto(dst: array<byte>, at: nat, src: Bytes)
    requires at + |src| <= dst.Length
    modifies dst
    ensures dst[..] == Patch(old(dst[..]), at, src)
  {
    forall i | 0 <= i < |src| {
      dst[at + i] := src[i];
    }
    assert dst[..] == Patch(old(dst[..]), at, src);
  }

  /** A sector that starts inside a device of whole sectors lies inside it. */
  lemma SectorInside(start: nat, size: nat, total: nat)
    requires size > 0 && start % size == 0 && total % size == 0 && start < total
    ensures start + size <= total
  {
    ModAdd(total, start, size);
    PositiveMultiple(total - start, size);
  }

  lemma BlankThenProgram(cell: CellRule, erased: byte, mem: Bytes, base: nat, copy: Bytes)
    requires base + |copy| <= |mem|
    requires forall d :: cell(erased, d) == d
    ensures BurnAt(cell, Patch(mem, base, Fill(|copy|, erased)), base, copy) == Patch(mem, base, copy)
  {
    BurnBlank(cell, Patch(mem, base, Fill(|copy|, erased)), base, copy, erased);
  }

  /** Patches the sector copy in `sectorBuf`, erases the sector at `base` and programs the copy. */
  method PatchAndProgram(flash: Flash, base: nat, off: nat, patch: Bytes, sectorBuf: array<byte>) returns (ok: bool)
    requires flash.Valid() && flash.dataWidth == 1
    requires flash.sectorSize <= sectorBuf.Length && off + |patch| <= sectorBuf.Length
    modifies flash`mem, sectorBuf
    ensures flash.Valid() && |flash.mem| == old(|flash.mem|)
    ensures sectorBuf[..] == Patch(old(sectorBuf[..]), off, patch)
    ensures ok ==>
      && flash.countsItems && base % flash.sectorSize == 0 && base + flash.sectorSize <= |flash.mem|
      && flash.mem == Patch(old(flash.mem), base, sectorBuf[..flash.sectorSize])
    ensures SameOutside(old(flash.mem), flash.mem, base, base + flash.sectorSize)
    ensures flash.reliable && flash.countsItems && base % flash.sectorSize == 0
      && base + flash.sectorSize <= |flash.mem|
      ==> ok
  {
    CopyInto(sectorBuf, off, patch);
    var rc := flash.EraseSector(base);
    if rc != 0 {
      return false;
    }
    ghost var blank := flash.mem;
    assert Blank(flash.mem, base, flash.sectorSize, flash.erased);
    ModTrans(base, flash.sectorSize, flash.programUnit);
    var copy := sectorBuf[..flash.sectorSize];
    rc := ProgramBufferAligned(flash, base, copy, flash.sectorSize);
    assert copy[..flash.sectorSize] == copy;
    BlankThenProgram(flash.cell, flash.erased, old(flash.mem), base, copy);
    return rc == 0;
  }

  /** A sector copy patched at `off`, cut off at the sector's end. */
  function PatchedSector(copy: Bytes, off: nat, patch: Bytes): (r: Bytes)
    ensures |r| == |copy|
    ensures forall i :: 0 <= i < |r| ==> r[i] == if off <= i < off + |patch| then patch[i - off] else copy[i]
  {
    seq(|copy|, i requires 0 <= i < |copy| => if off <= i < off + |patch| then patch[i - off] else copy[i])
  }

  /** A patch that stays inside the sector is written whole. */
  lemma PatchedInside(mem: Bytes, start: nat, size: nat, off: nat, patch: Bytes)
    requires start + size <= |mem| && off + |patch| <= size
    ensures Patch(mem, start, PatchedSector(mem[start..start + size], off, patch)) == Patch(mem, start + off, patch)
  {
  }

  /**
   * If the whole patch reads back after the sector was rewritten, then only the patch changed, wherever the
   * sector ends.
   */
  lemma ReadBack(mem: Bytes, start: nat, size: nat, at: nat, n: nat, patch: Bytes, after: Bytes)
    requires start + size <= |mem| && start <= at && at + n <= |mem| && |patch| == n
    requires after == Patch(mem, start, PatchedSector(mem[start..start + size], at - start, patch))
    requires after[at..at + n] == patch
    ensures after == Patch(mem, at, patch)
  {
    forall i | 0 <= i < |mem| ensures after[i] == Patch(mem, at, patch)[i] {
      if at <= i < at + n {
        assert after[at..at + n][i - at] == after[i];
      }
    }
  }

  /** The sector read-modify-write leg of the tag store. */
  method RewriteTagSector(flash: Flash, start: nat, off: nat, tag: Bytes, sectorBuf: array<byte>) returns (ok: bool)
    requires flash.Valid() && flash.dataWidth == 1
    requires flash.sectorSize <= sectorBuf.Length && off + |tag| <= sectorBuf.Length
    requires start % flash.sectorSize == 0
    modifies flash`mem, flash`requests, sectorBuf
    ensures flash.Valid() && |flash.mem| == old(|flash.mem|)
    ensures ok ==>
      && start + flash.sectorSize <= |flash.mem|
      && flash.mem == Patch(old(flash.mem), start,
        PatchedSector(old(flash.mem)[start..start + flash.sectorSize], off, tag))
    ensures SameOutside(old(flash.mem), flash.mem, start, start + flash.sectorSize)
    ensures flash.reliable && flash.countsItems && start < |flash.mem| ==> ok
  {
    var size := flash.sectorSize;
    if start < |flash.mem| {
      SectorInside(start, size, |flash.mem|);
    }
    var rc := flash.ReadBytes(start, sectorBuf, 0, size);
    if rc != size {
      return false;
    }
    assert sectorBuf[..size] == flash.mem[start..start + size];
    ghost var copy := sectorBuf[..];
    ok := PatchAndProgram(flash, start, off, tag, sectorBuf);
    assert sectorBuf[..size] == PatchedSector(copy[..size], off, tag);
  }

  /** The leg that programs the tag over an erased field. */
  method ProgramBlankTag(flash: Flash, field: nat, tag: Bytes) returns (ok: bool)
    requires flash.Valid() && flash.dataWidth == 1
    requires |tag| == TAG_LEN && field + TAG_LEN <= |flash.mem|
    requires Blank(flash.mem, field, TAG_LEN, flash.erased)
    modifies flash`mem
    ensures flash.Valid() && |flash.mem| == old(|flash.mem|)
    ensures ok ==> flash.mem == Patch(old(flash.mem), field, tag)
    ensures SameOutside(old(flash.mem), flash.mem, field, field + TAG_LEN)
    ensures flash.reliable && flash.countsItems && TAG_LEN % flash.programUnit == 0
      && field % flash.programUnit == 0
      ==> ok
  {
    if field % flash.programUnit != 0 || TAG_LEN % flash.programUnit != 0 {
      return false;
    }
    BurnBlank(flash.cell, flash.mem, field, tag, flash.erased);
    var rc := flash.ProgramBytes(field, tag);
    return rc == TAG_LEN;
  }

  predicate InSectorOf(v: nat, size: nat, i: nat)
    requires size > 0
  {
    AlignDown(v, size) <= i < AlignDown(v, size) + size
  }

  method ConfirmTag(flash: Flash, field: nat, tag: Bytes) returns (ok: bool)
    requires flash.Valid() && flash.dataWidth == 1 && |tag| == TAG_LEN
    modifies flash`requests
    ensures flash.Valid()
    ensures ok ==> field + TAG_LEN <= |flash.mem| && flash.mem[field..field + TAG_LEN] == tag
    ensures flash.reliable && flash.countsItems && field + TAG_LEN <= |flash.mem|
      && flash.mem[field..field + TAG_LEN] == tag
      ==> ok
  {
    var confirm := new byte[TAG_LEN];
    var rc := flash.ReadBytes(field, confirm, 0, TAG_LEN);
    if rc != TAG_LEN {
      return false;
    }
    assert confirm[..] == flash.mem[field..field + TAG_LEN];
    return confirm[..] == tag;
  }

  /** The last leg: rewrite the sector, update the RAM header, read the field back. */
  method RewriteAndConfirm(flash: Flash, field: nat, ram: array<byte>, tagAt: nat, tag: Bytes, sectorBuf: array<byte>)
    returns (ok: bool)
    requires flash.Valid() && flash.dataWidth == 1 && flash.sectorSize <= MAX_SECTOR_SIZE
    requires |tag| == TAG_LEN && tagAt + TAG_LEN <= ram.Length
    requires sectorBuf != ram && sectorBuf.Length == MAX_SECTOR_SIZE
    requires field - AlignDown(field, flash.sectorSize) + TAG_LEN <= MAX_SECTOR_SIZE
    modifies flash`mem, flash`requests, sectorBuf, ram
    ensures flash.Valid() && |flash.mem| == old(|flash.mem|)
    ensures ok ==> field + TAG_LEN <= |flash.mem| && flash.mem == Patch(old(flash.mem), field, tag)
    ensures ok ==> ram[..] == Patch(old(ram[..]), tagAt, tag)
    ensures !ok ==> ram[..] == old(ram[..]) || ram[..] == Patch(old(ram[..]), tagAt, tag)
    ensures SameOutside(old(flash.mem), flash.mem, AlignDown(field, flash.sectorSize),
      AlignDown(field, flash.sectorSize) + flash.sectorSize)
    ensures flash.reliable && flash.countsItems && field + TAG_LEN <= |flash.mem|
      && field + TAG_LEN <= AlignDown(field, flash.sectorSize) + flash.sectorSize
      ==> ok
  {
    ghost var mem0 := flash.mem;
    var start := AlignDown(field, flash.sectorSize);
    ok := RewriteTagSector(flash, start, field - start, tag, sectorBuf);
    if !ok {
      return;
    }
    ghost var mem1 := flash.mem;
    if field + TAG_LEN <= start + flash.sectorSize {
      PatchedInside(mem0, start, flash.sectorSize, field - start, tag);
    }
    CopyInto(ram, tagAt, tag);
    ok := ConfirmTag(flash, field, tag);
    if ok {
      ReadBack(mem0, start, flash.sectorSize, field, TAG_LEN, tag, mem1);
    }
  }

  /** Stores the binding tag at flash address `field`; `ram` holds the image, its tag field at `tagAt`. */
  method StoreBindingTag(flash: Flash, field: nat, ram: array<byte>, tagAt: nat, tag: Bytes, sectorBuf: array<byte>)
    returns (ok: bool)
    requires flash.Valid() && flash.dataWidth == 1
    requires |tag| == TAG_LEN && tagAt + TAG_LEN <= ram.Length
    requires sectorBuf != ram && sectorBuf.Length == MAX_SECTOR_SIZE
    requires field - AlignDown(field, flash.sectorSize) + TAG_LEN <= MAX_SECTOR_SIZE
    modifies flash`mem, flash`requests, sectorBuf, ram
    ensures flash.Valid() && |flash.mem| == old(|flash.mem|)
    ensures ok ==> field + TAG_LEN <= |flash.mem| && flash.mem == Patch(old(flash.mem), field, tag)
    ensures ok && old(flash.mem)[field..field + TAG_LEN] == tag ==>
      flash.mem == old(flash.mem) && ram[..] == old(ram[..])
    ensures ok && old(flash.mem)[field..field + TAG_LEN] != tag ==> ram[..] == Patch(old(ram[..]), tagAt, tag)
    ensures !ok ==> ram[..] == old(ram[..]) || ram[..] == Patch(old(ram[..]), tagAt, tag)
    ensures forall i | 0 <= i < |flash.mem| && !(field <= i < field + TAG_LEN)
      && !InSectorOf(field, flash.sectorSize, i) ::
      flash.mem[i] == old(flash.mem)[i]
    ensures flash.reliable && flash.countsItems && flash.sectorSize <= 0x1000
      && field + 16 <= |flash.mem| && 16 % flash.programUnit == 0 && field % flash.programUnit == 0
      && field + 16 <= AlignDown(field, flash.sectorSize) + flash.sectorSize
      ==> ok
    ensures flash.sectorSize > 0x1000 ==> !ok && flash.mem == old(flash.mem) && ram[..] == old(ram[..])
  {
    if flash.sectorSize > MAX_SECTOR_SIZE {
      return false;
    }
    var flashBytes := new byte[TAG_LEN];
    var rc := flash.ReadBytes(field, flashBytes, 0, TAG_LEN);
    if rc != TAG_LEN {
      return false;
    }
    assert flashBytes[..] == flash.mem[field..field + TAG_LEN];
    if flashBytes[..] == tag {
      PatchSelf(flash.mem, field, TAG_LEN);
      return true;
    }
    var blank := IsAll(flashBytes[..], flash.erased);
    if blank {
      assert forall i :: field <= i < field + TAG_LEN ==> flash.mem[i] == flash.mem[field..field + TAG_LEN][i - field];
      ok := ProgramBlankTag(flash, field, tag);
      if ok {
        CopyInto(ram, tagAt, tag);
      }
      return;
    }
    ok := RewriteAndConfirm(flash, field, ram, tagAt, tag, sectorBuf);
  }

  lemma HeldStep(before: Bytes, after: Bytes, mem: Bytes, base: nat, n: nat, m: nat)
    requires n == 0 || Held(mem, base, before, n)
    requires n + m <= |before| && base + n + m <= |mem|
    requires after == Patch(before, n, mem[base + n..base + n + m])
    ensures Held(mem, base, after, n + m)
  {
  }

  /** Reads the sector at `base` into RAM in program-unit steps; the driver must return the unit each time. */
  method ReadSector(flash: Flash, base: nat, sectorBuf: array<byte>) returns (ok: bool)
    requires flash.Valid() && flash.dataWidth == 1
    requires flash.sectorSize <= sectorBuf.Length
    modifies flash`requests, sectorBuf
    ensures flash.Valid()
    ensures ok ==> base + flash.sectorSize <= |flash.mem|
    ensures ok ==> sectorBuf[..flash.sectorSize] == flash.mem[base..base + flash.sectorSize]
    ensures ok ==> flash.countsItems
    ensures flash.reliable && flash.countsItems && base + flash.sectorSize <= |flash.mem| ==> ok
  {
    var size, unit := flash.sectorSize, flash.programUnit;
    var read := 0;
    while read < size
      invariant 0 <= read <= size && (size - read) % unit == 0
      invariant flash.Valid()
      invariant read > 0 ==> flash.countsItems && Held(flash.mem, base, sectorBuf[..], read)
    {
      PositiveMultiple(size - read, unit);
      ghost var before := sectorBuf[..];
      var rc := flash.ReadBytes(base + read, sectorBuf, read, unit);
      if rc != unit {
        return false;
      }
      HeldStep(before, sectorBuf[..], flash.mem, base, read, unit);
      MulMod(1, unit);
      ModAdd(size - read, unit, unit);
      read := read + unit;
    }
    return true;
  }

  /** Copies the sector at `base` to RAM, patches the copy, erases the sector and programs the copy. */
  method UpdatePatchSectorRam(flash: Flash, base: nat, off: nat, patch: Bytes, sectorBuf: array<byte>) returns (rc: int)
    requires flash.Valid() && flash.dataWidth == 1
    requires flash.sectorSize <= sectorBuf.Length
    modifies flash`mem, flash`requests, sectorBuf
    ensures flash.Valid() && |flash.mem| == old(|flash.mem|)
    ensures rc == 0 || rc == -1
    ensures rc == 0 ==>
      && flash.countsItems && off + |patch| <= flash.sectorSize && base + off + |patch| <= |flash.mem|
      && flash.mem == Patch(old(flash.mem), base + off, patch)
    ensures rc != 0 ==> SameOutside(old(flash.mem), flash.mem, base, base + flash.sectorSize)
    ensures flash.reliable && flash.countsItems && base % flash.sectorSize == 0
      && base + flash.sectorSize <= |flash.mem| && off + |patch| <= flash.sectorSize
      ==> rc == 0
  {
    if base % flash.sectorSize != 0 {
      return -1;
    }
    if off + |patch| > flash.sectorSize {
      return -1;
    }
    ghost var mem0 := flash.mem;
    var size := flash.sectorSize;
    var ok := ReadSector(flash, base, sectorBuf);
    if !ok {
      return -1;
    }
    ghost var copy := sectorBuf[..size];
    ok := PatchAndProgram(flash, base, off, patch, sectorBuf);
    if !ok {
      return -1;
    }
    ghost var patched := sectorBuf[..size];
    assert patched == Patch(copy, off, patch);
    RewriteSector(mem0, base, size, patched, off, patch);
    return 0;
  }
}
