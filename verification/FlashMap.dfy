/** BL2's byte-granular view of flash on top of a width-aligned, unit-programmed driver (bl2/src/flash_map.c). */
module FlashMap {
  import opened Bytes
  import opened FlashDevice

  const U32: nat := 0x1_0000_0000

  datatype Area = Area(off: nat, size: nat)

  /** What flash_map.c takes for granted of an area and of FLASH_PROGRAM_UNIT. */
  ghost predicate Fits(flash: Flash, area: Area, unit: nat)
    reads flash
  {
    && flash.Valid()
    && unit > 0 && unit % flash.dataWidth == 0
    && area.off % flash.dataWidth == 0 && area.size % flash.dataWidth == 0
    && area.off + area.size <= |flash.mem| && area.size + unit <= U32
  }

  predicate IsRangeValid(area: Area, off: nat, len: nat) {
    off + len < U32 && off + len <= area.size
  }

  /** A width-aligned request inside the area. */
  ghost predicate Inside(area: Area, width: nat, r: (nat, nat))
    requires width > 0
  {
    r.0 % width == 0 && area.off <= r.0 && r.0 + r.1 <= area.off + area.size
  }

  /** Every driver read since `before` was width-aligned and inside the area. */
  ghost predicate ReadsInside(area: Area, width: nat, before: seq<(nat, nat)>, after: seq<(nat, nat)>)
    requires width > 0
  {
    before <= after && forall k :: |before| <= k < |after| ==> Inside(area, width, after[k])
  }

  lemma ReadsOne(area: Area, width: nat, before: seq<(nat, nat)>, mid: seq<(nat, nat)>, r: (nat, nat))
    requires width > 0 && ReadsInside(area, width, before, mid) && Inside(area, width, r)
    ensures ReadsInside(area, width, before, mid + [r])
  {
  }

  lemma ReadsTrans(area: Area, width: nat, before: seq<(nat, nat)>, mid: seq<(nat, nat)>, after: seq<(nat, nat)>)
    requires width > 0 && ReadsInside(area, width, before, mid) && ReadsInside(area, width, mid, after)
    ensures ReadsInside(area, width, before, after)
  {
    forall k | |before| <= k < |after| ensures Inside(area, width, after[k]) {
      if k < |mid| {
        assert mid[k] == after[k];
      }
    }
  }

  /** A destination buffer after `n` bytes from flash address `addr` were read into it at `at`. */
  function Fetched(dst: Bytes, at: nat, mem: Bytes, addr: nat, n: nat): (r: Bytes)
    requires at + n <= |dst| && addr + n <= |mem|
    ensures |r| == |dst|
    ensures forall i :: 0 <= i < |dst| ==> r[i] == if at <= i < at + n then mem[addr + (i - at)] else dst[i]
  {
    seq(|dst|, i requires 0 <= i < |dst| => if at <= i < at + n then mem[addr + (i - at)] else dst[i])
  }

  lemma FetchedPatch(dst: Bytes, at: nat, mem: Bytes, addr: nat, n: nat)
    requires at + n <= |dst| && addr + n <= |mem|
    ensures Fetched(dst, at, mem, addr, n) == Patch(dst, at, mem[addr..addr + n])
  {
  }

  /** Reads one item at `addr` and copies `n` of its bytes, from byte `skip` on, to the destination. */
  method ReadItem(flash: Flash, addr: nat, skip: nat, dst: array<byte>, at: nat, n: nat) returns (rc: int)
    requires flash.Valid() && addr % flash.dataWidth == 0
    requires skip + n <= flash.dataWidth && at + n <= dst.Length
    modifies dst, flash`requests
    ensures flash.Valid() && flash.requests == old(flash.requests) + [(addr, flash.dataWidth)]
    ensures rc >= 0 ==>
      && addr + flash.dataWidth <= |flash.mem|
      && dst[..] == Fetched(old(dst[..]), at, flash.mem, addr + skip, n)
    ensures rc < 0 ==> dst[..] == old(dst[..])
    ensures flash.reliable && addr + flash.dataWidth <= |flash.mem| ==> rc >= 0
  {
    var temp := new byte[4];
    ghost var dst0 := dst[..];
    rc := ReadItems(flash, addr, temp, 0, 1, flash.dataWidth);
    if rc < 0 {
      return;
    }
    ghost var item := temp[..];
    for i := 0 to n
      invariant dst[..] == Fetched(dst0, at, item, skip, i)
      invariant temp[..] == item && flash.Valid() && flash.requests == old(flash.requests) + [(addr, flash.dataWidth)]
    {
      dst[at + i] := temp[skip + i];
    }
    SameItem(dst0, at, item, flash.mem, addr, skip, n, flash.dataWidth);
  }

  lemma SameItem(dst: Bytes, at: nat, item: Bytes, mem: Bytes, addr: nat, skip: nat, n: nat, width: nat)
    requires at + n <= |dst| && skip + n <= width <= |item| && addr + width <= |mem|
    requires forall i :: 0 <= i < width ==> item[i] == mem[addr + i]
    ensures Fetched(dst, at, item, skip, n) == Fetched(dst, at, mem, addr + skip, n)
  {
  }

  /** Whole items straight into the destination; `n` is their size in bytes. */
  method ReadItems(flash: Flash, addr: nat, dst: array<byte>, at: nat, items: nat, n: nat) returns (rc: int)
    requires flash.Valid() && addr % flash.dataWidth == 0 && n == items * flash.dataWidth && at + n <= dst.Length
    modifies dst, flash`requests
    ensures flash.Valid() && flash.requests == old(flash.requests) + [(addr, n)]
    ensures rc >= 0 ==> addr + n <= |flash.mem| && dst[..] == Fetched(old(dst[..]), at, flash.mem, addr, n)
    ensures rc < 0 ==> SameOutside(old(dst[..]), dst[..], at, at + n)
    ensures flash.reliable && addr + n <= |flash.mem| ==> rc >= 0
  {
    ghost var dst0 := dst[..];
    rc := flash.ReadData(addr, dst, at, items);
    if rc >= 0 {
      FetchedPatch(dst0, at, flash.mem, addr, n);
    }
  }

  /** An item that starts inside an area of whole items lies inside it. */
  lemma ItemInside(area: Area, at: nat, width: nat)
    requires width > 0 && at % width == 0 && area.size % width == 0 && area.off % width == 0 && at < area.size
    ensures at + width <= area.size && (area.off + at) % width == 0
  {
    ModAdd(area.size, at, width);
    PositiveMultiple(area.size - at, width);
    ModAdd(at, area.off, width);
  }

  /** So does the item an unaligned offset lies in. */
  lemma HeadInside(area: Area, off: nat, width: nat)
    requires width > 0 && area.size % width == 0 && area.off % width == 0 && AlignDown(off, width) != off <= area.size
    ensures AlignDown(off, width) + width <= area.size && (area.off + AlignDown(off, width)) % width == 0
  {
    if off == area.size {
      AlignUnique(off, width, off);
    }
    ItemInside(area, AlignDown(off, width), width);
  }

  /** Two adjacent slices of flash, read one after the other. */
  lemma ReadJoin(dst: Bytes, mem: Bytes, at: nat, addr: nat, n: nat, m: nat)
    requires at + n + m <= |dst| && addr + n + m <= |mem|
    ensures Fetched(Fetched(dst, at, mem, addr, n), at + n, mem, addr + n, m) == Fetched(dst, at, mem, addr, n + m)
  {
    var once, twice := Fetched(dst, at, mem, addr, n + m),
      Fetched(Fetched(dst, at, mem, addr, n), at + n, mem, addr + n, m);
    forall i | 0 <= i < |dst| ensures once[i] == twice[i] {
    }
  }

  lemma WholeItems(n: nat, width: nat, items: nat, done: nat, rel: nat, base: nat)
    requires width > 0 && items == n / width && done == items * width && rel % width == 0 && base % width == 0
    ensures done <= n < done + width && (items == 0 <==> done == 0)
    ensures (rel + done) % width == 0 && (base + rel) % width == 0 && (base + rel + done) % width == 0
  {
    assert n == n / width * width + n % width;
    MulMod(items, width);
    MulBound(items, width);
    ModAdd(rel, done, width);
    ModAdd(rel, base, width);
    ModAdd(base + rel, done, width);
  }

  /** The part of flash_area_read after the head item: whole items, then the bytes of one last item. */
  method ReadRest(flash: Flash, area: Area, ghost unit: nat, rel: nat, dst: array<byte>, at: nat, n: nat)
      returns (rc: int)
    requires Fits(flash, area, unit) && at + n <= dst.Length
    requires n > 0 && rel % flash.dataWidth == 0 && rel + n <= area.size
    modifies dst, flash`requests
    ensures Fits(flash, area, unit) && ReadsInside(area, flash.dataWidth, old(flash.requests), flash.requests)
    ensures rc >= 0 ==> dst[..] == Fetched(old(dst[..]), at, flash.mem, area.off + rel, n)
    ensures rc < 0 ==> SameOutside(old(dst[..]), dst[..], at, at + n)
    ensures flash.reliable ==> rc >= 0
  {
    ghost var dst0, mem := dst[..], flash.mem;
    var width := flash.dataWidth;
    var items := n / width;
    var done := items * width;
    WholeItems(n, width, items, done, rel, area.off);
    ghost var reqs := flash.requests;
    assert ReadsInside(area, width, reqs, reqs);
    if items > 0 {
      rc := ReadItems(flash, area.off + rel, dst, at, items, done);
      ReadsOne(area, width, reqs, reqs, (area.off + rel, done));
      if rc < 0 || done == n {
        return;
      }
    }
    ItemInside(area, rel + done, width);
    ghost var mid := flash.requests;
    rc := ReadItem(flash, area.off + rel + done, 0, dst, at + done, n - done);
    ReadsOne(area, width, reqs, mid, (area.off + rel + done, width));
    if rc >= 0 {
      if items > 0 {
        ReadJoin(dst0, mem, at, area.off + rel, done, n - done);
      }
    }
  }

  /** flash_area_read without DMA. */
  method Read(flash: Flash, area: Area, ghost unit: nat, off: nat, dst: array<byte>, at: nat, len: nat)
      returns (rc: int)
    requires Fits(flash, area, unit) && at + len <= dst.Length
    modifies dst, flash`requests
    ensures Fits(flash, area, unit) && ReadsInside(area, flash.dataWidth, old(flash.requests), flash.requests)
    ensures rc == 0 ==> IsRangeValid(area, off, len)
    ensures rc == 0 ==> dst[..] == Fetched(old(dst[..]), at, flash.mem, area.off + off, len)
    ensures rc != 0 ==> SameOutside(old(dst[..]), dst[..], at, at + len)
    ensures flash.reliable && IsRangeValid(area, off, len) ==> rc == 0
    ensures rc == 0 ==> off + len <= area.size
    ensures flash.reliable && off + len <= area.size && off + len < 0x1_0000_0000 ==> rc == 0
    ensures old(flash.requests) <= flash.requests
    ensures forall k | |old(flash.requests)| <= k < |flash.requests| ::
      var (at, n) := flash.requests[k];
      area.off <= at && at + n <= area.off + area.size && at % flash.dataWidth == 0
  {
    if !IsRangeValid(area, off, len) {
      return -1;
    }
    rc := ReadInRange(flash, area, unit, off, dst, at, len);
  }

  method ReadInRange(flash: Flash, area: Area, ghost unit: nat, off: nat, dst: array<byte>, at: nat, len: nat)
      returns (rc: int)
    requires Fits(flash, area, unit) && at + len <= dst.Length && off + len <= area.size
    modifies dst, flash`requests
    ensures Fits(flash, area, unit) && ReadsInside(area, flash.dataWidth, old(flash.requests), flash.requests)
    ensures rc == 0 ==> dst[..] == Fetched(old(dst[..]), at, flash.mem, area.off + off, len)
    ensures rc != 0 ==> SameOutside(old(dst[..]), dst[..], at, at + len)
    ensures flash.reliable ==> rc == 0
  {
    ghost var dst0, mem, reqs := dst[..], flash.mem, flash.requests;
    var width := flash.dataWidth;
    var i := 0;
    assert ReadsInside(area, width, reqs, reqs);
    FetchedNone(dst0, at, mem, area.off + off);
    if AlignDown(off, width) != off {
      rc, i := ReadHead(flash, area, unit, off, dst, at, len);
      if rc < 0 {
        return;
      }
    }
    if i == len {
      return 0;
    }
    ghost var mid, head := flash.requests, dst[..];
    rc := ReadRest(flash, area, unit, off + i, dst, at + i, len - i);
    ReadsTrans(area, width, reqs, mid, flash.requests);
    BothReads(dst0, head, dst[..], mem, at, area.off + off, i, len - i, rc >= 0);
    if rc >= 0 {
      rc := 0;
    }
  }

  /** What two reads, of n and then of m bytes, make of the destination. */
  lemma BothReads(dst: Bytes, head: Bytes, after: Bytes, mem: Bytes, at: nat, addr: nat, n: nat, m: nat, ok: bool)
    requires at + n + m <= |dst| && addr + n + m <= |mem| && head == Fetched(dst, at, mem, addr, n)
    requires ok ==> after == Fetched(head, at + n, mem, addr + n, m)
    requires !ok ==> SameOutside(head, after, at + n, at + n + m)
    ensures ok ==> after == Fetched(dst, at, mem, addr, n + m)
    ensures !ok ==> SameOutside(dst, after, at, at + n + m)
  {
    ReadJoin(dst, mem, at, addr, n, m);
  }

  lemma FetchedNone(dst: Bytes, at: nat, mem: Bytes, addr: nat)
    requires at <= |dst| && addr <= |mem|
    ensures Fetched(dst, at, mem, addr, 0) == dst
  {
  }

  /** The item an unaligned offset lies in: its bytes from there on, as far as they are asked for. */
  method ReadHead(flash: Flash, area: Area, ghost unit: nat, off: nat, dst: array<byte>, at: nat, len: nat)
      returns (rc: int, i: nat)
    requires Fits(flash, area, unit) && at + len <= dst.Length && off + len <= area.size
    requires AlignDown(off, flash.dataWidth) != off
    modifies dst, flash`requests
    ensures Fits(flash, area, unit) && ReadsInside(area, flash.dataWidth, old(flash.requests), flash.requests)
    ensures i <= len && (i < len ==> i > 0 && (off + i) % flash.dataWidth == 0)
    ensures rc >= 0 ==> dst[..] == Fetched(old(dst[..]), at, flash.mem, area.off + off, i)
    ensures rc < 0 ==> dst[..] == old(dst[..])
    ensures flash.reliable ==> rc >= 0
  {
    var width := flash.dataWidth;
    var alignedOff := AlignDown(off, width);
    var skip := off - alignedOff;
    i := if skip + len >= width then width - skip else len;
    ghost var reqs := flash.requests;
    assert ReadsInside(area, width, reqs, reqs);
    HeadInside(area, off, width);
    if i < len {
      NextItem(off, i, width);
    }
    rc := ReadItem(flash, area.off + alignedOff, skip, dst, at, i);
    ReadsOne(area, width, reqs, reqs, (area.off + alignedOff, width));
  }

  /** After the head item, reading goes on at an item boundary. */
  lemma NextItem(off: nat, i: nat, width: nat)
    requires width > 0 && i == width - (off - AlignDown(off, width))
    ensures (off + i) % width == 0
  {
    MulMod(1, width);
    ModAdd(AlignDown(off, width), width, width);
  }
}
