/**
 * flash_area_write, flash_area_erase and their composition with flash_area_read (bl2/src/flash_map.c, lines
 * 235-425).
 */
module FlashWrite {
  import opened Bytes
  import opened FlashDevice
  import opened FlashMap

  /** How many source bytes go into the first, partly covered program unit. */
  function HeadLen(off: nat, len: nat, unit: nat): (h: nat)
    requires unit > 0
    ensures h <= len
  {
    var pad := off - AlignDown(off, unit);
    if pad == 0 then 0 else if unit - pad < len then unit - pad else len
  }

  /** How many bytes the middle ProgramData call writes. */
  function MiddleLen(off: nat, len: nat, unit: nat): (m: nat)
    requires unit > 0
    ensures HeadLen(off, len, unit) + m <= len
  {
    AlignDown(len - HeadLen(off, len, unit), unit)
  }

  /**
   * The bytes flash_area_write programs over [off, off + len). The middle call is given the start of the source
   * instead of the place reached in it, so after a partial head unit it repeats the source's first bytes.
   */
  function Effective(src: Bytes, off: nat, unit: nat): (r: Bytes)
    requires unit > 0
    ensures |r| == |src|
  {
    var h, m := HeadLen(off, |src|, unit), MiddleLen(off, |src|, unit);
    src[..h] + src[..m] + src[h + m..]
  }

  /** The source is written faithfully when this holds. */
  predicate Faithful(off: nat, len: nat, unit: nat)
    requires unit > 0
  {
    off % unit == 0 || len - HeadLen(off, len, unit) < unit
  }

  /** Under the guard, and only under it, every source of this length is what is written. */
  lemma FaithfulIff(off: nat, len: nat, unit: nat)
    requires unit > 0
    ensures Faithful(off, len, unit) <==> forall src: Bytes | |src| == len :: Effective(src, off, unit) == src
    ensures Faithful(off, len, unit) <==> off % unit == 0 || len < 2 * unit - off % unit
  {
    var h, m := HeadLen(off, len, unit), MiddleLen(off, len, unit);
    if off % unit == 0 {
      AlignUnique(off, unit, off);
    } else {
      assert h > 0 || len == 0;
    }
    MulMod(0, unit);
    if Faithful(off, len, unit) {
      if off % unit != 0 {
        AlignUnique(len - h, unit, 0);
      }
      assert h == 0 || m == 0;
    } else {
      var src: Bytes := [1] + Fill(len - 1, 0);
      PositiveMultiple(m, unit);
      assert Effective(src, off, unit)[h] == src[0];
      assert src[h] == 0;
    }
  }

  /** Byte by byte: the head and the tail are the source's own, the middle is the source's front over again. */
  lemma EffectiveBytes(src: Bytes, off: nat, unit: nat, h: nat, m: nat, k: nat)
    requires unit > 0 && k < |src|
    requires h == if off % unit == 0 then 0 else if unit - off % unit < |src| then unit - off % unit else |src|
    requires m == (|src| - h) / unit * unit
    ensures Effective(src, off, unit)[k] == if h <= k < h + m then src[k - h] else src[k]
  {
    assert h == HeadLen(off, |src|, unit);
    assert |src| - h == m + (|src| - h) % unit;
    assert m == MiddleLen(off, |src|, unit);
    if k >= h + m {
      assert src[h + m..][k - h - m] == src[k];
    }
  }

  /** Programming two adjacent pieces is programming their concatenation. */
  lemma BurnAppend(cell: CellRule, mem: Bytes, at: nat, p: Bytes, next: nat, q: Bytes)
    requires next == at + |p| && next + |q| <= |mem|
    ensures BurnAt(cell, BurnAt(cell, mem, at, p), next, q) == BurnAt(cell, mem, at, p + q)
  {
    var twice, once := BurnAt(cell, BurnAt(cell, mem, at, p), next, q), BurnAt(cell, mem, at, p + q);
    forall i | 0 <= i < |mem| ensures twice[i] == once[i] {
    }
  }

  /** Padding a piece with what flash already holds programs nothing but the piece. */
  lemma PadNeutral(cell: CellRule, mem: Bytes, at: nat, block: Bytes, pad: nat, data: Bytes)
    requires at + |block| <= |mem| && pad + |data| <= |block|
    requires forall v :: cell(v, v) == v
    requires forall i :: 0 <= i < |block| ==> block[i] == if pad <= i < pad + |data| then data[i - pad] else mem[at + i]
    ensures BurnAt(cell, mem, at, block) == BurnAt(cell, mem, at + pad, data)
  {
    var padded, plain := BurnAt(cell, mem, at, block), BurnAt(cell, mem, at + pad, data);
    forall i | 0 <= i < |mem| ensures padded[i] == plain[i] {
      if at <= i < at + |block| {
        assert block[i - at] == if pad <= i - at < pad + |data| then data[i - at - pad] else mem[i];
      }
    }
  }

  /** One of the four loops that fill the program-unit buffer: copies until the unit or the source is exhausted. */
  method FillUnit(buf: array<byte>, i0: nat, src: Bytes, j0: nat) returns (i: nat, j: nat)
    requires i0 <= buf.Length && j0 <= |src|
    modifies buf
    ensures i - i0 == j - j0 && i <= buf.Length && j <= |src|
    ensures i == buf.Length || j == |src|
    ensures buf[..] == Patch(old(buf[..]), i0, src[j0..j])
  {
    i, j := i0, j0;
    while i < buf.Length && j < |src|
      invariant i0 <= i <= buf.Length && j0 <= j <= |src| && i - i0 == j - j0
      invariant buf[..] == Patch(old(buf[..]), i0, src[j0..j])
    {
      buf[i] := src[j];
      i, j := i + 1, j + 1;
    }
  }

  /** A driver without faults and erased cells: programming there succeeds. */
  ghost predicate Ready(flash: Flash, at: nat, n: nat)
    reads flash
  {
    flash.reliable && Blank(flash.mem, at, n, flash.erased)
  }

  /** Part of an erased range is erased, and stays so while other cells are programmed. */
  lemma BlankBeyond(cell: CellRule, mem: Bytes, dst: nat, data: Bytes, lo: nat, size: nat, at: nat, n: nat,
      erased: byte)
    requires dst + |data| <= at && lo <= at && at + n <= lo + size && at <= |mem|
    ensures Blank(mem, lo, size, erased) ==> Blank(BurnAt(cell, mem, dst, data), at, n, erased)
  {
  }

  lemma BlankPart(mem: Bytes, lo: nat, size: nat, at: nat, n: nat, erased: byte)
    requires lo <= at && at + n <= lo + size
    ensures Blank(mem, lo, size, erased) ==> Blank(mem, at, n, erased)
  {
  }

  /** ProgramData of all of `data`. */
  method Program(flash: Flash, addr: nat, data: Bytes) returns (ok: bool)
    requires flash.Valid() && |data| % flash.dataWidth == 0
    modifies flash`mem
    ensures flash.Valid() && |flash.mem| == old(|flash.mem|)
    ensures ok ==> addr + |data| <= |flash.mem| && flash.mem == BurnAt(flash.cell, old(flash.mem), addr, data)
    ensures !ok ==> SameOutside(old(flash.mem), flash.mem, addr, addr + |data|)
    ensures old(Ready(flash, addr, |data|)) ==> ok
  {
    var items := |data| / flash.dataWidth;
    assert items * flash.dataWidth == |data|;
    assert data[..items * flash.dataWidth] == data;
    var rc := flash.ProgramData(addr, data, items);
    return rc >= 0;
  }

  /** The unit-aligned span around [off, off + len) and what of it is padding at the end. */
  function AlignedLen(off: nat, len: nat, unit: nat): nat
    requires unit > 0
  {
    AlignUp(len + (off - AlignDown(off, unit)), unit)
  }

  function LenPad(off: nat, len: nat, unit: nat): nat
    requires unit > 0
  {
    AlignedLen(off, len, unit) - len - (off - AlignDown(off, unit))
  }

  /** How a source of `len` bytes is cut: `pad` bytes precede it in its first unit, `lp` bytes follow it in its last. */
  ghost predicate Cut(pad: nat, h: nat, m: nat, lp: nat, len: nat, unit: nat) {
    && pad < unit && lp < unit && h + m <= len
    && (pad == 0 ==> h == 0)
    && (pad > 0 ==> h == if unit - pad < len then unit - pad else len)
    && (pad > 0 && h == len ==> pad + len + lp == unit && m == 0)
    && (pad == 0 || h < len ==> if lp == 0 then h + m == len else len - h - m + lp == unit)
  }

  /**
   * Head, middle and tail pieces are cut at unit boundaries; this is why the source's consistency checks never
   * fire.
   */
  lemma Geometry(off: nat, len: nat, unit: nat)
    requires unit > 0
    ensures var pad, h, m, lp := off - AlignDown(off, unit), HeadLen(off, len, unit), MiddleLen(off, len, unit),
      LenPad(off, len, unit);
      && lp >= 0 && Cut(pad, h, m, lp, len, unit)
      && (lp > 0 && (pad == 0 || h < len) ==> AlignedLen(off, len, unit) == pad + h + m + unit)
  {
    var pad, h, m := off - AlignDown(off, unit), HeadLen(off, len, unit), MiddleLen(off, len, unit);
    var start := if pad == 0 then 0 else unit;
    MulMod(0, unit);
    MulMod(1, unit);
    if pad > 0 && h == len {
      AlignUnique(0, unit, 0);
      AlignUnique(pad + len + unit - 1, unit, unit);
    } else {
      var r := len - h - m;
      ModAdd(m, start, unit);
      if r == 0 {
        AlignUnique(start + m + unit - 1, unit, start + m);
      } else {
        ModAdd(start + m, unit, unit);
        AlignUnique(start + m + r + unit - 1, unit, start + m + unit);
      }
    }
  }

  /**
   * Fills one program unit: `src` from `from` on at index `pad`, and behind it the padding if the source is used
   * up.
   */
  method FillPadded(buf: array<byte>, pad: nat, src: Bytes, from: nat, lenPad: Bytes)
      returns (written: nat, ghost rest: Bytes)
    requires pad <= buf.Length && from <= |src|
    requires if buf.Length - pad < |src| - from then true else pad + (|src| - from) + |lenPad| == buf.Length
    modifies buf
    ensures from <= written <= |src|
      && written - from == if buf.Length - pad < |src| - from then buf.Length - pad else |src| - from
    ensures rest == if written == |src| then lenPad else []
    ensures pad + (written - from) + |rest| == buf.Length
    ensures buf[..] == Patch(Patch(old(buf[..]), pad, src[from..written]), pad + (written - from), rest)
  {
    var i;
    i, written := FillUnit(buf, pad, src, from);
    rest := [];
    if written == |src| {
      var k;
      i, k := FillUnit(buf, i, lenPad, 0);
      assert k == |lenPad|;
      rest := lenPad;
      assert lenPad[0..k] == lenPad;
    }
    assert i == buf.Length;
  }

  /** A filled unit is what flash holds there, except for the source bytes. */
  lemma PaddedContents(cell: CellRule, mem: Bytes, at: nat, buf: Bytes, block: Bytes, pad: nat, data: Bytes,
      rest: Bytes)
    requires pad + |data| + |rest| == |buf| && at + |buf| <= |mem| && (forall v :: cell(v, v) == v)
    requires Held(mem, at, buf, pad) && Held(mem, at + pad + |data|, rest, |rest|)
    requires block == Patch(Patch(buf, pad, data), pad + |data|, rest)
    ensures BurnAt(cell, mem, at, block) == BurnAt(cell, mem, at + pad, data)
  {
    forall i | 0 <= i < |block| ensures block[i] == if pad <= i < pad + |data| then data[i - pad] else mem[at + i] {
      if i >= pad + |data| {
        assert rest[i - pad - |data|] == mem[at + i];
      }
    }
    PadNeutral(cell, mem, at, block, pad, data);
  }

  /**
   * Fills and programs one unit at `at`: `pad` bytes the buffer already holds, source bytes from `from` on, and
   * the trailing padding if the source is used up. Both the head and the tail unit are written this way.
   */
  method ProgramPadded(flash: Flash, at: nat, buf: array<byte>, pad: nat, src: Bytes, from: nat, lenPad: Bytes)
    returns (ok: bool, written: nat)
    requires flash.Valid() && buf.Length % flash.dataWidth == 0 && at + buf.Length <= |flash.mem|
    requires pad <= buf.Length && from <= |src| && Held(flash.mem, at, buf[..], pad)
    requires buf.Length - pad >= |src| - from ==>
      pad + (|src| - from) + |lenPad| == buf.Length && Held(flash.mem, at + pad + (|src| - from), lenPad, |lenPad|)
    modifies flash`mem, buf
    ensures flash.Valid() && |flash.mem| == old(|flash.mem|)
    ensures from <= written <= |src|
      && written - from == if buf.Length - pad < |src| - from then buf.Length - pad else |src| - from
    ensures ok ==> flash.mem == BurnAt(flash.cell, old(flash.mem), at + pad, src[from..written])
    ensures !ok ==> SameOutside(old(flash.mem), flash.mem, at, at + buf.Length)
    ensures old(Ready(flash, at, buf.Length)) ==> ok
  {
    ghost var mem0, buf0 := flash.mem, buf[..];
    ghost var rest;
    written, rest := FillPadded(buf, pad, src, from, lenPad);
    var block := buf[..];
    PaddedContents(flash.cell, mem0, at, buf0, block, pad, src[from..written], rest);
    ok := Program(flash, at, block);
  }

  lemma UnitFits(off: nat, len: nat, unit: nat)
    requires unit > 0 && off > AlignDown(off, unit)
    ensures AlignedLen(off, len, unit) >= unit
  {
    PositiveMultiple(AlignedLen(off, len, unit), unit);
  }

  lemma HeldBeyond(cell: CellRule, mem: Bytes, dst: nat, data: Bytes, at: nat, buf: Bytes, n: nat)
    requires dst + |data| <= at && Held(mem, at, buf, n)
    ensures Held(BurnAt(cell, mem, dst, data), at, buf, n)
  {
  }

  /** One piece was programmed, then the next one was, or failed to be. */
  lemma ThenBurn(cell: CellRule, mem0: Bytes, mem1: Bytes, mem2: Bytes, at: nat, p: Bytes, next: nat, q: Bytes,
      hi: nat, ok: bool)
    requires next == at + |p| <= |mem0| && next <= hi && mem1 == BurnAt(cell, mem0, at, p)
    requires ok ==> next + |q| <= |mem0| && mem2 == BurnAt(cell, mem1, next, q)
    requires !ok ==> SameOutside(mem1, mem2, next, hi)
    ensures ok ==> mem2 == BurnAt(cell, mem0, at, p + q)
    ensures !ok ==> SameOutside(mem0, mem2, at, hi)
  {
    if ok {
      BurnAppend(cell, mem0, at, p, next, q);
    }
  }

  /** The middle call; nothing is programmed when it would be empty. */
  method ProgramMiddle(flash: Flash, addr: nat, data: Bytes) returns (ok: bool)
    requires flash.Valid() && |data| % flash.dataWidth == 0 && addr <= |flash.mem|
    modifies flash`mem
    ensures flash.Valid() && |flash.mem| == old(|flash.mem|)
    ensures ok ==> addr + |data| <= |flash.mem| && flash.mem == BurnAt(flash.cell, old(flash.mem), addr, data)
    ensures !ok ==> SameOutside(old(flash.mem), flash.mem, addr, addr + |data|)
    ensures old(Ready(flash, addr, |data|)) ==> ok
  {
    if |data| > 0 {
      ok := Program(flash, addr, data);
    } else {
      ok := true;
      assert BurnAt(flash.cell, flash.mem, addr, data) == flash.mem;
    }
  }

  /** The last unit: the end of the source and the trailing padding. */
  method ProgramTail(flash: Flash, at: nat, buf: array<byte>, tail: Bytes, lenPad: Bytes) returns (ok: bool)
    requires flash.Valid() && buf.Length % flash.dataWidth == 0 && at + buf.Length <= |flash.mem|
    requires |tail| + |lenPad| == buf.Length && Held(flash.mem, at + |tail|, lenPad, |lenPad|)
    modifies flash`mem, buf
    ensures flash.Valid() && |flash.mem| == old(|flash.mem|)
    ensures ok ==> flash.mem == BurnAt(flash.cell, old(flash.mem), at, tail)
    ensures !ok ==> SameOutside(old(flash.mem), flash.mem, at, at + buf.Length)
    ensures old(Ready(flash, at, buf.Length)) ==> ok
  {
    var last;
    ok, last := ProgramPadded(flash, at, buf, 0, tail, 0, lenPad);
    assert tail[0..last] == tail;
  }

  /** The pieces written after the head unit: the middle call, then the padded last unit. */
  method WriteRest(flash: Flash, at: nat, mid: Bytes, tail: Bytes, buf: array<byte>, lenPad: Bytes, ghost ready: bool)
    returns (ok: bool)
    requires flash.Valid() && |mid| % flash.dataWidth == 0 && buf.Length % flash.dataWidth == 0
    requires at + |mid| + |tail| + |lenPad| <= |flash.mem|
    requires if lenPad == [] then tail == [] else |tail| + |lenPad| == buf.Length
    requires Held(flash.mem, at + |mid| + |tail|, lenPad, |lenPad|)
    requires ready ==> Ready(flash, at, |mid| + |tail| + |lenPad|)
    modifies flash`mem, buf
    ensures flash.Valid() && |flash.mem| == old(|flash.mem|)
    ensures ok ==> flash.mem == BurnAt(flash.cell, old(flash.mem), at, mid + tail)
    ensures !ok ==> SameOutside(old(flash.mem), flash.mem, at, at + |mid| + |tail| + |lenPad|)
    ensures ready ==> ok
  {
    ghost var mem0, span := flash.mem, |mid| + |tail| + |lenPad|;
    BlankPart(mem0, at, span, at, |mid|, flash.erased);
    ok := ProgramMiddle(flash, at, mid);
    if !ok {
      return;
    }
    if |lenPad| == 0 {
      assert mid + tail == mid;
      return;
    }
    ghost var mem1 := flash.mem;
    HeldBeyond(flash.cell, mem0, at, mid, at + |mid| + |tail|, lenPad, |lenPad|);
    BlankBeyond(flash.cell, mem0, at, mid, at, span, at + |mid|, buf.Length, flash.erased);
    ok := ProgramTail(flash, at + |mid|, buf, tail, lenPad);
    ThenBurn(flash.cell, mem0, mem1, flash.mem, at, mid, at + |mid|, tail, at + span, ok);
  }

  /** Reads the bytes that pad the source at one end into a fresh buffer of `size` bytes. */
  method ReadPad(flash: Flash, area: Area, ghost unit: nat, off: nat, n: nat, size: nat)
      returns (ok: bool, buf: array<byte>)
    requires Fits(flash, area, unit) && n <= size
    modifies flash`requests
    ensures fresh(buf) && buf.Length == size && Fits(flash, area, unit)
    ensures ReadsInside(area, flash.dataWidth, old(flash.requests), flash.requests)
    ensures ok ==> IsRangeValid(area, off, n) && Held(flash.mem, area.off + off, buf[..], n)
    ensures flash.reliable && IsRangeValid(area, off, n) ==> ok
  {
    buf := new byte[size];
    var rc := Read(flash, area, unit, off, buf, 0, n);
    ok := rc == 0;
  }

  /** The padding at both ends, and the check that the padded range still lies in the area. */
  method ReadPads(flash: Flash, area: Area, unit: nat, start: nat, before: nat, len: nat, behind: nat)
    returns (ok: bool, addPad: array<byte>, lenPad: Bytes)
    requires Fits(flash, area, unit) && before < unit && behind < unit
    modifies flash`requests
    ensures fresh(addPad) && addPad.Length == unit && Fits(flash, area, unit)
    ensures ReadsInside(area, flash.dataWidth, old(flash.requests), flash.requests)
    ensures ok ==>
      && IsRangeValid(area, start, before + len + behind) && |lenPad| == behind
      && Held(flash.mem, area.off + start, addPad[..], before)
      && Held(flash.mem, area.off + start + before + len, lenPad, behind)
    ensures flash.reliable && IsRangeValid(area, start, before + len + behind) ==> ok
  {
    lenPad := [];
    ghost var reqs := flash.requests;
    ok, addPad := ReadPad(flash, area, unit, start, before, unit);
    if !ok {
      return;
    }
    if !IsRangeValid(area, start, before + len + behind) {
      ok := false;
      return;
    }
    ghost var mid := flash.requests;
    var buf;
    ok, buf := ReadPad(flash, area, unit, start + before + len, behind, if unit == 1 then 1 else unit - 1);
    ReadsTrans(area, flash.dataWidth, reqs, mid, flash.requests);
    lenPad := buf[..behind];
  }

  /** The head unit, if there is one. */
  method WriteHead(flash: Flash, base: nat, pad: nat, src: Bytes, addPad: array<byte>, lenPad: Bytes, ghost h: nat,
      ghost m: nat)
    returns (ok: bool, written: nat)
    requires flash.Valid() && addPad.Length % flash.dataWidth == 0 && pad <= base
      && base + |src| + |lenPad| <= |flash.mem|
    requires Cut(pad, h, m, |lenPad|, |src|, addPad.Length) && (pad > 0 ==> base - pad + addPad.Length <= |flash.mem|)
    requires Held(flash.mem, base - pad, addPad[..], pad) && Held(flash.mem, base + |src|, lenPad, |lenPad|)
    modifies flash`mem, addPad
    ensures flash.Valid() && |flash.mem| == old(|flash.mem|) && written == h
    ensures ok ==> flash.mem == BurnAt(flash.cell, old(flash.mem), base, src[..h])
    ensures !ok ==> pad > 0 && SameOutside(old(flash.mem), flash.mem, base - pad, base - pad + addPad.Length)
    ensures old(Ready(flash, base - pad, addPad.Length)) ==> ok
  {
    if pad > 0 {
      ok, written := ProgramPadded(flash, base - pad, addPad, pad, src, 0, lenPad);
      assert src[0..written] == src[..h];
    } else {
      ok, written := true, 0;
      assert BurnAt(flash.cell, flash.mem, base, src[..h]) == flash.mem;
    }
  }

  /** The rest, when `head` has been programmed at `base`. */
  method WriteAfterHead(flash: Flash, ghost mem0: Bytes, ghost lo: nat, ghost span: nat, base: nat, head: Bytes,
      mid: Bytes, tail: Bytes, buf: array<byte>, lenPad: Bytes, ghost ready: bool)
    returns (ok: bool)
    requires flash.Valid() && |mid| % flash.dataWidth == 0 && buf.Length % flash.dataWidth == 0
    requires lo <= base && lo + span == base + |head| + |mid| + |tail| + |lenPad| <= |mem0|
    requires flash.mem == BurnAt(flash.cell, mem0, base, head)
    requires if lenPad == [] then tail == [] else |tail| + |lenPad| == buf.Length
    requires Held(mem0, base + |head| + |mid| + |tail|, lenPad, |lenPad|)
    requires ready ==> flash.reliable && Blank(mem0, lo, span, flash.erased)
    modifies flash`mem, buf
    ensures flash.Valid() && |flash.mem| == |mem0|
    ensures ok ==> flash.mem == BurnAt(flash.cell, mem0, base, head + (mid + tail))
    ensures !ok ==> SameOutside(mem0, flash.mem, base, lo + span)
    ensures ready ==> ok
  {
    ghost var mem1, next := flash.mem, base + |head|;
    HeldBeyond(flash.cell, mem0, base, head, next + |mid| + |tail|, lenPad, |lenPad|);
    BlankBeyond(flash.cell, mem0, base, head, lo, span, next, |mid| + |tail| + |lenPad|, flash.erased);
    ok := WriteRest(flash, base + |head|, mid, tail, buf, lenPad, ready);
    ThenBurn(flash.cell, mem0, mem1, flash.mem, base, head, next, mid + tail, lo + span, ok);
  }

  /** The head unit if `off` is not unit-aligned, then the rest. */
  method WritePieces(flash: Flash, base: nat, pad: nat, src: Bytes, addPad: array<byte>, lenPad: Bytes, h: nat,
      mid: Bytes, tail: Bytes, ghost ready: bool)
    returns (ok: bool)
    requires flash.Valid() && addPad.Length % flash.dataWidth == 0 && |mid| % flash.dataWidth == 0
    requires pad <= base && base + |src| + |lenPad| <= |flash.mem| && h + |mid| + |tail| == |src|
    requires Cut(pad, h, |mid|, |lenPad|, |src|, addPad.Length)
      && (pad > 0 ==> base - pad + addPad.Length <= base + |src| + |lenPad|)
    requires Held(flash.mem, base - pad, addPad[..], pad) && Held(flash.mem, base + |src|, lenPad, |lenPad|)
    requires ready ==> Ready(flash, base - pad, pad + |src| + |lenPad|)
    modifies flash`mem, addPad
    ensures flash.Valid() && |flash.mem| == old(|flash.mem|)
    ensures ok ==> flash.mem == BurnAt(flash.cell, old(flash.mem), base, src[..h] + (mid + tail))
    ensures !ok ==> SameOutside(old(flash.mem), flash.mem, base - pad, base + |src| + |lenPad|)
    ensures ready ==> ok
  {
    ghost var mem0, span := flash.mem, pad + |src| + |lenPad|;
    var head := src[..h];
    if pad > 0 {
      BlankPart(mem0, base - pad, span, base - pad, addPad.Length, flash.erased);
    }
    var written;
    ok, written := WriteHead(flash, base, pad, src, addPad, lenPad, h, |mid|);
    if !ok {
      return;
    }
    if written == |src| {
      assert head + (mid + tail) == head;
      return;
    }
    ok := WriteAfterHead(flash, mem0, base - pad, span, base, head, mid, tail, addPad, lenPad, ready);
  }

  lemma MiddleWidth(off: nat, len: nat, unit: nat, width: nat)
    requires unit > 0 && width > 0 && unit % width == 0
    ensures MiddleLen(off, len, unit) % width == 0
  {
    ModTrans(MiddleLen(off, len, unit), unit, width);
  }

  /** The padded range of a write lies in the area and is erased, so that a fault-free driver accepts it. */
  ghost predicate WriteReady(flash: Flash, area: Area, unit: nat, off: nat, len: nat)
    requires unit > 0
    reads flash
  {
    && IsRangeValid(area, AlignDown(off, unit), AlignedLen(off, len, unit))
    && Ready(flash, area.off + AlignDown(off, unit), AlignedLen(off, len, unit))
  }

  /** flash_area_write. */
  method Write(flash: Flash, area: Area, unit: nat, off: nat, src: Bytes) returns (rc: int)
    requires Fits(flash, area, unit)
    modifies flash`mem, flash`requests
    ensures Fits(flash, area, unit) && |flash.mem| == old(|flash.mem|)
    ensures ReadsInside(area, flash.dataWidth, old(flash.requests), flash.requests)
    ensures rc == 0 || rc == -1
    ensures rc == 0 ==> IsRangeValid(area, off, |src|)
    ensures rc == 0 ==> flash.mem == BurnAt(flash.cell, old(flash.mem), area.off + off, Effective(src, off, unit))
    ensures rc != 0 ==> SameOutside(old(flash.mem), flash.mem, area.off + AlignDown(off, unit),
      area.off + AlignDown(off, unit) + AlignedLen(off, |src|, unit))
    ensures old(WriteReady(flash, area, unit, off, |src|)) ==> rc == 0
    ensures rc == 0 ==> off + |src| <= area.size
    ensures flash.reliable && AlignDown(off, unit) + AlignUp(off - AlignDown(off, unit) + |src|, unit) <= area.size
      && Blank(old(flash.mem), area.off + AlignDown(off, unit), AlignUp(off - AlignDown(off, unit) + |src|, unit),
        flash.erased)
      ==> rc == 0
  {
    if !IsRangeValid(area, off, |src|) {
      return -1;
    }
    ghost var ready := Ready(flash, area.off + AlignDown(off, unit), AlignedLen(off, |src|, unit));
    var alignedOff := AlignDown(off, unit);
    var addPadSize := off - alignedOff;
    var alignedLen := AlignedLen(off, |src|, unit);
    var lenPadSize := alignedLen - |src| - addPadSize;
    Geometry(off, |src|, unit);
    var ok, addPad, lenPad := ReadPads(flash, area, unit, alignedOff, addPadSize, |src|, lenPadSize);
    if !ok {
      return -1;
    }
    var h, m := HeadLen(off, |src|, unit), MiddleLen(off, |src|, unit);
    MiddleWidth(off, |src|, unit, flash.dataWidth);
    if addPadSize > 0 {
      UnitFits(off, |src|, unit);
    }
    assert src[..h] + (src[..m] + src[h + m..]) == Effective(src, off, unit);
    ok := WritePieces(flash, area.off + off, addPadSize, src, addPad, lenPad, h, src[..m], src[h + m..], ready);
    return if ok then 0 else -1;
  }

  /** Number of bytes flash_area_erase clears for a request of `len`: whole sectors. */
  function ErasedLen(len: nat, size: nat): nat
    requires size > 0
  {
    AlignUp(len, size)
  }

  /** The erase loop over a uniform layout; `total` is the number of bytes in the sectors it visits. */
  method EraseLoop(flash: Flash, base: nat, len: nat, ghost total: nat) returns (rc: int)
    requires flash.Valid() && len > 0 && total % flash.sectorSize == 0 && len <= total < len + flash.sectorSize
    modifies flash`mem
    ensures flash.Valid() && |flash.mem| == old(|flash.mem|) && rc <= 0
    ensures rc == 0 ==>
      && base % flash.sectorSize == 0 && base + total <= |flash.mem|
      && flash.mem == Patch(old(flash.mem), base, Fill(total, flash.erased))
    ensures rc != 0 ==> SameOutside(old(flash.mem), flash.mem, base, base + total)
    ensures flash.reliable && base % flash.sectorSize == 0 && base + total <= |flash.mem| ==> rc == 0
  {
    ghost var mem0 := flash.mem;
    var size := flash.sectorSize;
    var deleted := 0;
    rc := 0;
    MulMod(0, size);
    while deleted < len
      invariant 0 <= deleted <= total && deleted % size == 0 && rc == 0
      invariant flash.Valid() && |flash.mem| == |mem0|
      invariant deleted == 0 ==> flash.mem == mem0
      invariant deleted > 0 ==> base % size == 0 && base + deleted <= |mem0|
      invariant deleted > 0 ==> flash.mem == Patch(mem0, base, Fill(deleted, flash.erased))
      decreases len - deleted
    {
      ModAdd(total, deleted, size);
      PositiveMultiple(total - deleted, size);
      ModAdd(base, deleted, size);
      ghost var before := flash.mem;
      rc := flash.EraseSector(base + deleted);
      if rc != 0 {
        return;
      }
      if deleted > 0 {
        FillAppend(mem0, base, deleted, size, flash.erased);
      }
      MulMod(1, size);
      ModAdd(deleted, size, size);
      deleted := deleted + size;
    }
    if deleted < total {
      ModAdd(total, deleted, size);
      PositiveMultiple(total - deleted, size);
    }
  }

  /** flash_area_erase; a layout with explicit sector information is silently not erased. */
  method Erase(flash: Flash, area: Area, ghost unit: nat, off: nat, len: nat, uniform: bool) returns (rc: int)
    requires Fits(flash, area, unit)
    modifies flash`mem
    ensures Fits(flash, area, unit) && |flash.mem| == old(|flash.mem|)
    ensures rc == 0 ==> IsRangeValid(area, off, len)
    ensures !uniform || len == 0 ==> flash.mem == old(flash.mem) && (rc == 0 <==> IsRangeValid(area, off, len))
    ensures rc == 0 ==> off + len <= area.size
    ensures off + len <= area.size && (!uniform || len == 0) ==> rc == 0
    ensures flash.reliable && uniform && off + len <= area.size && (area.off + off) % flash.sectorSize == 0
      && area.off + off + AlignUp(len, flash.sectorSize) <= |flash.mem|
      ==> rc == 0
    ensures rc == 0 && uniform && len > 0 ==>
      && (area.off + off) % flash.sectorSize == 0 && area.off + off + ErasedLen(len, flash.sectorSize) <= |flash.mem|
      && flash.mem == Patch(old(flash.mem), area.off + off, Fill(ErasedLen(len, flash.sectorSize), flash.erased))
    ensures SameOutside(old(flash.mem), flash.mem, area.off + off, area.off + off + ErasedLen(len, flash.sectorSize))
    ensures flash.reliable && IsRangeValid(area, off, len) && (area.off + off) % flash.sectorSize == 0
      && area.off + off + ErasedLen(len, flash.sectorSize) <= |flash.mem|
      ==> rc == 0
  {
    if !IsRangeValid(area, off, len) {
      return -1;
    }
    rc := 0;
    if uniform && len > 0 {
      rc := EraseLoop(flash, area.off + off, len, ErasedLen(len, flash.sectorSize));
    }
  }

  /**
   * A length that is no multiple of the sector size is rounded up, so an erase that passed the range check can reach
   * beyond the area. It stays inside, whatever flash holds, exactly if the last sector it visits does.
   */
  lemma EraseStaysInsideIff(area: Area, off: nat, len: nat, size: nat, erased: byte)
    requires size > 0 && len > 0 && off + len <= area.size
    ensures (forall mem: Bytes | |mem| >= area.off + area.size && |mem| >= area.off + off + ErasedLen(len, size) ::
        SameOutside(mem, Patch(mem, area.off + off, Fill(ErasedLen(len, size), erased)), area.off,
          area.off + area.size))
      <==> off + ErasedLen(len, size) <= area.size
  {
    var n, end := ErasedLen(len, size), area.off + area.size;
    if off + n > area.size {
      var mem := Fill(end + n, erased + 1);
      assert Patch(mem, area.off + off, Fill(n, erased))[end] != mem[end];
    }
  }

  /** In an area of whole sectors an erase from a sector boundary stays inside. */
  lemma WholeSectorAreaErase(area: Area, off: nat, len: nat, size: nat)
    requires size > 0 && off + len <= area.size && off % size == 0 && area.size % size == 0
    ensures off + ErasedLen(len, size) <= area.size
  {
    ModAdd(area.size, off, size);
    var rest := area.size - off;
    AlignUnique(rest + size - 1, size, rest);
    if AlignUp(len, size) > rest {
      ModAdd(AlignUp(len, size), rest, size);
      PositiveMultiple(AlignUp(len, size) - rest, size);
    }
  }

  lemma FaithfulWrites(src: Bytes, off: nat, unit: nat)
    requires unit > 0 && Faithful(off, |src|, unit)
    ensures Effective(src, off, unit) == src
  {
    FaithfulIff(off, |src|, unit);
  }

  /** flash_area_write where it is faithful. */
  method WriteFaithful(flash: Flash, area: Area, unit: nat, off: nat, src: Bytes) returns (ok: bool)
    requires Fits(flash, area, unit) && Faithful(off, |src|, unit)
    modifies flash`mem, flash`requests
    ensures Fits(flash, area, unit) && |flash.mem| == old(|flash.mem|)
    ensures ok ==> area.off + off + |src| <= |flash.mem|
    ensures ok ==> flash.mem == BurnAt(flash.cell, old(flash.mem), area.off + off, src)
    ensures old(WriteReady(flash, area, unit, off, |src|)) ==> ok
  {
    var rc := Write(flash, area, unit, off, src);
    FaithfulWrites(src, off, unit);
    ok := rc == 0;
  }

  /** Any range inside erased sectors is blank. */
  lemma ErasedIsBlank(mem0: Bytes, lo: nat, n: nat, mem1: Bytes, at: nat, len: nat, erased: byte)
    requires lo + n <= |mem0| && mem1 == Patch(mem0, lo, Fill(n, erased)) && lo <= at && at + len <= lo + n
    ensures Blank(mem1, at, len, erased)
  {
  }

  lemma FetchedBack(dst: Bytes, before: Bytes, mem: Bytes, addr: nat, src: Bytes)
    requires addr + |src| <= |before| && mem == Patch(before, addr, src) && |src| <= |dst|
    ensures Fetched(dst, 0, mem, addr, |src|)[..|src|] == src
  {
  }

  /** A faithful write over erased cells, then a read: the bytes come back. */
  method WriteRead(flash: Flash, area: Area, unit: nat, at: nat, src: Bytes, dst: array<byte>) returns (ok: bool)
    requires Fits(flash, area, unit) && |src| <= dst.Length && Faithful(at, |src|, unit)
    requires Blank(flash.mem, area.off + at, |src|, flash.erased)
    modifies flash`mem, flash`requests, dst
    ensures Fits(flash, area, unit)
    ensures ok ==> dst[..|src|] == src && flash.mem == Patch(old(flash.mem), area.off + at, src)
    ensures old(WriteReady(flash, area, unit, at, |src|)) ==> ok
  {
    ghost var mem1, dst0 := flash.mem, dst[..];
    BurnBlank(flash.cell, mem1, area.off + at, src, flash.erased);
    ok := WriteFaithful(flash, area, unit, at, src);
    if !ok {
      return;
    }
    ghost var mem2 := flash.mem;
    var rc := Read(flash, area, unit, at, dst, 0, |src|);
    if rc != 0 {
      return false;
    }
    FetchedBack(dst0, mem1, mem2, area.off + at, src);
  }

  /** The units a write touches lie in the area and within n bytes from off on. */
  predicate Covers(area: Area, unit: nat, off: nat, n: nat, at: nat, len: nat)
    requires unit > 0
  {
    var lo, span := AlignDown(at, unit), AlignedLen(at, len, unit);
    IsRangeValid(area, lo, span) && off <= lo && lo + span <= off + n
  }

  /** Erase, write, read: the bytes come back and nothing outside the erased sectors changes. */
  method EraseWriteRead(flash: Flash, area: Area, unit: nat, off: nat, eraseLen: nat, at: nat, src: Bytes,
      dst: array<byte>)
    returns (ok: bool)
    requires Fits(flash, area, unit) && |src| <= dst.Length
    requires eraseLen > 0 && off <= at && at + |src| <= off + eraseLen && Faithful(at, |src|, unit)
    modifies flash`mem, flash`requests, dst
    ensures ok ==> dst[..|src|] == src
    ensures ok ==> SameOutside(old(flash.mem), flash.mem, area.off + off,
      area.off + off + ErasedLen(eraseLen, flash.sectorSize))
    ensures flash.reliable && IsRangeValid(area, off, eraseLen) && (area.off + off) % flash.sectorSize == 0
      && area.off + off + ErasedLen(eraseLen, flash.sectorSize) <= |flash.mem|
      && Covers(area, unit, off, ErasedLen(eraseLen, flash.sectorSize), at, |src|)
      ==> ok
  {
    ghost var mem0, n := flash.mem, ErasedLen(eraseLen, flash.sectorSize);
    ghost var lo, span := AlignDown(at, unit), AlignedLen(at, |src|, unit);
    var rc := Erase(flash, area, unit, off, eraseLen, true);
    if rc != 0 {
      return false;
    }
    ghost var mem1 := flash.mem;
    ErasedIsBlank(mem0, area.off + off, n, mem1, area.off + at, |src|, flash.erased);
    if off <= lo && lo + span <= off + n {
      ErasedIsBlank(mem0, area.off + off, n, mem1, area.off + lo, span, flash.erased);
    }
    ok := WriteRead(flash, area, unit, at, src, dst);
  }
}
