/** Binding a BL2 image to the device, and checking the binding at later boots (bl1/bl1_2/bl1_2_image_binding.c). */
module ImageBinding {
  import opened Bytes
  import opened FlashDevice
  import opened ImageLayout
  import opened Aead
  import W = BindWriter
  import opened BindStream

  /** FLASH_PAGE_SIZE and FLASH_SECTOR_SIZE. */
  const BLOCK_SIZE: nat := 1024
  const SECTOR_BUF_SIZE: nat := 4096

  /** CCM with a 12-byte nonce leaves 3 bytes for the payload length (NIST SP 800-38C, A.1). */
  const MAX_PAYLOAD: nat := 0x100_0000

  function Power256(k: nat): nat {
    if k == 0 then 1 else 256 * Power256(k - 1)
  }

  lemma PayloadLimit()
    ensures NONCE_LEN == 12 && MAX_PAYLOAD == Power256(15 - NONCE_LEN)
  {
    assert Power256(3) == 256 * Power256(2) && Power256(2) == 256 * Power256(1) && Power256(1) == 256 * Power256(0);
  }

  /** True when the tag in the RAM header is not all zero. */
  predicate TagPresent(lay: Layout, img: Bytes)
    requires lay.binding && lay.End() <= |img|
  {
    lay.Tag(img) != Fill(TAG_LEN, 0)
  }

  lemma TagPresentIff(lay: Layout, img: Bytes)
    requires lay.binding && lay.End() <= |img|
    ensures TagPresent(lay, img) <==> exists k :: 0 <= k < 16 && lay.Tag(img)[k] != 0
  {
    NotAllZero(lay.Tag(img));
  }

  lemma NotAllZero(tag: Bytes)
    requires |tag| == 16
    ensures tag != Fill(16, 0) <==> exists k :: 0 <= k < 16 && tag[k] != 0
    ensures tag == Fill(16, 0) <==> forall k :: 0 <= k < 16 ==> tag[k] == 0
  {
    if forall k :: 0 <= k < 16 ==> tag[k] == 0 {
      assert tag == Fill(16, 0);
    }
  }

  /** The tag in `img` is the CCM tag of what its protected values decrypt to. */
  ghost predicate CcmAccepts(lay: Layout, ccm: Ccm, img: Bytes)
    requires lay.binding && lay.encryption && lay.End() <= |img|
  {
    lay.Tag(img) == ccm.tag(lay.Nonce(img), ccm.open(lay.Nonce(img), lay.Pv(img)))
  }

  /** `img` with the protected values decrypted in place. */
  ghost function Opened(lay: Layout, ccm: Ccm, img: Bytes): (r: Bytes)
    requires lay.encryption && lay.End() <= |img| && ccm.Lawful()
    ensures |r| == |img|
  {
    var pt := ccm.open(lay.Nonce(img), lay.Pv(img));
    assert |pt| == lay.PvLen();
    Patch(img, lay.PvAt(), pt)
  }

  /** The first `k` protected bytes are wiped and the rest is still the ciphertext. */
  ghost predicate Wiped(lay: Layout, before: Bytes, after: Bytes, k: nat)
    requires lay.End() <= |before|
  {
    k <= lay.PvLen() && after == Patch(before, lay.PvAt(), Fill(k, 0))
  }

  /** The decryption is in place: what is written never overtakes what has been read. */
  ghost predicate Decrypting(lay: Layout, ram: Bytes, before: Bytes, out: Bytes, inOff: nat)
    requires lay.End() <= |before|
  {
    && |out| <= inOff <= lay.PvLen()
    && ram == Patch(before, lay.PvAt(), out)
  }

  lemma UnreadIntact(lay: Layout, ram: Bytes, before: Bytes, out: Bytes, inOff: nat, n: nat)
    requires lay.End() <= |before| && Decrypting(lay, ram, before, out, inOff)
    requires inOff + n <= lay.PvLen()
    ensures lay.PvAt() + inOff + n <= |ram|
    ensures ram[lay.PvAt() + inOff..lay.PvAt() + inOff + n] == lay.Pv(before)[inOff..inOff + n]
  {
    SliceOfSlice(before, lay.PvAt(), lay.End(), inOff, n);
    BehindPatch(before, lay.PvAt(), out, lay.PvAt() + inOff, n);
  }

  lemma BehindPatch(s: Bytes, at: nat, p: Bytes, lo: nat, n: nat)
    requires at + |p| <= lo && lo + n <= |s|
    ensures Patch(s, at, p)[lo..lo + n] == s[lo..lo + n]
  {
  }

  /** Appending what an update emitted keeps the output behind the input. */
  lemma DecryptStep(lay: Layout, ram: Bytes, ram': Bytes, before: Bytes, result: Bytes, outOff: nat, emitted: nat,
      tmp: Bytes, inOff: nat)
    requires lay.End() <= |before| && outOff + |tmp| == emitted <= |result| && emitted <= inOff <= lay.PvLen()
    requires Decrypting(lay, ram, before, result[..outOff], outOff) && tmp == result[outOff..emitted]
    requires lay.PvAt() + outOff + |tmp| <= |ram| && ram' == Patch(ram, lay.PvAt() + outOff, tmp)
    ensures Decrypting(lay, ram', before, result[..emitted], inOff)
  {
    PatchAppend(before, lay.PvAt(), result[..outOff], tmp);
    assert result[..outOff] + tmp == result[..emitted];
  }

  /** memset of the first `k` protected bytes. */
  method Wipe(ram: array<byte>, lay: Layout, k: nat, ghost before: Bytes, ghost out: Bytes)
    requires lay.End() <= ram.Length == |before| && k <= lay.PvLen()
    requires |out| <= k && ram[..] == Patch(before, lay.PvAt(), out)
    modifies ram
    ensures Wiped(lay, before, ram[..], k)
  {
    W.CopyInto(ram, lay.PvAt(), Fill(k, 0));
  }

  /**
   * The decryption loop. Ciphertext is read from the region the plaintext is written to; `op.input` staying the
   * front of the original region is what shows that no unread byte was overwritten.
   */
  method DecryptStream(ram: array<byte>, lay: Layout, op: AeadOp, ghost before: Bytes) returns (ok: bool)
    requires lay.End() <= ram.Length && ram[..] == before
    requires op.Valid() && op.plan == lay.Pv(before) && op.input == [] && op.emitted == 0
    modifies ram, op
    ensures op.Valid()
    ensures ok ==> |op.input| == lay.PvLen() && Decrypting(lay, ram[..], before, op.result[..op.emitted], lay.PvLen())
    ensures !ok ==> exists k :: Wiped(lay, before, ram[..], k)
    ensures op.reliable ==> ok
  {
    var total, dst := lay.PvLen(), lay.PvAt();
    var inOff, outOff := 0, 0;
    while inOff < total
      invariant 0 <= inOff <= total && outOff == op.emitted && |op.input| == inOff
      invariant op.Valid()
      invariant Decrypting(lay, ram[..], before, op.result[..outOff], inOff)
    {
      var chunk := BLOCK_SIZE;
      if chunk > total - inOff {
        chunk := total - inOff;
      }
      UnreadIntact(lay, ram[..], before, op.result[..outOff], inOff, chunk);
      var tmp;
      ok, tmp := op.Update(ram[dst + inOff..dst + inOff + chunk], BLOCK_SIZE);
      if !ok {
        Wipe(ram, lay, outOff, before, op.result[..outOff]);
        return false;
      }
      assert outOff + |tmp| <= total;
      ghost var prior := ram[..];
      W.CopyInto(ram, dst + outOff, tmp);
      DecryptStep(lay, prior, ram[..], before, op.result, outOff, op.emitted, tmp, inOff + chunk);
      outOff, inOff := outOff + |tmp|, inOff + chunk;
    }
    ok := true;
  }

  /** bl1_2_validate_image_binding, encrypted variant: authenticates and decrypts the RAM copy in place. */
  method ValidateCcm(ram: array<byte>, lay: Layout, ccm: Ccm, reliable: bool) returns (ok: bool)
    requires lay.binding && lay.encryption && lay.End() <= ram.Length && ccm.Lawful()
    modifies ram
    ensures ok ==> CcmAccepts(lay, ccm, old(ram[..])) && ram[..] == Opened(lay, ccm, old(ram[..]))
    ensures !ok ==> exists k :: Wiped(lay, old(ram[..]), ram[..], k)
    ensures ok ==> lay.PvLen() < 0x100_0000
    ensures ok ==>
      lay.Tag(old(ram[..])) == ccm.tag(lay.Nonce(old(ram[..])), ccm.open(lay.Nonce(old(ram[..])), lay.Pv(old(ram[..]))))
    ensures ok ==> lay.Pv(ram[..]) == ccm.open(lay.Nonce(old(ram[..])), lay.Pv(old(ram[..])))
    ensures forall i | 0 <= i < ram.Length && !(lay.PvAt() <= i < lay.End()) :: ram[i] == old(ram[i])
    ensures !ok ==> forall i | 0 <= i < ram.Length :: ram[i] == old(ram[i]) || ram[i] == 0
    ensures reliable && lay.PvLen() < 0x100_0000 && CcmAccepts(lay, ccm, old(ram[..])) ==> ok
  {
    ghost var before := ram[..];
    var total, dst := lay.PvLen(), lay.PvAt();
    assert Wiped(lay, before, ram[..], 0);
    if total >= MAX_PAYLOAD {
      return false;
    }
    var nonce := ram[..NONCE_LEN];
    var op := AeadOp.Start(ccm, false, nonce, total, reliable, lay.Pv(before));
    assert Wiped(lay, before, ram[..], 0);
    if op == null {
      return false;
    }
    ok := DecryptStream(ram, lay, op, before);
    if !ok {
      return false;
    }
    var outOff := op.emitted;
    ghost var out := op.result[..outOff];
    var tag := ram[lay.TagAt()..lay.TagAt() + TAG_LEN];
    assert tag == lay.Tag(before);
    var tmp;
    ok, tmp := op.Verify(BLOCK_SIZE, tag);
    if !ok {
      Wipe(ram, lay, total, before, out);
      return false;
    }
    assert outOff + |tmp| == total;
    ghost var prior := ram[..];
    W.CopyInto(ram, dst + outOff, tmp);
    DecryptStep(lay, prior, ram[..], before, op.result, outOff, total, tmp, total);
    assert op.result[..total] == op.result;
  }

  /** What has been written to flash is exactly what the cipher has emitted. */
  ghost predicate Linked(op: AeadOp, ctx: BindContext)
    reads op, ctx, ctx.flash
  {
    && op.Valid() && ctx.Valid() && ctx.InSync()
    && ctx.regionEnd == ctx.regionBase + |op.plan|
    && ctx.written == op.result[..op.emitted]
  }

  /** One block: encrypt it and write out whatever the cipher produced. */
  method EncryptBlock(op: AeadOp, ctx: BindContext, block: Bytes) returns (ok: bool)
    requires Linked(op, ctx) && |block| <= BLOCK_SIZE
    requires |op.input| + |block| <= |op.plan| && block == op.plan[|op.input|..|op.input| + |block|]
    modifies op, ctx`cur, ctx`written, ctx.flash`mem, ctx.flash`requests, ctx.sectorBuf
    ensures op.Valid() && ctx.Valid()
    ensures ok ==> Linked(op, ctx) && |op.input| == old(|op.input|) + |block|
    ensures !ok ==> ctx.Contained()
    ensures op.reliable && ctx.flash.reliable && ctx.flash.countsItems && ctx.flash.sectorSize > 1024
      && ctx.regionEnd <= |ctx.flash.mem|
      ==> ok
  {
    ghost var was := op.emitted;
    ctx.InSyncContained();
    var out;
    ok, out := op.Update(block, BLOCK_SIZE);
    if !ok {
      return false;
    }
    ok := ctx.Emit(out);
    assert op.result[..was] + out == op.result[..op.emitted];
  }

  /** The encryption loop: blocks of plaintext through the cipher, ciphertext into flash through the stream writer. */
  method EncryptStream(plaintext: Bytes, op: AeadOp, ctx: BindContext) returns (ok: bool)
    requires Linked(op, ctx) && op.plan == plaintext && op.input == []
    modifies op, ctx`cur, ctx`written, ctx.flash`mem, ctx.flash`requests, ctx.sectorBuf
    ensures op.Valid() && ctx.Valid()
    ensures ok ==> Linked(op, ctx) && |op.input| == |plaintext|
    ensures !ok ==> ctx.Contained()
    ensures op.reliable && ctx.flash.reliable && ctx.flash.countsItems && ctx.flash.sectorSize > 1024
      && ctx.regionEnd <= |ctx.flash.mem|
      ==> ok
  {
    var total, off := |plaintext|, 0;
    while off < total
      invariant 0 <= off <= total && |op.input| == off
      invariant Linked(op, ctx)
    {
      var block := BLOCK_SIZE;
      if block > total - off {
        block := total - off;
      }
      ok := EncryptBlock(op, ctx, plaintext[off..off + block]);
      if !ok {
        return false;
      }
      off := off + block;
    }
    ok := true;
  }

  /** Flash once the image at `base` is bound: ciphertext over the protected values, then the tag over its field. */
  ghost function BoundFlash(lay: Layout, ccm: Ccm, mem: Bytes, base: nat, img: Bytes): (r: Bytes)
    requires lay.binding && lay.encryption && lay.End() <= |img| && base + lay.End() <= |mem| && ccm.Lawful()
    ensures |r| == |mem|
  {
    var ct := ccm.seal(lay.Nonce(img), lay.Pv(img));
    var tag := ccm.tag(lay.Nonce(img), lay.Pv(img));
    assert |ct| == lay.PvLen() && |tag| == TAG_LEN;
    Patch(Patch(mem, base + lay.PvAt(), ct), base + lay.TagAt(), tag)
  }

  /** Geometry the tag store needs: its static sector buffer must hold the sector copy and the tag. */
  ghost predicate TagFits(lay: Layout, flash: Flash, base: nat) {
    flash.sectorSize > 0
      && base + lay.TagAt() - AlignDown(base + lay.TagAt(), flash.sectorSize) + TAG_LEN <= W.MAX_SECTOR_SIZE
  }

  /** The tag field can be programmed in place: it is unit-aligned and lies in one sector. */
  ghost predicate TagAligned(lay: Layout, flash: Flash, base: nat) {
    && flash.sectorSize > 0 && flash.programUnit > 0
    && TAG_LEN % flash.programUnit == 0 && (base + lay.TagAt()) % flash.programUnit == 0
    && base + lay.TagAt() + TAG_LEN <= AlignDown(base + lay.TagAt(), flash.sectorSize) + flash.sectorSize
  }

  /** Encrypts `pt` into flash at `pvBase`; the tag is the result. */
  method EncryptToFlash(ccm: Ccm, nonce: Bytes, pt: Bytes, flash: Flash, pvBase: nat, reliable: bool)
    returns (ok: bool, tag: Bytes)
    requires ccm.Lawful() && pt != []
    requires flash.Valid() && flash.dataWidth == 1
    modifies flash`mem, flash`requests
    ensures flash.Valid() && |flash.mem| == old(|flash.mem|)
    ensures ok ==>
      && |pt| < 0x100_0000 && |ccm.seal(nonce, pt)| == |pt| && pvBase + |pt| <= |flash.mem|
      && tag == ccm.tag(nonce, pt) && flash.mem == Patch(old(flash.mem), pvBase, ccm.seal(nonce, pt))
    ensures !ok ==> SameOutside(old(flash.mem), flash.mem, AlignDown(pvBase, flash.sectorSize),
      AlignUp(pvBase + |pt|, flash.sectorSize))
    ensures reliable && flash.reliable && flash.countsItems && 1024 < flash.sectorSize <= 4096
      && |pt| < 0x100_0000 && pvBase + |pt| <= |flash.mem|
      ==> ok
  {
    ok, tag := false, [];
    if |pt| >= MAX_PAYLOAD {
      return;
    }
    var op := AeadOp.Start(ccm, true, nonce, |pt|, reliable, pt);
    if op == null {
      return;
    }
    var sectorBuf := new byte[SECTOR_BUF_SIZE];
    var ctx := BindContext.Begin(flash, pvBase, |pt|, sectorBuf);
    if ctx == null {
      return;
    }
    ok := EncryptStream(pt, op, ctx);
    if !ok {
      return;
    }
    ghost var written := ctx.written;
    ctx.InSyncContained();
    var out;
    ok, out, tag := op.Finish(BLOCK_SIZE);
    if !ok {
      return;
    }
    ok := ctx.Emit(out);
    assert written + out == op.result;
  }

  /** Only sectors that hold some of the image [base, end) differ. */
  ghost predicate SlotFrame(before: Bytes, after: Bytes, base: nat, end: nat, size: nat)
    requires size > 0
  {
    SameOutside(before, after, AlignDown(base, size), AlignUp(end, size))
  }

  /** A change inside the sectors of a part of the slot is one inside the sectors of the slot. */
  lemma PartFrame(before: Bytes, after: Bytes, lo: nat, hi: nat, base: nat, end: nat, size: nat)
    requires size > 0 && base <= lo && hi <= end
    requires SlotFrame(before, after, lo, hi, size)
    ensures SlotFrame(before, after, base, end, size)
  {
    HullShrinks(base, lo, size);
    HullShrinks(hi, end, size);
  }

  /** What the tag store may change lies in the sectors of the tag field. */
  lemma TagFrame(before: Bytes, after: Bytes, field: nat, n: nat, size: nat)
    requires size > 0 && n > 0 && |before| == |after|
    requires forall i | 0 <= i < |after| && !(field <= i < field + n) && !W.InSectorOf(field, size, i) ::
      after[i] == before[i]
    ensures SlotFrame(before, after, field, field + n, size)
  {
    SliceInHull(field, n, size);
  }

  /** store_binding_tag: the tag goes into the RAM header and then into flash. Both variants end this way. */
  method StoreTag(ram: array<byte>, lay: Layout, tag: Bytes, flash: Flash, base: nat) returns (ok: bool)
    requires lay.binding && lay.End() <= ram.Length && |tag| == TAG_LEN
    requires flash.Valid() && flash.dataWidth == 1 && TagFits(lay, flash, base)
    modifies flash`mem, flash`requests, ram
    ensures flash.Valid() && |flash.mem| == old(|flash.mem|)
    ensures ok ==>
      && base + lay.TagAt() + TAG_LEN <= |flash.mem|
      && flash.mem == Patch(old(flash.mem), base + lay.TagAt(), tag)
    ensures ram[..] == Patch(old(ram[..]), lay.TagAt(), tag) && lay.Tag(ram[..]) == tag
    ensures SlotFrame(old(flash.mem), flash.mem, base, base + lay.End(), flash.sectorSize)
    ensures flash.reliable && flash.countsItems && flash.sectorSize <= 0x1000
      && base + lay.TagAt() + TAG_LEN <= |flash.mem| && TagAligned(lay, flash, base)
      ==> ok
  {
    ghost var ram0, mem0, field := ram[..], flash.mem, base + lay.TagAt();
    W.CopyInto(ram, lay.TagAt(), tag);
    var sectorBuf := new byte[W.MAX_SECTOR_SIZE];
    ghost var ram1 := ram[..];
    ok := W.StoreBindingTag(flash, base + lay.TagAt(), ram, lay.TagAt(), tag, sectorBuf);
    TagFrame(mem0, flash.mem, field, TAG_LEN, flash.sectorSize);
    PartFrame(mem0, flash.mem, field, field + TAG_LEN, base, base + lay.End(), flash.sectorSize);
    assert Patch(ram1, lay.TagAt(), tag) == ram1;
    PatchSlice(ram0, lay.TagAt(), tag);
  }

  /** bl1_2_do_image_binding, encrypted variant. */
  method DoBindingCcm(ram: array<byte>, lay: Layout, ccm: Ccm, flash: Flash, base: nat, reliable: bool)
      returns (ok: bool)
    requires lay.binding && lay.encryption && lay.End() <= ram.Length && ccm.Lawful()
    requires flash.Valid() && flash.dataWidth == 1 && TagFits(lay, flash, base)
    modifies flash`mem, flash`requests, ram
    ensures flash.Valid() && |flash.mem| == old(|flash.mem|)
    ensures ok ==>
      && base + lay.End() <= |flash.mem| && lay.PvLen() < 0x100_0000
      && flash.mem == BoundFlash(lay, ccm, old(flash.mem), base, old(ram[..]))
      && lay.Tag(ram[..]) == ccm.tag(lay.Nonce(old(ram[..])), lay.Pv(old(ram[..])))
    ensures SlotFrame(old(flash.mem), flash.mem, base, base + lay.End(), flash.sectorSize)
    ensures SameOutside(old(ram[..]), ram[..], lay.TagAt(), lay.TagAt() + TAG_LEN)
    ensures reliable && flash.reliable && flash.countsItems && 1024 < flash.sectorSize <= 4096
      && lay.PvLen() < 0x100_0000 && base + lay.End() <= |flash.mem| && TagAligned(lay, flash, base)
      ==> ok
  {
    ghost var mem0 := flash.mem;
    ghost var end, size := base + lay.End(), flash.sectorSize;
    var tag;
    ok, tag := EncryptToFlash(ccm, ram[..NONCE_LEN], ram[lay.PvAt()..lay.End()], flash, base + lay.PvAt(), reliable);
    ghost var mem1 := flash.mem;
    assert ok ==> SameOutside(mem0, mem1, base + lay.PvAt(), end);
    PartFrame(mem0, mem1, base + lay.PvAt(), end, base, end, size);
    if !ok || |tag| != TAG_LEN {
      return false;
    }
    ok := StoreTag(ram, lay, tag, flash, base);
  }

  /** Flash holds the image header the RAM copy was made from. */
  ghost predicate SameNonce(lay: Layout, mem: Bytes, base: nat, img: Bytes)
    requires lay.encryption && lay.End() <= |img|
  {
    base + lay.End() <= |mem| && mem[base..base + NONCE_LEN] == lay.Nonce(img)
  }

  /**
   * Round trip: the image read back from bound flash is accepted and decrypts to the protected values that were
   * bound; flash outside the protected values and the tag field is what it was.
   */
  lemma BoundImageOpens(lay: Layout, ccm: Ccm, mem: Bytes, base: nat, img: Bytes)
    requires lay.binding && lay.encryption && lay.End() <= |img| && ccm.Lawful()
    requires SameNonce(lay, mem, base, img)
    ensures var after := BoundFlash(lay, ccm, mem, base, img);
      var back := after[base..base + lay.End()];
      && CcmAccepts(lay, ccm, back)
      && lay.Pv(Opened(lay, ccm, back)) == lay.Pv(img)
      && lay.Tag(back) == ccm.tag(lay.Nonce(img), lay.Pv(img))
      && forall i | 0 <= i < |mem| && !(base + lay.PvAt() <= i < base + lay.End())
           && !(base + lay.TagAt() <= i < base + lay.TagAt() + TAG_LEN) :: after[i] == mem[i]
  {
    var after := BoundFlash(lay, ccm, mem, base, img);
    var back := after[base..base + lay.End()];
    var ct, tag := ccm.seal(lay.Nonce(img), lay.Pv(img)), ccm.tag(lay.Nonce(img), lay.Pv(img));
    TwoPatches(mem, base + lay.PvAt(), ct, base + lay.TagAt(), tag, base, NONCE_LEN);
    SliceOfSlice(after, base, base + lay.End(), lay.PvAt(), lay.PvLen());
    SliceOfSlice(after, base, base + lay.End(), lay.TagAt(), TAG_LEN);
    SliceOfSlice(after, base, base + lay.End(), 0, NONCE_LEN);
    assert lay.Pv(back) == ct && lay.Tag(back) == tag && lay.Nonce(back) == lay.Nonce(img);
    assert lay.Pv(Opened(lay, ccm, back)) == ccm.open(lay.Nonce(back), ct);
  }

  /** Both patches, and what lies before them, read back. */
  lemma TwoPatches(mem: Bytes, at: nat, p: Bytes, at': nat, q: Bytes, lo: nat, n: nat)
    requires lo + n <= at' && at' + |q| <= at && at + |p| <= |mem|
    ensures var after := Patch(Patch(mem, at, p), at', q);
      after[at..at + |p|] == p && after[at'..at' + |q|] == q && after[lo..lo + n] == mem[lo..lo + n]
  {
  }

  /** bl1_image_copy_to_sram: the whole image from flash into RAM. */
  method CopyToSram(flash: Flash, base: nat, n: nat, ram: array<byte>) returns (ok: bool)
    requires flash.Valid() && flash.dataWidth == 1 && 0 < n <= ram.Length
    modifies flash`requests, ram
    ensures flash.Valid()
    ensures ok ==> base + n <= |flash.mem| && ram[..n] == flash.mem[base..base + n]
    ensures SameOutside(old(ram[..]), ram[..], 0, n)
    ensures flash.reliable && flash.countsItems && base + n <= |flash.mem| ==> ok
  {
    var rc := flash.ReadBytes(base, ram, 0, n);
    return rc == n;
  }

  /** Decryption in place keeps the header, so the tag it was checked against is still there. */
  lemma OpenedTag(lay: Layout, ccm: Ccm, img: Bytes)
    requires lay.binding && lay.encryption && lay.End() <= |img| && ccm.Lawful()
    ensures var r := Opened(lay, ccm, img);
      lay.Tag(r) == lay.Tag(img) && lay.Nonce(r) == lay.Nonce(img) && lay.Pv(r) == ccm.open(lay.Nonce(img), lay.Pv(img))
  {
  }

  /** Only the image itself matters for the tag check and its result, not what lies behind it in RAM. */
  lemma CcmPrefix(lay: Layout, ccm: Ccm, img: Bytes)
    requires lay.binding && lay.encryption && lay.End() <= |img| && ccm.Lawful()
    ensures var cut := img[..lay.End()];
      && (CcmAccepts(lay, ccm, cut) <==> CcmAccepts(lay, ccm, img))
      && lay.Pv(Opened(lay, ccm, cut)) == lay.Pv(Opened(lay, ccm, img))
  {
    var cut := img[..lay.End()];
    assert lay.Pv(cut) == lay.Pv(img) && lay.Nonce(cut) == lay.Nonce(img) && lay.Tag(cut) == lay.Tag(img);
    OpenedTag(lay, ccm, cut);
    OpenedTag(lay, ccm, img);
  }

  /** Bind an image, lose RAM, copy the image back from flash and validate the binding. */
  method BindThenReboot(ram: array<byte>, ram2: array<byte>, lay: Layout, ccm: Ccm, flash: Flash, base: nat,
      reliable: bool)
    returns (bound: bool, booted: bool)
    requires ram != ram2 && lay.binding && lay.encryption && lay.End() <= ram.Length && lay.End() <= ram2.Length
      && ccm.Lawful()
    requires flash.Valid() && flash.dataWidth == 1 && TagFits(lay, flash, base)
    requires SameNonce(lay, flash.mem, base, ram[..])
    modifies flash`mem, flash`requests, ram, ram2
    ensures booted ==> bound && lay.Pv(ram2[..]) == lay.Pv(old(ram[..]))
    ensures bound && flash.reliable && flash.countsItems && reliable ==> booted
    ensures reliable && flash.reliable && flash.countsItems && 1024 < flash.sectorSize <= 4096
      && lay.PvLen() < 0x100_0000 && TagAligned(lay, flash, base)
      ==> bound && booted
    ensures bound ==> lay.Pv(ram[..]) == lay.Pv(old(ram[..]))
  {
    ghost var mem0, img := flash.mem, ram[..];
    bound := DoBindingCcm(ram, lay, ccm, flash, base, reliable);
    booted := false;
    if bound {
      BoundImageOpens(lay, ccm, mem0, base, img);
      booted := CopyToSram(flash, base, lay.End(), ram2);
      if booted {
        CcmPrefix(lay, ccm, ram2[..]);
        booted := ValidateCcm(ram2, lay, ccm, reliable);
      }
    }
  }

  /** The tag of the plain variant is the CMAC of a hash; both are functions of their input. */
  datatype Mac = Mac(hash: Bytes -> Bytes, cmac: Bytes -> Bytes) {
    function Tag(pv: Bytes): Bytes {
      cmac(hash(pv))
    }
  }

  /** A multi-part MAC computation; any step may fail. */
  class MacOp {
    const cmac: Bytes -> Bytes
    const reliable: bool
    var input: Bytes

    constructor (cmac: Bytes -> Bytes, reliable: bool)
      ensures this.cmac == cmac && this.reliable == reliable && input == []
    {
      this.cmac, this.reliable, input := cmac, reliable, [];
    }

    method Update(data: Bytes) returns (ok: bool)
      modifies this
      ensures ok ==> input == old(input) + data
      ensures reliable ==> ok
    {
      var works: bool := *;
      ok := works || reliable;
      input := input + data;
    }

    /** At most cap bytes of the MAC of everything fed in. */
    method Finish(cap: nat) returns (ok: bool, mac: Bytes)
      ensures ok ==> mac == cmac(input) && |mac| <= cap
      ensures reliable && |cmac(input)| <= cap ==> ok
    {
      var works: bool := *;
      mac := cmac(input);
      ok := (works || reliable) && |mac| <= cap;
    }
  }

  /** compute_binding_tag: hash, key lookup, set-up, update and finish; only a 16-byte tag is accepted. */
  method ComputeBindingTag(pv: Bytes, mac: Mac, reliable: bool) returns (ok: bool, tag: Bytes)
    ensures ok ==> tag == mac.Tag(pv) && |tag| == TAG_LEN
    ensures reliable ==> (ok <==> |mac.Tag(pv)| == TAG_LEN)
    ensures ok ==> tag == mac.cmac(mac.hash(pv)) && |tag| == 16
  {
    ok, tag := false, [];
    var hashed: bool, keyFound: bool, ready: bool := *, *, *;
    if !hashed && !reliable {
      return;
    }
    var digest := mac.hash(pv);
    if !(keyFound && ready) && !reliable {
      return;
    }
    var op := new MacOp(mac.cmac, reliable);
    ok := op.Update(digest);
    if !ok {
      return;
    }
    assert op.input == digest;
    ok, tag := op.Finish(TAG_LEN);
    ok := ok && |tag| == TAG_LEN;
  }

  /** bl1_2_do_image_binding, plain variant. */
  method DoBindingMac(ram: array<byte>, lay: Layout, mac: Mac, flash: Flash, base: nat, reliable: bool)
    returns (ok: bool)
    requires lay.binding && lay.End() <= ram.Length
    requires flash.Valid() && flash.dataWidth == 1 && TagFits(lay, flash, base)
    modifies flash`mem, flash`requests, ram
    ensures flash.Valid() && |flash.mem| == old(|flash.mem|)
    ensures ok ==>
      && base + lay.TagAt() + TAG_LEN <= |flash.mem| && |mac.Tag(lay.Pv(old(ram[..])))| == TAG_LEN
      && flash.mem == Patch(old(flash.mem), base + lay.TagAt(), mac.Tag(lay.Pv(old(ram[..]))))
      && lay.Tag(ram[..]) == mac.Tag(lay.Pv(old(ram[..])))
    ensures SlotFrame(old(flash.mem), flash.mem, base, base + lay.End(), flash.sectorSize)
    ensures SameOutside(old(ram[..]), ram[..], lay.TagAt(), lay.TagAt() + TAG_LEN)
    ensures reliable && flash.reliable && flash.countsItems && flash.sectorSize <= 0x1000
      && base + lay.TagAt() + TAG_LEN <= |flash.mem| && TagAligned(lay, flash, base)
      && |mac.Tag(lay.Pv(old(ram[..])))| == TAG_LEN
      ==> ok
    ensures |mac.Tag(lay.Pv(old(ram[..])))| != TAG_LEN ==> !ok && flash.mem == old(flash.mem)
  {
    var tag;
    ok, tag := ComputeBindingTag(ram[lay.PvAt()..lay.End()], mac, reliable);
    if !ok {
      return false;
    }
    ok := StoreTag(ram, lay, tag, flash, base);
  }

  /** bl1_2_validate_image_binding, plain variant: recompute and compare. */
  method ValidateMac(ram: array<byte>, lay: Layout, mac: Mac, reliable: bool) returns (ok: bool)
    requires lay.binding && lay.End() <= ram.Length
    ensures ok ==> lay.Tag(ram[..]) == mac.Tag(lay.Pv(ram[..]))
    ensures reliable && lay.Tag(ram[..]) == mac.Tag(lay.Pv(ram[..])) ==> ok
  {
    var computed;
    ok, computed := ComputeBindingTag(ram[lay.PvAt()..lay.End()], mac, reliable);
    if ok {
      ok := computed == ram[lay.TagAt()..lay.TagAt() + TAG_LEN];
    }
  }
}
