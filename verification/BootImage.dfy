/** What BL1_2 makes of an image, apart from any device: which images a fault-free boot accepts. */
module BootImage {
  import opened Bytes
  import opened ImageLayout
  import opened Aead
  import opened ImageBinding
  import opened SignaturePolicy
  import opened Wrappers
  import D = ImageDecrypt

  /** The build options, keys and algorithms of a device. */
  datatype Platform = Platform(lay: Layout, keys: Keys, ccm: Ccm, mac: Mac, cipher: D.Cipher) {
    ghost predicate Lawful() {
      Fits(lay, keys) && ccm.Lawful() && cipher.Lawful()
    }

    /** The nonce that goes into a tag; the plain variant has none. */
    ghost function TagNonce(img: Bytes): Bytes
      requires lay.End() <= |img|
    {
      if lay.encryption then lay.Nonce(img) else []
    }

    /** The CCM tag an image is bound with. */
    ghost function TagOf(img: Bytes): Bytes
      requires lay.encryption && lay.End() <= |img|
    {
      ccm.tag(lay.Nonce(img), lay.Pv(img))
    }

    /** The header tag is the right one for the protected values. */
    ghost predicate Tagged(img: Bytes)
      requires lay.End() <= |img|
    {
      && lay.binding
      && lay.Tag(img) == if lay.encryption then ccm.tag(lay.Nonce(img), lay.Pv(img)) else mac.Tag(lay.Pv(img))
    }

    /** What a first boot has in RAM once the flash image was copied and, if it is encrypted, decrypted. */
    ghost function Loaded(img: Bytes): (r: Bytes)
      requires lay.End() <= |img| && cipher.Lawful()
      ensures |r| == |img|
    {
      if lay.encryption then D.Decrypted(lay, cipher, img) else img
    }

    /** The image decrypts, its signatures satisfy the policy, and its counter is not below nv. */
    ghost predicate Acceptable(nv: nat, img: Bytes)
      requires lay.End() <= |img| && cipher.Lawful() && Fits(lay, keys)
    {
      && (lay.encryption ==> D.Decryptable(lay, cipher, img))
      && PolicyHolds(lay, keys, Loaded(img))
      && D.Counter(lay, Loaded(img)) >= nv
    }

    /** Binding without encryption: a right tag replaces the signatures, and an unbound image is given one. */
    ghost predicate PlainBoots(nv: nat, img: Bytes)
      requires lay.binding && !lay.encryption && lay.End() <= |img| && Lawful()
    {
      if TagPresent(lay, img) && lay.Tag(img) == mac.Tag(lay.Pv(img)) then D.Counter(lay, img) >= nv
      else Acceptable(nv, img) && (!TagPresent(lay, img) ==> |mac.Tag(lay.Pv(img))| == TAG_LEN)
    }

    /** Binding with encryption, a tag being present. */
    ghost predicate Reopens(nv: nat, img: Bytes)
      requires lay.binding && lay.encryption && lay.End() <= |img| && Lawful()
    {
      CcmAccepts(lay, ccm, img) && D.Counter(lay, Opened(lay, ccm, img)) >= nv
    }

    /** A fault-free boot accepts the flash image. */
    ghost predicate Boots(nv: nat, img: Bytes)
      requires lay.End() <= |img| && Lawful()
    {
      if !lay.binding then Acceptable(nv, img)
      else if !lay.encryption then PlainBoots(nv, img)
      else if TagPresent(lay, img) then Reopens(nv, img) else Acceptable(nv, img)
    }

    /** What decides a boot, for each variant, with and without a tag. */
    lemma BootsMeans(nv: nat, img: Bytes)
      requires lay.End() <= |img| && Lawful()
      ensures Acceptable(nv, img) <==>
        && (lay.encryption ==> D.Decryptable(lay, cipher, img))
        && (var loaded := if lay.encryption then D.Decrypted(lay, cipher, img) else img;
          PolicyHolds(lay, keys, loaded) && D.Counter(lay, loaded) >= nv)
      ensures !lay.binding ==> (Boots(nv, img) <==> Acceptable(nv, img))
      ensures lay.binding && lay.encryption && TagPresent(lay, img) ==>
        (Boots(nv, img) <==>
          && lay.Tag(img) == ccm.tag(lay.Nonce(img), ccm.open(lay.Nonce(img), lay.Pv(img)))
          && D.Counter(lay, Opened(lay, ccm, img)) >= nv)
      ensures lay.binding && !lay.encryption && TagPresent(lay, img) ==>
        (Boots(nv, img) <==>
          && D.Counter(lay, img) >= nv
          && (lay.Tag(img) == mac.cmac(mac.hash(lay.Pv(img))) || PolicyHolds(lay, keys, img)))
      ensures lay.binding && lay.encryption && !TagPresent(lay, img) ==> (Boots(nv, img) <==> Acceptable(nv, img))
      ensures lay.binding && !lay.encryption && !TagPresent(lay, img) ==>
        (Boots(nv, img) <==>
          && D.Counter(lay, img) >= nv && PolicyHolds(lay, keys, img) && |mac.cmac(mac.hash(lay.Pv(img)))| == 16)
    {
    }

    /** The protected values that are started when it does. */
    ghost function StartedPv(img: Bytes): Bytes
      requires lay.End() <= |img| && Lawful()
    {
      if lay.binding && lay.encryption && TagPresent(lay, img) then lay.Pv(Opened(lay, ccm, img))
      else lay.Pv(Loaded(img))
    }

    /** An acceptable image that is not bound yet, as the host tool builds it. */
    ghost predicate Unbound(nv: nat, img: Bytes)
      requires lay.binding && lay.End() <= |img| && cipher.Lawful() && Fits(lay, keys)
    {
      !TagPresent(lay, img) && Acceptable(nv, img)
    }

    /** What a slot that held an unbound image holds once that image is bound. */
    ghost function BoundSlot(mem: Bytes, base: nat): (r: Bytes)
      requires lay.binding && lay.encryption && Lawful() && base + lay.End() <= |mem|
      ensures |r| == lay.End()
    {
      lay.At(BoundFlash(lay, ccm, mem, base, Loaded(lay.At(mem, base))), base)
    }

    /** What a fault-free boot that accepts the slot leaves in flash: only a first boot with binding writes. */
    ghost function FlashAfter(mem: Bytes, base: nat): (r: Bytes)
      requires Lawful() && base + lay.End() <= |mem|
      ensures |r| == |mem|
    {
      var img := lay.At(mem, base);
      if !lay.binding || TagPresent(lay, img) then mem
      else if lay.encryption then BoundFlash(lay, ccm, mem, base, Loaded(img))
      else if |mac.Tag(lay.Pv(img))| == TAG_LEN then Patch(mem, base + lay.TagAt(), mac.Tag(lay.Pv(img)))
      else mem
    }

    /** A slot that boots and that, if it is about to be bound with a CCM tag, gets one that is not all zero. */
    ghost predicate Lasting(nv: nat, mem: Bytes, base: nat)
      requires Lawful() && base + lay.End() <= |mem|
    {
      && Boots(nv, lay.At(mem, base))
      && (lay.binding && lay.encryption ==> TagPresent(lay, lay.At(FlashAfter(mem, base), base)))
    }

    lemma LastingMeans(nv: nat, mem: Bytes, base: nat)
      requires lay.binding && lay.encryption && Lawful() && base + lay.End() <= |mem|
      ensures var img, loaded := lay.At(mem, base), Loaded(lay.At(mem, base));
        Lasting(nv, mem, base) <==>
          && Boots(nv, img)
          && ((exists k :: 0 <= k < 16 && lay.Tag(img)[k] != 0)
              || (exists k :: 0 <= k < 16 && ccm.tag(lay.Nonce(loaded), lay.Pv(loaded))[k] != 0))
    {
      var img := lay.At(mem, base);
      TagPresentIff(lay, img);
      if !TagPresent(lay, img) {
        BoundSlotReopens(lay, ccm, cipher, mem, base);
        TagPresentIff(lay, BoundSlot(mem, base));
      }
    }

    /** Such a slot is still one after it was booted, starts the same again, and is not written any more. */
    lemma BootsOn(nv: nat, mem: Bytes, base: nat)
      requires Lawful() && base + lay.End() <= |mem| && Lasting(nv, mem, base)
      ensures var after := FlashAfter(mem, base);
        && Lasting(nv, after, base) && FlashAfter(after, base) == after
        && StartedPv(lay.At(after, base)) == StartedPv(lay.At(mem, base))
    {
      var img := lay.At(mem, base);
      if lay.binding && !TagPresent(lay, img) {
        if lay.encryption {
          SecondVerdict(nv, mem, base);
        } else {
          var tag := mac.Tag(lay.Pv(img));
          SecondPlainVerdict(nv, mem, base, img, tag);
          PatchedSlot(lay, mem, base, tag);
          TaggedFields(lay, img, tag);
          PatchTwice(mem, base + lay.TagAt(), tag);
        }
      }
    }

    /** Whether the next boot accepts a slot that was just bound. */
    lemma SecondVerdict(nv: nat, mem: Bytes, base: nat)
      requires lay.binding && lay.encryption && Lawful() && base + lay.End() <= |mem|
      requires Unbound(nv, lay.At(mem, base))
      ensures var slot := BoundSlot(mem, base);
        && (Boots(nv, slot) <==> TagPresent(lay, slot) || Acceptable(nv, slot))
        && lay.Tag(slot) == TagOf(Loaded(lay.At(mem, base)))
        && (TagPresent(lay, slot) ==> StartedPv(slot) == lay.Pv(Loaded(lay.At(mem, base))))
    {
      BoundSlotReopens(lay, ccm, cipher, mem, base);
    }

    lemma SecondPlainVerdict(nv: nat, mem: Bytes, base: nat, img: Bytes, tag: Bytes)
      requires lay.binding && !lay.encryption && Lawful() && base + lay.End() <= |mem|
      requires img == lay.At(mem, base) && Acceptable(nv, img) && tag == mac.Tag(lay.Pv(img)) && |tag| == TAG_LEN
      ensures var slot := lay.At(Patch(mem, base + lay.TagAt(), tag), base);
        Boots(nv, slot) && StartedPv(slot) == lay.Pv(img)
    {
      PatchedSlot(lay, mem, base, tag);
      StillBootable(nv, img, tag);
    }

    /** An acceptable image stays bootable when its own tag is put in. */
    lemma StillBootable(nv: nat, img: Bytes, tag: Bytes)
      requires lay.binding && !lay.encryption && |img| == lay.End() && Lawful()
      requires Acceptable(nv, img) && tag == mac.Tag(lay.Pv(img)) && |tag| == TAG_LEN
      ensures PlainBoots(nv, Patch(img, lay.TagAt(), tag))
      ensures lay.Pv(Patch(img, lay.TagAt(), tag)) == lay.Pv(img)
    {
      TaggedFields(lay, img, tag);
      SamePolicy(lay, keys, img, Patch(img, lay.TagAt(), tag));
    }
  }

  /** The counter is part of the protected values. */
  lemma CounterInPv(lay: Layout, a: Bytes, b: Bytes)
    requires lay.End() <= |a| && lay.End() <= |b| && lay.Pv(a) == lay.Pv(b)
    ensures D.Counter(lay, a) == D.Counter(lay, b)
  {
    forall i | 0 <= i < 4 ensures D.CounterBytes(lay, a)[i] == D.CounterBytes(lay, b)[i] {
      assert D.CounterBytes(lay, a)[i] == lay.Pv(a)[8 + i];
      assert D.CounterBytes(lay, b)[i] == lay.Pv(b)[8 + i];
    }
    assert D.CounterBytes(lay, a) == D.CounterBytes(lay, b);
  }

  /** Only the image itself matters for the tag, the protected values and the counter. */
  lemma PlainPrefix(lay: Layout, img: Bytes)
    requires lay.binding && lay.End() <= |img|
    ensures var cut := img[..lay.End()];
      lay.Tag(cut) == lay.Tag(img) && lay.Pv(cut) == lay.Pv(img) && D.Counter(lay, cut) == D.Counter(lay, img)
  {
    var cut := img[..lay.End()];
    assert lay.Pv(cut) == lay.Pv(img);
    CounterInPv(lay, cut, img);
  }

  lemma PatchTwice(s: Bytes, at: nat, p: Bytes)
    requires at + |p| <= |s|
    ensures Patch(Patch(s, at, p), at, p) == Patch(s, at, p)
  {
  }

  lemma PvPrefix(lay: Layout, img: Bytes)
    requires lay.End() <= |img|
    ensures lay.Pv(img[..lay.End()]) == lay.Pv(img)
  {
  }

  /** The slot after a tag was stored is the slot before with the tag put in. */
  lemma PatchedSlot(lay: Layout, mem: Bytes, base: nat, tag: Bytes)
    requires lay.binding && base + lay.End() <= |mem| && |tag| == TAG_LEN
    ensures lay.At(Patch(mem, base + lay.TagAt(), tag), base) == Patch(lay.At(mem, base), lay.TagAt(), tag)
  {
  }

  lemma TaggedFields(lay: Layout, img: Bytes, tag: Bytes)
    requires lay.binding && |img| == lay.End() && |tag| == TAG_LEN
    ensures var after := Patch(img, lay.TagAt(), tag);
      lay.Pv(after) == lay.Pv(img) && lay.Tag(after) == tag && D.Counter(lay, after) == D.Counter(lay, img)
  {
    var after := Patch(img, lay.TagAt(), tag);
    SameSlice(img, after, lay.SigsAt(), lay.PvAt(), lay.PvLen());
    PatchSlice(img, lay.TagAt(), tag);
    CounterInPv(lay, after, img);
  }

  /** A header copied from flash shows the tag that is in flash. */
  lemma HeaderTag(lay: Layout, ram: Bytes, mem: Bytes, base: nat)
    requires lay.binding && lay.End() <= |ram| && base + lay.End() <= |mem|
    requires ram[..lay.PvAt()] == mem[base..base + lay.PvAt()]
    ensures lay.Tag(ram) == lay.Tag(lay.At(mem, base))
  {
    SliceOfSlice(ram, 0, lay.PvAt(), lay.TagAt(), TAG_LEN);
    SliceOfSlice(mem, base, base + lay.PvAt(), lay.TagAt(), TAG_LEN);
    SliceOfSlice(mem, base, base + lay.End(), lay.TagAt(), TAG_LEN);
  }

  /** What a first boot leaves in flash passes the checks of the next boot. */
  lemma BoundSlotReopens(lay: Layout, ccm: Ccm, cipher: D.Cipher, mem: Bytes, base: nat)
    requires lay.binding && lay.encryption && base + lay.End() <= |mem| && ccm.Lawful() && cipher.Lawful()
    ensures var loaded := D.Decrypted(lay, cipher, lay.At(mem, base));
      var back := lay.At(BoundFlash(lay, ccm, mem, base, loaded), base);
      && CcmAccepts(lay, ccm, back)
      && lay.Tag(back) == ccm.tag(lay.Nonce(loaded), lay.Pv(loaded))
      && lay.Pv(Opened(lay, ccm, back)) == lay.Pv(loaded)
      && D.Counter(lay, Opened(lay, ccm, back)) == D.Counter(lay, loaded)
  {
    var loaded := D.Decrypted(lay, cipher, lay.At(mem, base));
    assert lay.Nonce(loaded) == mem[base..base + NONCE_LEN];
    BoundImageOpens(lay, ccm, mem, base, loaded);
    var back := lay.At(BoundFlash(lay, ccm, mem, base, loaded), base);
    CounterInPv(lay, Opened(lay, ccm, back), loaded);
  }

  lemma BoundPrefix(lay: Layout, ccm: Ccm, mem: Bytes, base: nat, img: Bytes)
    requires lay.binding && lay.encryption && lay.End() <= |img| && base + lay.End() <= |mem| && ccm.Lawful()
    ensures BoundFlash(lay, ccm, mem, base, img) == BoundFlash(lay, ccm, mem, base, img[..lay.End()])
    ensures lay.Pv(img) == lay.Pv(img[..lay.End()])
  {
    var cut := img[..lay.End()];
    assert lay.Pv(cut) == lay.Pv(img) && lay.Nonce(cut) == lay.Nonce(img);
  }

  lemma OpenedPrefix(lay: Layout, ccm: Ccm, img: Bytes)
    requires lay.binding && lay.encryption && lay.End() <= |img| && ccm.Lawful()
    ensures var cut := img[..lay.End()];
      && (CcmAccepts(lay, ccm, cut) <==> CcmAccepts(lay, ccm, img))
      && lay.Pv(Opened(lay, ccm, cut)) == lay.Pv(Opened(lay, ccm, img))
      && D.Counter(lay, Opened(lay, ccm, cut)) == D.Counter(lay, Opened(lay, ccm, img))
  {
    var cut := img[..lay.End()];
    CcmPrefix(lay, ccm, img);
    CounterInPv(lay, Opened(lay, ccm, cut), Opened(lay, ccm, img));
  }

  /** Changing only the header tag changes neither the protected values nor the counter. */
  lemma HeaderOnly(lay: Layout, before: Bytes, after: Bytes)
    requires lay.End() <= |before| && lay.binding
    requires SameOutside(before, after, lay.TagAt(), lay.TagAt() + TAG_LEN)
    ensures lay.Pv(after) == lay.Pv(before) && D.Counter(lay, after) == D.Counter(lay, before)
    ensures lay.encryption ==> lay.Nonce(after) == lay.Nonce(before)
  {
    assert D.CounterBytes(lay, after) == D.CounterBytes(lay, before);
  }

  // A CCM tag that is all zero

  /** One signer, a CCM that keeps its input and whose tags are all zero, and a key stream of ones. */
  function ZeroTagPlatform(): Platform {
    Platform(Layout(true, true, 1, 1, 0), Keys(1, false, i => None, 1, (i, pv, sig) => true),
             Ccm((n, p) => p, (n, c) => c, (n, p) => Fill(TAG_LEN, 0)), Mac(x => x, x => x),
             D.Cipher(x => x, (key, iv, j) => Fill(D.BLOCK, 1)))
  }

  /** Zeros, and a one-byte program encrypted behind the magic. */
  function ZeroTagImage(): Bytes {
    Fill(45, 0) + Flipped(D.MAGIC + [0])
  }

  function Flipped(b: Bytes): (r: Bytes)
    ensures |r| == |b|
    ensures forall i | 0 <= i < |b| :: r[i] == b[i] ^ 1
  {
    seq(|b|, i requires 0 <= i < |b| => b[i] ^ 1)
  }

  lemma FlipsData(key: Bytes, iv: Bytes, data: Bytes)
    ensures ZeroTagPlatform().cipher.Lawful()
    ensures ZeroTagPlatform().cipher.Ctr(key, iv, 0, data) == Flipped(data)
  {
  }

  /** Decryption of an image of that platform flips the low bit of its last five bytes. */
  lemma FlipsImage(img: Bytes)
    requires |img| == 50
    ensures var p := ZeroTagPlatform();
      p.lay.End() == 50 && p.Lawful() && D.Decrypted(p.lay, p.cipher, img) == img[..45] + Flipped(img[45..])
  {
    var p := ZeroTagPlatform();
    assert Blocks(1, 1) == Blocks(0, 1) + 1;
    FlipsData(p.cipher.kdf(D.CounterBytes(p.lay, img)), p.lay.Iv(img), img[45..50]);
    assert img[45..] == img[45..50];
  }

  lemma ZeroTagImageIsUnbound()
    ensures var p, img := ZeroTagPlatform(), ZeroTagImage();
      p.Lawful() && |img| == p.lay.End() == 50 && p.Unbound(0, img)
      && p.Loaded(img)[45] == D.MAGIC[0]
  {
    var p, img := ZeroTagPlatform(), ZeroTagImage();
    FlipsImage(img);
    var loaded := p.Loaded(img);
    assert img[45..] == Flipped(D.MAGIC + [0]);
    assert loaded[45..49] == D.MAGIC by {
      forall i | 0 <= i < 4 ensures loaded[45 + i] == D.MAGIC[i] {
        D.XorTwice(D.MAGIC[i], 1);
      }
    }
    assert D.CounterBytes(p.lay, img) == Fill(4, 0);
    assert p.lay.Tag(img) == Fill(TAG_LEN, 0);
    assert loaded[45..49][0] == loaded[45];
  }

  /** The image boots, is bound with a tag of zeros, and the next boot takes it for an unbound one and rejects it. */
  lemma ZeroTagStopsSecondBoot(mem: Bytes)
    requires |mem| >= 50 && mem[0..50] == ZeroTagImage()
    ensures var p, img := ZeroTagPlatform(), ZeroTagImage();
      && p.Lawful() && |img| == p.lay.End() && p.lay.At(mem, 0) == img && p.Unbound(0, img)
      && !p.Boots(0, p.BoundSlot(mem, 0))
  {
    ZeroTagImageIsUnbound();
    var p, img := ZeroTagPlatform(), ZeroTagImage();
    assert p.lay.At(mem, 0) == img;
    var slot := p.BoundSlot(mem, 0);
    ZeroTagSlot(mem, p.Loaded(img), slot);
    FlipsImage(slot);
    assert p.Loaded(slot)[45..49][0] == D.MAGIC[0] ^ 1;
  }

  /** That platform binds an image by storing its protected values in clear behind a tag of zeros. */
  lemma ZeroTagSlot(mem: Bytes, loaded: Bytes, slot: Bytes)
    requires |mem| >= 50 && |loaded| == 50 && ZeroTagPlatform().Lawful() && ZeroTagPlatform().lay.End() == 50
    requires slot == BoundFlash(ZeroTagPlatform().lay, ZeroTagPlatform().ccm, mem, 0, loaded)[0..50]
    ensures slot[45] == loaded[45] && ZeroTagPlatform().lay.Tag(slot) == Fill(TAG_LEN, 0)
  {
    var p := ZeroTagPlatform();
    assert p.lay.Pv(loaded)[12] == loaded[45];
    forall i | 0 <= i < TAG_LEN ensures p.lay.Tag(slot)[i] == 0 {
      assert p.lay.Tag(slot)[i] == slot[16 + i];
    }
  }

  // The length of the copy

  /**
   * Copying len bytes puts the image into RAM, whatever RAM held before, exactly if len reaches the image's end.
   * copy_image copies BL2_CODE_SIZE + BL2_HEADER_SIZE bytes of memory-mapped flash.
   */
  lemma CopyWholeIff(lay: Layout, len: nat)
    ensures (forall ram: Bytes, img: Bytes | |ram| == |img| && lay.End() <= |img| && len <= |img| ::
        Patch(ram, 0, img[..len])[..lay.End()] == img[..lay.End()])
      <==> len >= lay.End()
  {
    if len < lay.End() {
      var ram, img := Fill(lay.End(), 1), Fill(lay.End(), 0);
      assert Patch(ram, 0, img[..len])[..lay.End()][len] == 1;
    }
  }

  /**
   * With default sizes, one 1452-byte signature and a header of 0x400 or 0 bytes, and BL2_CODE_SIZE the size of the
   * image's data, the copy is always too short.
   */
  lemma DefaultCopyIsShort(encryption: bool, binding: bool, codeSize: nat, headerMax: nat, bl2HeaderSize: nat)
    requires bl2HeaderSize == 0x400 || bl2HeaderSize == 0
    ensures codeSize + bl2HeaderSize < Layout(encryption, binding, 1452 + 4, codeSize, headerMax).End()
  {
  }
}
