/** First-boot decryption of the image (bl1/bl1_2/main.c, lines 331-489) against one-shot CTR. */
module ImageDecrypt {
  import opened Bytes
  import opened FlashDevice
  import opened ImageLayout
  import W = BindWriter
  import B = ImageBinding

  const BLOCK: nat := 16
  const MAX_COUNTER: nat := 1024
  /** TFM_BL1_2_IMAGE_DECRYPT_MAGIC_EXPECTED, 0xDEADBEEF, in memory order. */
  const MAGIC: Bytes := [0xEF, 0xBE, 0xAD, 0xDE]

  /** Key derivation from the security counter, and the cipher applied to the j-th counter block. */
  datatype Cipher = Cipher(kdf: Bytes -> Bytes, block: (Bytes, Bytes, nat) -> Bytes) {
    ghost predicate Lawful() {
      forall key, iv, j :: |block(key, iv, j)| == BLOCK
    }

    /** Byte `i` of the key stream (section 6.5 of NIST SP 800-38A). */
    function KeyByte(key: Bytes, iv: Bytes, i: nat): byte
      requires Lawful()
    {
      block(key, iv, i / BLOCK)[i % BLOCK]
    }

    /** `data` combined with the key stream from byte `from` on; encryption and decryption are the same. */
    function Ctr(key: Bytes, iv: Bytes, from: nat, data: Bytes): (r: Bytes)
      requires Lawful()
      ensures |r| == |data|
    {
      seq(|data|, i requires 0 <= i < |data| => data[i] ^ KeyByte(key, iv, from + i))
    }
  }

  /** CTR is its own inverse. */
  lemma CtrInvolution(c: Cipher, key: Bytes, iv: Bytes, from: nat, data: Bytes)
    requires c.Lawful()
    ensures c.Ctr(key, iv, from, c.Ctr(key, iv, from, data)) == data
  {
    var once := c.Ctr(key, iv, from, data);
    forall i | 0 <= i < |data| ensures c.Ctr(key, iv, from, once)[i] == data[i] {
      XorTwice(data[i], c.KeyByte(key, iv, from + i));
    }
  }

  lemma XorTwice(a: byte, k: byte)
    ensures (a ^ k) ^ k == a
  {
  }

  function Le32(b: Bytes): nat
    requires |b| == 4
  {
    b[0] as nat + 0x100 * (b[1] as nat) + 0x10000 * (b[2] as nat) + 0x1000000 * (b[3] as nat)
  }

  function CounterBytes(lay: Layout, img: Bytes): Bytes
    requires lay.End() <= |img|
  {
    img[lay.CounterAt()..lay.CounterAt() + 4]
  }

  function Counter(lay: Layout, img: Bytes): nat
    requires lay.End() <= |img|
  {
    Le32(CounterBytes(lay, img))
  }

  /** The image with its encrypted part decrypted in one shot. */
  ghost function Decrypted(lay: Layout, c: Cipher, img: Bytes): (r: Bytes)
    requires lay.encryption && lay.End() <= |img| && c.Lawful()
    ensures |r| == |img|
  {
    Patch(img, lay.EncAt(), c.Ctr(c.kdf(CounterBytes(lay, img)), lay.Iv(img), 0, img[lay.EncAt()..lay.End()]))
  }

  ghost predicate HasMagic(lay: Layout, img: Bytes)
    requires lay.encryption && lay.End() <= |img|
  {
    img[lay.EncAt()..lay.EncAt() + 4] == MAGIC
  }

  /** psa_cipher_update on whole blocks: the operation has consumed `pos` bytes so far. */
  class CtrOp {
    const c: Cipher
    const key: Bytes
    const iv: Bytes
    const reliable: bool
    var pos: nat

    constructor (c: Cipher, key: Bytes, iv: Bytes, reliable: bool)
      ensures this.c == c && this.key == key && this.iv == iv && this.reliable == reliable && pos == 0
    {
      this.c, this.key, this.iv, this.reliable, pos := c, key, iv, reliable, 0;
    }

    method Update(data: Bytes) returns (ok: bool, out: Bytes)
      requires c.Lawful() && pos % BLOCK == 0 && |data| % BLOCK == 0
      modifies this
      ensures pos == old(pos) + |data| && |out| == |data|
      ensures ok ==> out == c.Ctr(key, iv, old(pos), data)
      ensures reliable ==> ok
    {
      var works: bool := *;
      ok, out := works || reliable, c.Ctr(key, iv, pos, data);
      pos := pos + |data|;
    }
  }

  /** Splitting the data at a block boundary and padding the tail block with anything gives the one-shot result. */
  lemma AlignedPlusTail(c: Cipher, key: Bytes, iv: Bytes, data: Bytes, k: nat, rest: nat, pad: Bytes)
    requires c.Lawful() && k + rest == |data|
    ensures c.Ctr(key, iv, 0, data[..k]) + c.Ctr(key, iv, k, data[k..] + pad)[..rest] == c.Ctr(key, iv, 0, data)
  {
  }

  /** The same, for the buffer the two parts are written to. */
  lemma TailCompletes(c: Cipher, key: Bytes, iv: Bytes, ram0: Bytes, encAt: nat, enc: Bytes, k: nat, rest: nat,
      text: Bytes, pad: Bytes, out: Bytes, last: Bytes)
    requires c.Lawful() && k + rest == |enc| && encAt + |enc| <= |ram0|
    requires out == c.Ctr(key, iv, 0, enc[..k]) && text == enc[k..|enc|] && last == c.Ctr(key, iv, k, text + pad)
    ensures |out| == k && |last| >= rest
    ensures Patch(Patch(ram0, encAt, out), encAt + k, last[..rest]) == Patch(ram0, encAt, c.Ctr(key, iv, 0, enc))
  {
    assert text == enc[k..];
    AlignedPlusTail(c, key, iv, enc, k, rest, pad);
    var head := last[..rest];
    assert out + head == c.Ctr(key, iv, 0, enc);
    PatchAppend(ram0, encAt, out, head);
  }

  /** Decrypting the front in place leaves the tail's ciphertext where it was. */
  lemma TailUnread(ram0: Bytes, ram: Bytes, encAt: nat, enc: Bytes, out: Bytes, k: nat)
    requires k == |out| <= |enc| && encAt + |enc| <= |ram0|
    requires ram0[encAt..encAt + |enc|] == enc && ram == Patch(ram0, encAt, out)
    ensures ram[encAt + k..encAt + |enc|] == enc[k..|enc|]
  {
    forall i | k <= i < |enc| ensures ram[encAt + i] == enc[i] {
      assert ram0[encAt..encAt + |enc|][i] == ram0[encAt + i];
    }
  }

  /** The bytes to decrypt: in RAM when the image was copied there first, otherwise in memory-mapped flash. */
  method CipherText(ram: array<byte>, encAt: nat, enc: Bytes, lo: nat, hi: nat, inPlace: bool) returns (text: Bytes)
    requires lo <= hi <= |enc| && encAt + |enc| <= ram.Length
    requires inPlace ==> ram[encAt + lo..encAt + hi] == enc[lo..hi]
    ensures text == enc[lo..hi]
  {
    if inPlace {
      text := ram[encAt + lo..encAt + hi];
    } else {
      text := enc[lo..hi];
    }
  }

  /** The padded tail block, once the first `k` bytes are decrypted. */
  method DecryptTail(op: CtrOp, ram: array<byte>, encAt: nat, enc: Bytes, k: nat, inPlace: bool, junk: Bytes,
      ghost ram0: Bytes, ghost out: Bytes)
    returns (ok: bool)
    requires op.c.Lawful() && op.pos == k <= |enc| < k + BLOCK && k % BLOCK == 0
      && encAt + |enc| <= ram.Length == |ram0|
    requires out == op.c.Ctr(op.key, op.iv, 0, enc[..k]) && ram[..] == Patch(ram0, encAt, out)
    requires inPlace ==> ram0[encAt..encAt + |enc|] == enc
    requires |junk| == BLOCK
    modifies op, ram
    ensures ok ==> ram[..] == Patch(ram0, encAt, op.c.Ctr(op.key, op.iv, 0, enc))
    ensures !ok ==> ram[..] == old(ram[..])
    ensures op.reliable ==> ok
  {
    var rest := |enc| - k;
    if inPlace {
      TailUnread(ram0, ram[..], encAt, enc, out, k);
      assert ram[encAt + k..encAt + |enc|] == ram[..][encAt + k..encAt + |enc|];
    }
    var text := CipherText(ram, encAt, enc, k, |enc|, inPlace);
    var last;
    ok, last := op.Update(text + junk[rest..]);
    if ok {
      TailCompletes(op.c, op.key, op.iv, ram0, encAt, enc, k, rest, text, junk[rest..], out, last);
      W.CopyInto(ram, encAt + k, last[..rest]);
    }
  }

  /** The cipher calls of copy_and_decrypt_image; `encAt..encAt + |enc|` of RAM receives the plaintext of `enc`. */
  method DecryptData(op: CtrOp, ram: array<byte>, encAt: nat, enc: Bytes, inPlace: bool, junk: Bytes) returns (ok: bool)
    requires op.c.Lawful() && op.pos == 0 && encAt + |enc| <= ram.Length
    requires inPlace ==> ram[encAt..encAt + |enc|] == enc
    requires |junk| == BLOCK
    modifies op, ram
    ensures ok ==> ram[..] == Patch(old(ram[..]), encAt, op.c.Ctr(op.key, op.iv, 0, enc))
    ensures !ok ==> SameOutside(old(ram[..]), ram[..], encAt, encAt + |enc|)
    ensures op.reliable ==> ok
  {
    ghost var ram0 := ram[..];
    var aligned := |enc| / BLOCK * BLOCK;
    var rest := |enc| - aligned;
    assert inPlace ==> ram[encAt..encAt + aligned] == enc[..aligned];
    var text := CipherText(ram, encAt, enc, 0, aligned, inPlace);
    var out;
    ok, out := op.Update(text);
    if !ok {
      return;
    }
    W.CopyInto(ram, encAt, out);
    if rest == 0 {
      assert enc[..aligned] == enc;
      return;
    }
    ok := DecryptTail(op, ram, encAt, enc, aligned, inPlace, junk, ram0, out);
  }

  /** Only the plain part of the image has to be in RAM before the encrypted part is decrypted into it. */
  lemma DecryptedFrom(lay: Layout, c: Cipher, img: Bytes, ram: Bytes, after: Bytes)
    requires lay.encryption && |img| == lay.End() <= |ram| && c.Lawful()
    requires ram[..lay.EncAt()] == img[..lay.EncAt()]
    requires after == Patch(ram, lay.EncAt(),
      c.Ctr(c.kdf(CounterBytes(lay, ram)), lay.Iv(ram), 0, img[lay.EncAt()..lay.End()]))
    ensures after[..lay.End()] == Decrypted(lay, c, img)
    ensures CounterBytes(lay, ram) == CounterBytes(lay, img)
  {
    PlainPart(lay, img, ram);
  }

  lemma PlainPart(lay: Layout, img: Bytes, ram: Bytes)
    requires lay.encryption && lay.End() <= |img| && lay.End() <= |ram|
    requires ram[..lay.EncAt()] == img[..lay.EncAt()]
    ensures CounterBytes(lay, ram) == CounterBytes(lay, img) && lay.Iv(ram) == lay.Iv(img)
  {
    var a, b := ram[..lay.EncAt()], img[..lay.EncAt()];
    assert CounterBytes(lay, ram) == a[lay.CounterAt()..lay.CounterAt() + 4];
    assert CounterBytes(lay, img) == b[lay.CounterAt()..lay.CounterAt() + 4];
    assert lay.Iv(ram) == a[..IV_LEN] && lay.Iv(img) == b[..IV_LEN];
  }

  /** Brings the image into RAM: whole through the driver, or only its plain part when flash is memory-mapped. */
  method FetchImage(flash: Flash, base: nat, mapped: bool, lay: Layout, ram: array<byte>) returns (ok: bool)
    requires flash.Valid() && flash.dataWidth == 1 && lay.encryption && lay.RawLen() <= ram.Length
    requires mapped ==> base + lay.RawLen() <= |flash.mem|
    modifies flash`requests, ram
    ensures flash.Valid()
    ensures ok ==>
      && base + lay.End() <= |flash.mem|
      && ram[..lay.EncAt()] == flash.mem[base..base + lay.End()][..lay.EncAt()]
    ensures ok && !mapped ==> ram[..lay.End()] == flash.mem[base..base + lay.End()]
    ensures flash.reliable && flash.countsItems && base + lay.End() <= |flash.mem| ==> ok
  {
    if mapped {
      var n := lay.RawLen() - lay.EncLen();
      W.CopyInto(ram, 0, flash.mem[base..base + n]);
      ok := true;
    } else {
      ok := B.CopyToSram(flash, base, lay.End(), ram);
      assert ok ==> ram[..lay.EncAt()] == ram[..lay.End()][..lay.EncAt()];
    }
  }

  /** Counter bound, key derivation, decryption and magic check, once the image was fetched. */
  method DecryptFetched(ram: array<byte>, lay: Layout, c: Cipher, enc: Bytes, inPlace: bool, reliable: bool,
      ghost img: Bytes)
    returns (ok: bool)
    requires lay.encryption && |img| == lay.End() <= ram.Length && c.Lawful()
    requires ram[..lay.EncAt()] == img[..lay.EncAt()] && enc == img[lay.EncAt()..lay.End()]
    requires inPlace ==> ram[lay.EncAt()..lay.EncAt() + |enc|] == enc
    modifies ram
    ensures ok ==>
      && ram[..lay.End()] == Decrypted(lay, c, img) && Counter(lay, img) < MAX_COUNTER
      && HasMagic(lay, Decrypted(lay, c, img))
    ensures reliable && Counter(lay, img) < MAX_COUNTER && HasMagic(lay, Decrypted(lay, c, img)) ==> ok
  {
    ghost var ram1 := ram[..];
    assert ram1[..lay.EncAt()] == ram[..lay.EncAt()];
    PlainPart(lay, img, ram1);
    var counter := ram[lay.CounterAt()..lay.CounterAt() + 4];
    assert counter == CounterBytes(lay, img);
    if Le32(counter) >= MAX_COUNTER {
      return false;
    }
    var works: bool := *;
    if !works && !reliable {
      return false;
    }
    var op := new CtrOp(c, c.kdf(counter), ram[..IV_LEN], reliable);
    var blk := new byte[BLOCK];
    ok := DecryptData(op, ram, lay.EncAt(), enc, inPlace, blk[..]);
    if !ok {
      return;
    }
    DecryptedFrom(lay, c, img, ram1, ram[..]);
    ghost var plain := ram[..lay.End()];
    var magic := ram[lay.EncAt()..lay.EncAt() + 4];
    assert magic == plain[lay.EncAt()..lay.EncAt() + 4];
    return magic == MAGIC;
  }

  /** copy_and_decrypt_image. */
  method CopyAndDecrypt(flash: Flash, base: nat, mapped: bool, lay: Layout, c: Cipher, ram: array<byte>,
      reliable: bool)
    returns (ok: bool)
    requires flash.Valid() && flash.dataWidth == 1 && lay.encryption && lay.RawLen() <= ram.Length && c.Lawful()
    requires mapped ==> base + lay.RawLen() <= |flash.mem|
    modifies flash`requests, ram
    ensures flash.Valid()
    ensures ok ==> base + lay.End() <= |flash.mem| && Decryptable(lay, c, lay.At(flash.mem, base))
    ensures ok ==> ram[..lay.End()] == Decrypted(lay, c, lay.At(flash.mem, base))
    ensures reliable && flash.reliable && flash.countsItems && base + lay.End() <= |flash.mem|
      && Decryptable(lay, c, lay.At(flash.mem, base))
      ==> ok
  {
    ok := FetchImage(flash, base, mapped, lay, ram);
    if !ok {
      return;
    }
    ghost var img := lay.At(flash.mem, base);
    var enc := flash.mem[base + lay.EncAt()..base + lay.End()];
    assert enc == img[lay.EncAt()..lay.End()];
    assert !mapped ==> ram[lay.EncAt()..lay.EncAt() + |enc|] == ram[..lay.End()][lay.EncAt()..];
    ok := DecryptFetched(ram, lay, c, enc, !mapped, reliable, img);
  }

  /** The counter is in range and decryption yields the expected magic. */
  ghost predicate Decryptable(lay: Layout, c: Cipher, img: Bytes)
    requires lay.encryption && lay.End() <= |img| && c.Lawful()
  {
    Counter(lay, img) < MAX_COUNTER && HasMagic(lay, Decrypted(lay, c, img))
  }

  lemma SmallCounter(b: Bytes)
    requires |b| == 4
    ensures Le32(b) < 1024 <==> b[1] as nat < 4 && b[2] as nat == 0 && b[3] as nat == 0
  {
  }

  lemma MagicBytes(b: Bytes)
    requires |b| == 4
    ensures b == MAGIC <==> b[0] == 0xEF && b[1] == 0xBE && b[2] == 0xAD && b[3] == 0xDE
  {
  }

  /** What an image has to hold to be accepted: a counter below 1024, and EF BE AD DE once it is decrypted. */
  lemma DecryptableMeans(lay: Layout, c: Cipher, img: Bytes, plain: Bytes)
    requires lay.encryption && lay.End() <= |img| && c.Lawful() && plain == Decrypted(lay, c, img)
    ensures var at, e := lay.PvAt() + 8, lay.PvAt() + 12;
      Decryptable(lay, c, img) <==>
        && img[at + 1] as nat < 4 && img[at + 2] as nat == 0 && img[at + 3] as nat == 0
        && plain[e] == 0xEF && plain[e + 1] == 0xBE && plain[e + 2] == 0xAD && plain[e + 3] == 0xDE
  {
    SmallCounter(CounterBytes(lay, img));
    MagicBytes(plain[lay.EncAt()..lay.EncAt() + 4]);
  }

  /** What it is decrypted to, byte by byte. */
  lemma DecryptedByte(lay: Layout, c: Cipher, img: Bytes, i: nat)
    requires lay.encryption && lay.End() <= |img| && c.Lawful() && i < |img|
    ensures var at, e := lay.PvAt() + 8, lay.PvAt() + 12;
      Decrypted(lay, c, img)[i] ==
        if e <= i < lay.End() then img[i] ^ c.block(c.kdf(img[at..at + 4]), img[..16], (i - e) / 16)[(i - e) % 16]
        else img[i]
  {
  }
}
