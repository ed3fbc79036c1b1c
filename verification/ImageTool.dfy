/** The host tool that builds BL2 images (bl1/bl1_2/scripts/create_bl2_img.py, tools/modules/encrypt_data.py). */
module ImageTool {
  import opened Bytes
  import opened Wrappers
  import opened ImageLayout
  import D = ImageDecrypt
  import S = SignaturePolicy
  import P = BootImage

  /** struct.pack of a uint16 and of a uint32, little-endian. */
  function Le16(n: nat): Bytes {
    [(n % 256) as byte, (n / 256 % 256) as byte]
  }

  function Le32(n: nat): Bytes {
    [(n % 256) as byte, (n / 256 % 256) as byte, (n / 256 / 256 % 256) as byte, (n / 256 / 256 / 256 % 256) as byte]
  }

  /** The counter the tool writes is the counter the boot stage reads. */
  lemma Le32RoundTrip(n: nat)
    requires n < 0x1_0000_0000
    ensures D.Le32(Le32(n)) == n
  {
    var a, b, c := n / 256, n / 256 / 256, n / 256 / 256 / 256;
    ByteRoundTrip(n % 256);
    ByteRoundTrip(a % 256);
    ByteRoundTrip(b % 256);
    ByteRoundTrip(c % 256);
    Recompose(n);
  }

  lemma Recompose(n: nat)
    requires n < 0x1_0000_0000
    ensures n % 256 + 0x100 * (n / 256 % 256) + 0x10000 * (n / 256 / 256 % 256)
      + 0x1000000 * (n / 256 / 256 / 256 % 256) == n
  {
  }

  /** What is known of a signer: nothing, or a key and whether its hash is the one the build is configured for. */
  datatype Signer = Absent | Present(hashMatches: bool)

  /**
   * The arguments of create_bl2_img: the signers, the initial value (random in the tool when absent), and the
   * encryption key if it is not to be derived.
   */
  datatype Request = Request(bin: Bytes, major: int, minor: int, revision: int, build: int, counter: int,
                             signers: seq<Signer>, iv: Bytes, rawKey: Option<Bytes>) {
    predicate Signs(i: nat) {
      i < |signers| && signers[i].Present?
    }

    /** The assertion on the hash algorithm holds for the first n signers. */
    predicate HashesMatch(n: nat) {
      forall i: nat | i < n && Signs(i) :: signers[i].hashMatches
    }
  }

  /** What the tool signs with and encrypts with. */
  datatype Host = Host(sign: (nat, Bytes) -> Bytes, cipher: D.Cipher)

  /** The inputs for which no assertion and no struct.pack error stops the tool. */
  predicate Accepted(lay: Layout, keys: S.Keys, req: Request) {
    && |req.bin| <= lay.codeSize
    && 0 <= req.major < 0x100 && 0 <= req.minor < 0x100 && 0 <= req.revision < 0x1_0000
      && 0 <= req.build < 0x1_0000_0000
    && 0 <= req.counter < 0x1_0000_0000
    && req.HashesMatch(keys.signers)
    && (lay.encryption ==> 8 <= |req.iv| <= IV_LEN)
    && lay.End() <= lay.codeSize + lay.headerMax
  }

  function Version(req: Request): (r: Bytes)
    requires 0 <= req.major < 0x100 && 0 <= req.minor < 0x100 && 0 <= req.revision && 0 <= req.build
    ensures |r| == 8
  {
    [req.major as byte, req.minor as byte] + Le16(req.revision) + Le32(req.build)
  }

  /** One byte of major, one of minor, two of revision and four of build number, lowest first. */
  lemma VersionBytes(req: Request)
    requires 0 <= req.major < 0x100 && 0 <= req.minor < 0x100 && 0 <= req.revision < 0x1_0000
    requires 0 <= req.build < 0x1_0000_0000
    ensures var v := Version(req);
      && v[0] as int == req.major && v[1] as int == req.minor
      && v[2] as int + 0x100 * (v[3] as int) == req.revision
      && v[4] as int + 0x100 * (v[5] as int) + 0x10000 * (v[6] as int) + 0x1000000 * (v[7] as int) == req.build
  {
    ByteRoundTrip(req.major);
    ByteRoundTrip(req.minor);
    Le16Value(req.revision);
    var front, back := [req.major as byte, req.minor as byte] + Le16(req.revision), Le32(req.build);
    Le32RoundTrip(req.build);
    assert Version(req) == front + back;
  }

  lemma Le16Value(n: nat)
    requires n < 0x1_0000
    ensures Le16(n)[0] as int + 0x100 * (Le16(n)[1] as int) == n
  {
    var low, high := n % 256, n / 256 % 256;
    ByteRoundTrip(low);
    ByteRoundTrip(high);
    assert low + 0x100 * high == n;
    assert Le16(n) == [low as byte, high as byte];
  }

  /** get_data_to_be_signed: the protected values in the clear, the binary padded with zeros. */
  function SignedPv(lay: Layout, keys: S.Keys, req: Request): (r: Bytes)
    requires Accepted(lay, keys, req)
    ensures |r| == lay.PvLen()
  {
    Version(req) + Le32(req.counter) + (if lay.encryption then D.MAGIC else []) + req.bin
      + Fill(lay.codeSize - |req.bin|, 0)
  }

  function PaddedIv(iv: Bytes): (r: Bytes)
    requires |iv| <= IV_LEN
    ensures |r| == IV_LEN
  {
    iv + Fill(IV_LEN - |iv|, 0)
  }

  /** The signature field of signer `i`: its signature, or zeros if it has no key. */
  function Block(keys: S.Keys, host: Host, req: Request, pv: Bytes, i: nat): Bytes {
    if req.Signs(i) then host.sign(i, pv) else Fill(keys.blockLen, 0)
  }

  function SigArea(keys: S.Keys, host: Host, req: Request, pv: Bytes, n: nat): Bytes {
    if n == 0 then [] else SigArea(keys, host, req, pv, n - 1) + Block(keys, host, req, pv, n - 1)
  }

  ghost predicate SignsLawfully(keys: S.Keys, host: Host) {
    forall i, pv :: |host.sign(i, pv)| == keys.blockLen
  }

  lemma {:induction false} SigAreaLength(keys: S.Keys, host: Host, req: Request, pv: Bytes, n: nat)
    requires SignsLawfully(keys, host)
    ensures |SigArea(keys, host, req, pv, n)| == S.Blocks(n, keys.blockLen)
  {
    if n > 0 {
      SigAreaLength(keys, host, req, pv, n - 1);
    }
  }

  /** Signer `i`'s field is the i-th of equal size. */
  lemma {:induction false} SigAreaAt(keys: S.Keys, host: Host, req: Request, pv: Bytes, n: nat, i: nat, at: nat)
    requires SignsLawfully(keys, host) && i < n && at == S.Blocks(i, keys.blockLen)
    ensures at + keys.blockLen <= |SigArea(keys, host, req, pv, n)|
    ensures SigArea(keys, host, req, pv, n)[at..at + keys.blockLen] == Block(keys, host, req, pv, i)
  {
    if i < n - 1 {
      SigAreaAt(keys, host, req, pv, n - 1, i, at);
      FrontSlice(SigArea(keys, host, req, pv, n - 1), Block(keys, host, req, pv, n - 1), at, keys.blockLen);
    } else {
      SigAreaLength(keys, host, req, pv, i);
      BlockLength(keys, host, req, pv, i);
      BackSlice(SigArea(keys, host, req, pv, i), Block(keys, host, req, pv, i), at);
    }
  }

  lemma BlockLength(keys: S.Keys, host: Host, req: Request, pv: Bytes, i: nat)
    requires SignsLawfully(keys, host)
    ensures |Block(keys, host, req, pv, i)| == keys.blockLen
  {
  }

  lemma FrontSlice(front: Bytes, last: Bytes, at: nat, len: nat)
    requires at + len <= |front|
    ensures (front + last)[at..at + len] == front[at..at + len]
  {
  }

  lemma BackSlice(front: Bytes, last: Bytes, at: nat)
    requires at == |front|
    ensures (front + last)[at..at + |last|] == last
  {
  }

  /** The bytes of the image the tool writes. */
  function Built(lay: Layout, keys: S.Keys, host: Host, req: Request): Bytes
    requires Accepted(lay, keys, req) && host.cipher.Lawful()
  {
    var pv := SignedPv(lay, keys, req);
    (if lay.encryption then PaddedIv(req.iv) else []) + (if lay.binding then Fill(TAG_LEN, 0) else [])
    + SigArea(keys, host, req, pv, keys.signers) + StoredPv(lay, host, req, pv)
  }

  /** The key encrypt_data uses. */
  function Key(host: Host, req: Request): Bytes
    requires req.counter >= 0
  {
    if req.rawKey.Some? then req.rawKey.value else host.cipher.kdf(Le32(req.counter))
  }

  /** The protected values as stored: version and counter in the clear, the rest encrypted. */
  function StoredPv(lay: Layout, host: Host, req: Request, pv: Bytes): (r: Bytes)
    requires |pv| >= 12 && req.counter >= 0 && host.cipher.Lawful() && (lay.encryption ==> |req.iv| <= IV_LEN)
    ensures |r| == |pv|
  {
    if lay.encryption then
      pv[..12] + host.cipher.Ctr(Key(host, req), PaddedIv(req.iv), 0, pv[12..])
    else
      pv
  }

  /** The image object of bl2_image_config, whose fields the tool sets one by one. */
  class ImageObject {
    var iv: Bytes
    var sigs: seq<Bytes>
    var version: Bytes
    var counter: Bytes
    var magic: Bytes
    var data: Bytes

    /** A new object: every field is zero. */
    constructor (lay: Layout, keys: S.Keys)
      ensures Blank(lay, keys)
    {
      iv, sigs := Fill(IV_LEN, 0), seq(keys.signers, _ => Fill(keys.blockLen, 0));
      version, counter, magic, data := Fill(8, 0), Fill(4, 0), Fill(4, 0), Fill(lay.codeSize, 0);
    }

    ghost predicate Blank(lay: Layout, keys: S.Keys)
      reads this
    {
      && iv == Fill(IV_LEN, 0) && sigs == seq(keys.signers, _ => Fill(keys.blockLen, 0))
      && version == Fill(8, 0) && counter == Fill(4, 0) && magic == Fill(4, 0) && data == Fill(lay.codeSize, 0)
    }

    function Pv(lay: Layout): Bytes
      reads this
    {
      version + counter + (if lay.encryption then magic else []) + data
    }

    function ToBytes(lay: Layout): Bytes
      reads this
    {
      (if lay.encryption then iv else []) + (if lay.binding then Fill(TAG_LEN, 0) else []) + Concat(sigs) + Pv(lay)
    }

    /** get_data_to_be_signed. */
    method SetPlain(lay: Layout, keys: S.Keys, req: Request) returns (ok: bool)
      requires Blank(lay, keys)
      modifies this
      ensures ok <==> && |req.bin| <= lay.codeSize
                      && 0 <= req.major < 0x100 && 0 <= req.minor < 0x100 && 0 <= req.revision < 0x1_0000
                      && 0 <= req.build < 0x1_0000_0000 && 0 <= req.counter < 0x1_0000_0000
      ensures ok && Accepted(lay, keys, req) ==> Pv(lay) == SignedPv(lay, keys, req)
      ensures ok ==> counter == Le32(req.counter) && |version| == 8 && |data| == lay.codeSize && |magic| == 4
      ensures iv == old(iv) && sigs == old(sigs)
    {
      if |req.bin| > lay.codeSize {
        return false;
      }
      data := req.bin + data[|req.bin|..];
      assert data == req.bin + Fill(lay.codeSize - |req.bin|, 0);
      if !(0 <= req.major < 0x100 && 0 <= req.minor < 0x100 && 0 <= req.revision < 0x1_0000
        && 0 <= req.build < 0x1_0000_0000) {
        return false;
      }
      version := Version(req);
      if !(0 <= req.counter < 0x1_0000_0000) {
        return false;
      }
      counter := Le32(req.counter);
      if lay.encryption {
        magic := D.MAGIC;
      }
      return true;
    }

    /** The signer loop. */
    method Sign(lay: Layout, keys: S.Keys, host: Host, req: Request) returns (ok: bool)
      requires sigs == seq(keys.signers, _ => Fill(keys.blockLen, 0))
      modifies this`sigs
      ensures ok <==> req.HashesMatch(keys.signers)
      ensures ok ==> Concat(sigs) == SigArea(keys, host, req, Pv(lay), keys.signers)
    {
      var i := 0;
      while i < keys.signers
        invariant 0 <= i <= keys.signers == |sigs| && req.HashesMatch(i)
        invariant forall j | 0 <= j < i :: sigs[j] == Block(keys, host, req, Pv(lay), j)
        invariant forall j | i <= j < keys.signers :: sigs[j] == Fill(keys.blockLen, 0)
      {
        if req.Signs(i) {
          if !req.signers[i].hashMatches {
            return false;
          }
          sigs := sigs[i := host.sign(i, Pv(lay))];
        }
        i := i + 1;
      }
      ok := true;
      ConcatBlocks(keys, host, req, Pv(lay), sigs, keys.signers);
    }

    /** encrypt_data, and the fields it is stored in. */
    method Encrypt(lay: Layout, host: Host, req: Request) returns (ok: bool)
      requires lay.encryption && host.cipher.Lawful() && req.counter >= 0 && iv == Fill(IV_LEN, 0)
      requires counter == Le32(req.counter) && |version| == 8 && |magic| == 4
      modifies this`iv, this`magic, this`data
      ensures ok <==> 8 <= |req.iv| <= IV_LEN
      ensures ok ==> iv == PaddedIv(req.iv) && Pv(lay) == StoredPv(lay, host, req, old(Pv(lay)))
    {
      if |req.iv| < 8 || |req.iv| > IV_LEN {
        return false;
      }
      ghost var pv := Pv(lay);
      var cleartext := magic + data;
      assert pv == (version + counter) + cleartext;
      assert pv[12..] == cleartext && pv[..12] == version + counter;
      var key := if req.rawKey.Some? then req.rawKey.value else host.cipher.kdf(counter);
      var ct := host.cipher.Ctr(key, PaddedIv(req.iv), 0, cleartext);
      iv := req.iv + iv[|req.iv|..];
      magic, data := ct[..4], ct[4..];
      assert iv == PaddedIv(req.iv);
      assert Pv(lay) == (version + counter) + ct;
      return true;
    }

    /** create_bl2_img. */
    method Create(lay: Layout, keys: S.Keys, host: Host, req: Request) returns (out: Option<Bytes>)
      requires Blank(lay, keys) && host.cipher.Lawful()
      modifies this
      ensures out.Some? <==> Accepted(lay, keys, req)
      ensures out.Some? ==> out.value == Built(lay, keys, host, req)
      ensures out.Some? <==>
        && |req.bin| <= lay.codeSize
        && 0 <= req.major < 0x100 && 0 <= req.minor < 0x100 && 0 <= req.revision < 0x1_0000
        && 0 <= req.build < 0x1_0000_0000 && 0 <= req.counter < 0x1_0000_0000
        && (forall i | 0 <= i < keys.signers && i < |req.signers| && req.signers[i].Present? ::
          req.signers[i].hashMatches)
        && (lay.encryption ==> 8 <= |req.iv| <= 16)
        && lay.End() <= lay.codeSize + lay.headerMax
    {
      var ok := SetPlain(lay, keys, req);
      if !ok {
        return None;
      }
      ok := Sign(lay, keys, host, req);
      if !ok {
        return None;
      }
      ghost var pv, area := Pv(lay), Concat(sigs);
      if lay.encryption {
        ok := Encrypt(lay, host, req);
        if !ok {
          return None;
        }
      }
      if lay.End() > lay.codeSize + lay.headerMax {
        return None;
      }
      assert pv == SignedPv(lay, keys, req) && Concat(sigs) == area && Pv(lay) == StoredPv(lay, host, req, pv);
      return Some(ToBytes(lay));
    }
  }

  function Concat(parts: seq<Bytes>): Bytes {
    if parts == [] then [] else Concat(parts[..|parts| - 1]) + parts[|parts| - 1]
  }

  lemma {:induction false} ConcatBlocks(keys: S.Keys, host: Host, req: Request, pv: Bytes, sigs: seq<Bytes>, n: nat)
    requires n == |sigs| && forall j | 0 <= j < n :: sigs[j] == Block(keys, host, req, pv, j)
    ensures Concat(sigs) == SigArea(keys, host, req, pv, n)
  {
    if n > 0 {
      ConcatBlocks(keys, host, req, pv, sigs[..n - 1], n - 1);
    }
  }

  /** Where the tool puts what. */
  lemma BuiltFields(lay: Layout, keys: S.Keys, host: Host, req: Request)
    requires Accepted(lay, keys, req) && host.cipher.Lawful() && SignsLawfully(keys, host) && S.Fits(lay, keys)
    ensures var out, pv := Built(lay, keys, host, req), SignedPv(lay, keys, req);
      && |out| == lay.End()
      && out[lay.PvAt()..lay.End()] == StoredPv(lay, host, req, pv)
      && out[lay.SigsAt()..lay.PvAt()] == SigArea(keys, host, req, pv, keys.signers)
      && (lay.encryption ==> lay.Iv(out) == PaddedIv(req.iv))
      && (lay.binding ==> lay.Tag(out) == Fill(TAG_LEN, 0))
  {
    SigAreaLength(keys, host, req, SignedPv(lay, keys, req), keys.signers);
  }

  /** Decryption undoes what the tool did to the protected values and touches nothing else. */
  lemma DecryptStored(lay: Layout, c: D.Cipher, out: Bytes, stored: Bytes, pv: Bytes, key: Bytes, iv: Bytes)
    requires lay.encryption && |out| == lay.End() && |pv| == lay.PvLen() && c.Lawful()
    requires stored == pv[..12] + c.Ctr(key, iv, 0, pv[12..]) && out[lay.PvAt()..lay.End()] == stored
    requires key == c.kdf(D.CounterBytes(lay, out)) && iv == lay.Iv(out)
    ensures D.Decrypted(lay, c, out) == Patch(out, lay.PvAt(), pv)
  {
    forall i | 0 <= i < lay.PvLen() ensures out[lay.PvAt() + i] == stored[i] {
      assert out[lay.PvAt()..lay.End()][i] == out[lay.PvAt() + i];
    }
    assert out[lay.EncAt()..lay.End()] == stored[12..];
    assert stored[12..] == c.Ctr(key, iv, 0, pv[12..]);
    D.CtrInvolution(c, key, iv, 0, pv[12..]);
    TailPatch(lay, out, pv);
  }

  lemma TailPatch(lay: Layout, out: Bytes, pv: Bytes)
    requires |out| == lay.End() && |pv| == lay.PvLen()
    requires forall i :: 0 <= i < 12 ==> out[lay.PvAt() + i] == pv[i]
    ensures Patch(out, lay.EncAt(), pv[12..]) == Patch(out, lay.PvAt(), pv)
  {
  }

  lemma CounterOf(lay: Layout, out: Bytes, stored: Bytes, counter: Bytes)
    requires lay.End() <= |out| && out[lay.PvAt()..lay.End()] == stored && |counter| == 4
    requires forall i :: 0 <= i < 4 ==> stored[8 + i] == counter[i]
    ensures D.CounterBytes(lay, out) == counter
  {
    forall i | 0 <= i < 4 ensures D.CounterBytes(lay, out)[i] == counter[i] {
      assert D.CounterBytes(lay, out)[i] == out[lay.PvAt()..lay.End()][8 + i];
    }
  }

  /** Bytes 8 to 11 of the protected values are the counter, bytes 12 to 15 the magic. */
  lemma SignedFields(lay: Layout, keys: S.Keys, req: Request)
    requires Accepted(lay, keys, req)
    ensures forall i :: 0 <= i < 4 ==> SignedPv(lay, keys, req)[8 + i] == Le32(req.counter)[i]
    ensures lay.encryption ==> SignedPv(lay, keys, req)[12..16] == D.MAGIC
  {
    var head := Version(req) + Le32(req.counter);
    var rest := (if lay.encryption then D.MAGIC else []) + req.bin + Fill(lay.codeSize - |req.bin|, 0);
    assert SignedPv(lay, keys, req) == head + rest;
  }

  /** Byte by byte: the counter, lowest byte first, the magic, the binary, and zeros up to the configured size. */
  lemma SignedBytes(lay: Layout, keys: S.Keys, req: Request)
    requires Accepted(lay, keys, req)
    ensures var pv, at := SignedPv(lay, keys, req), if lay.encryption then 16 else 12;
      && pv[..8] == Version(req)
      && pv[8] as int + 0x100 * (pv[9] as int) + 0x10000 * (pv[10] as int) + 0x1000000 * (pv[11] as int) == req.counter
      && (lay.encryption ==> pv[12] == 0xEF && pv[13] == 0xBE && pv[14] == 0xAD && pv[15] == 0xDE)
      && |pv| == at + lay.codeSize && pv[at..at + |req.bin|] == req.bin
      && forall k | at + |req.bin| <= k < |pv| :: pv[k] == 0
  {
    var pv, at := SignedPv(lay, keys, req), if lay.encryption then 16 else 12;
    SignedFields(lay, keys, req);
    Le32RoundTrip(req.counter);
    if lay.encryption {
      D.MagicBytes(pv[12..16]);
    }
  }

  /** A short initial value is filled up with zeros behind it. */
  lemma IvBytes(iv: Bytes)
    requires |iv| <= 16
    ensures PaddedIv(iv)[..|iv|] == iv && forall k | |iv| <= k < 16 :: PaddedIv(iv)[k] == 0
  {
  }

  /** Decrypting a built image gives back exactly the bytes that were signed, behind the same header. */
  lemma BuiltDecrypts(lay: Layout, keys: S.Keys, host: Host, req: Request)
    requires Accepted(lay, keys, req) && host.cipher.Lawful() && SignsLawfully(keys, host) && S.Fits(lay, keys)
    requires lay.encryption && Key(host, req) == host.cipher.kdf(Le32(req.counter))
    ensures |Built(lay, keys, host, req)| == lay.End()
    ensures D.Decrypted(lay, host.cipher, Built(lay, keys, host, req))
         == Patch(Built(lay, keys, host, req), lay.PvAt(), SignedPv(lay, keys, req))
    ensures D.Counter(lay, Built(lay, keys, host, req)) == req.counter
  {
    var out, pv, c := Built(lay, keys, host, req), SignedPv(lay, keys, req), host.cipher;
    BuiltFields(lay, keys, host, req);
    var stored := StoredPv(lay, host, req, pv);
    SignedFields(lay, keys, req);
    CounterOf(lay, out, stored, Le32(req.counter));
    Le32RoundTrip(req.counter);
    DecryptStored(lay, c, out, stored, pv, c.kdf(Le32(req.counter)), PaddedIv(req.iv));
  }

  /** Every mandatory signer has a key on the host, and the device can verify what the host signs. */
  ghost predicate KeysMatch(keys: S.Keys, host: Host, req: Request) {
    && (keys.usePolicies ==> forall i: nat | i < keys.signers :: keys.policy(i).Some?)
    && (forall i: nat | i < keys.signers && keys.Mandatory(i) :: req.Signs(i))
    && (forall i: nat, pv | i < keys.signers && keys.Mandatory(i) :: keys.verify(i, pv, host.sign(i, pv)))
  }

  /** The block the device looks at is the block the tool wrote. */
  lemma BuiltBlock(lay: Layout, keys: S.Keys, host: Host, req: Request, pv: Bytes, loaded: Bytes, i: nat)
    requires SignsLawfully(keys, host) && S.Fits(lay, keys) && i < keys.signers && |loaded| == lay.End()
    requires loaded[lay.SigsAt()..lay.PvAt()] == SigArea(keys, host, req, pv, keys.signers)
    ensures S.SigBlock(lay, keys, loaded, i) == Block(keys, host, req, pv, i)
  {
    var at, area, block := S.Blocks(i, keys.blockLen), SigArea(keys, host, req, pv, keys.signers),
      S.SigBlock(lay, keys, loaded, i);
    S.SigBlockAt(lay, keys, loaded, i, at);
    SigAreaAt(keys, host, req, pv, keys.signers, i, at);
    SigBlockIn(lay, keys, loaded, area, block, at);
  }

  lemma BlockVerifies(keys: S.Keys, host: Host, req: Request, pv: Bytes, i: nat)
    requires KeysMatch(keys, host, req) && i < keys.signers
    ensures keys.usePolicies ==> keys.policy(i).Some?
    ensures keys.Mandatory(i) ==> keys.verify(i, pv, Block(keys, host, req, pv, i))
  {
  }

  lemma BuiltSignerPasses(lay: Layout, keys: S.Keys, host: Host, req: Request, pv: Bytes, loaded: Bytes, i: nat)
    requires SignsLawfully(keys, host) && S.Fits(lay, keys) && KeysMatch(keys, host, req) && i < keys.signers
    requires |loaded| == lay.End() && lay.Pv(loaded) == pv
    requires loaded[lay.SigsAt()..lay.PvAt()] == SigArea(keys, host, req, pv, keys.signers)
    ensures S.SignerPasses(lay, keys, loaded, i)
  {
    BuiltBlock(lay, keys, host, req, pv, loaded, i);
    BlockVerifies(keys, host, req, pv, i);
  }

  lemma BuiltPolicyHolds(lay: Layout, keys: S.Keys, host: Host, req: Request, pv: Bytes, loaded: Bytes)
    requires SignsLawfully(keys, host) && S.Fits(lay, keys) && KeysMatch(keys, host, req)
    requires |loaded| == lay.End() && lay.Pv(loaded) == pv
    requires loaded[lay.SigsAt()..lay.PvAt()] == SigArea(keys, host, req, pv, keys.signers)
    ensures S.PolicyHolds(lay, keys, loaded)
  {
    forall i: nat | i < keys.signers ensures S.SignerPasses(lay, keys, loaded, i) {
      BuiltSignerPasses(lay, keys, host, req, pv, loaded, i);
    }
  }

  lemma SigBlockIn(lay: Layout, keys: S.Keys, img: Bytes, area: Bytes, block: Bytes, at: nat)
    requires |img| == lay.End() && at + keys.blockLen <= lay.sigsLen
    requires img[lay.SigsAt()..lay.PvAt()] == area
    requires block == img[lay.SigsAt() + at..lay.SigsAt() + at + keys.blockLen]
    ensures block == area[at..at + keys.blockLen]
  {
    SliceOfSlice(img, lay.SigsAt(), lay.PvAt(), at, keys.blockLen);
  }

  lemma PatchedPv(lay: Layout, out: Bytes, pv: Bytes)
    requires lay.encryption && |out| == lay.End() && |pv| == lay.PvLen()
    ensures var loaded := Patch(out, lay.PvAt(), pv);
      && lay.Pv(loaded) == pv
      && loaded[lay.SigsAt()..lay.PvAt()] == out[lay.SigsAt()..lay.PvAt()]
      && loaded[lay.EncAt()..lay.EncAt() + 4] == pv[12..16]
  {
  }

  /**
   * The whole path from tool to boot: an image the tool accepts, with a counter the device allows and matching
   * keys, is accepted by a fault-free boot, which starts the bytes that were signed.
   */
  lemma BuiltImageBoots(p: P.Platform, nv: nat, host: Host, req: Request)
    requires p.Lawful() && p.cipher == host.cipher && SignsLawfully(p.keys, host)
    requires Accepted(p.lay, p.keys, req) && KeysMatch(p.keys, host, req)
    requires nv <= req.counter
    requires p.lay.encryption ==> req.counter < D.MAX_COUNTER && Key(host, req) == host.cipher.kdf(Le32(req.counter))
    ensures var out, pv := Built(p.lay, p.keys, host, req), SignedPv(p.lay, p.keys, req);
      && |out| == p.lay.End() && p.Acceptable(nv, out) && (p.lay.binding ==> p.Unbound(nv, out))
      && ((p.lay.binding && !p.lay.encryption ==> |p.mac.Tag(pv)| == TAG_LEN) ==> p.Boots(nv, out))
      && p.StartedPv(out) == pv
  {
    var lay, keys, out := p.lay, p.keys, Built(p.lay, p.keys, host, req);
    BuiltFields(lay, keys, host, req);
    var loaded := p.Loaded(out);
    var pv := SignedPv(lay, keys, req);
    SignedFields(lay, keys, req);
    Le32RoundTrip(req.counter);
    if lay.encryption {
      BuiltDecrypts(lay, keys, host, req);
      PatchedPv(lay, out, pv);
    }
    CounterOf(lay, loaded, pv, Le32(req.counter));
    BuiltPolicyHolds(lay, keys, host, req, pv, loaded);
  }
}
