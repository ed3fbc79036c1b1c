/** The ROTPKs, their policies, and the signature check of BL1_2 (bl1/bl1_2/main.c, lines 256-307). */
module SignaturePolicy {
  import opened Bytes
  import opened ImageLayout
  import opened Wrappers
  import D = ImageDecrypt

  datatype KeyPolicy = MightSign | MustSign

  /** The ROTPKs: how many signers, their OTP policies if that option is built in, and signature verification. */
  datatype Keys = Keys(signers: nat, usePolicies: bool, policy: nat -> Option<KeyPolicy>, blockLen: nat,
                       verify: (nat, Bytes, Bytes) -> bool) {
    predicate Mandatory(i: nat) {
      !usePolicies || policy(i) != Some(MightSign)
    }
  }

  ghost predicate Fits(lay: Layout, keys: Keys) {
    Blocks(keys.signers, keys.blockLen) == lay.sigsLen
  }

  /** The length of n signature blocks in a row. */
  function Blocks(n: nat, len: nat): nat {
    if n == 0 then 0 else Blocks(n - 1, len) + len
  }

  lemma {:induction false} BlockInside(i: nat, n: nat, len: nat)
    requires i < n
    ensures Blocks(i, len) + len <= Blocks(n, len)
  {
    if i + 1 < n {
      BlockInside(i, n - 1, len);
    }
  }

  /** The signature field of signer `i`. */
  function SigBlock(lay: Layout, keys: Keys, img: Bytes, i: nat): Bytes
    requires lay.End() <= |img| && Fits(lay, keys) && i < keys.signers
  {
    BlockInside(i, keys.signers, keys.blockLen);
    var at := lay.SigsAt() + Blocks(i, keys.blockLen);
    img[at..at + keys.blockLen]
  }

  lemma SigBlockAt(lay: Layout, keys: Keys, img: Bytes, i: nat, at: nat)
    requires lay.End() <= |img| && Fits(lay, keys) && i < keys.signers && at == Blocks(i, keys.blockLen)
    ensures at + keys.blockLen <= lay.sigsLen
    ensures SigBlock(lay, keys, img, i) == img[lay.SigsAt() + at..lay.SigsAt() + at + keys.blockLen]
  {
    BlockInside(i, keys.signers, keys.blockLen);
  }

  ghost predicate SignerPasses(lay: Layout, keys: Keys, img: Bytes, i: nat)
    requires lay.End() <= |img| && Fits(lay, keys) && i < keys.signers
  {
    && (keys.usePolicies ==> keys.policy(i).Some?)
    && (keys.Mandatory(i) ==> keys.verify(i, lay.Pv(img), SigBlock(lay, keys, img, i)))
  }

  /** Every policy can be read and every signer that is not MIGHT_SIGN has a valid signature in the header. */
  ghost predicate PolicyHolds(lay: Layout, keys: Keys, img: Bytes)
    requires lay.End() <= |img| && Fits(lay, keys)
  {
    forall i: nat | i < keys.signers :: SignerPasses(lay, keys, img, i)
  }

  /** Only the image itself matters, not what lies behind it in the RAM buffer. */
  lemma PolicyPrefix(lay: Layout, keys: Keys, img: Bytes)
    requires lay.End() <= |img| && Fits(lay, keys)
    ensures PolicyHolds(lay, keys, img[..lay.End()]) <==> PolicyHolds(lay, keys, img)
    ensures D.Counter(lay, img[..lay.End()]) == D.Counter(lay, img)
  {
    var cut := img[..lay.End()];
    assert lay.Pv(cut) == lay.Pv(img) && D.CounterBytes(lay, cut) == D.CounterBytes(lay, img);
    forall i: nat | i < keys.signers ensures SignerPasses(lay, keys, cut, i) <==> SignerPasses(lay, keys, img, i) {
      BlockInside(i, keys.signers, keys.blockLen);
      assert SigBlock(lay, keys, cut, i) == SigBlock(lay, keys, img, i);
    }
  }

  /** An image that carries no valid signature passes exactly when no signer is mandatory. */
  lemma UnsignedPassesIff(lay: Layout, keys: Keys, img: Bytes)
    requires lay.End() <= |img| && Fits(lay, keys)
    requires forall i: nat | i < keys.signers :: !keys.verify(i, lay.Pv(img), SigBlock(lay, keys, img, i))
    requires keys.usePolicies ==> forall i: nat | i < keys.signers :: keys.policy(i).Some?
    ensures PolicyHolds(lay, keys, img) <==>
      keys.signers == 0
      || (keys.usePolicies && forall i: nat | i < keys.signers :: keys.policy(i) == Some(MightSign))
  {
    if PolicyHolds(lay, keys, img) {
      forall i: nat | i < keys.signers ensures keys.usePolicies && keys.policy(i) == Some(MightSign) {
        assert SignerPasses(lay, keys, img, i) && !keys.verify(i, lay.Pv(img), SigBlock(lay, keys, img, i));
      }
      assert keys.signers > 0 ==> SignerPasses(lay, keys, img, 0) && keys.usePolicies;
    }
    forall i: nat | i < keys.signers && keys.usePolicies && keys.policy(i) == Some(MightSign)
      ensures SignerPasses(lay, keys, img, i)
    {
    }
  }

  /** Without policies every signer has to verify; with them all have to be readable, and MIGHT_SIGN is let off. */
  lemma PolicyMeans(lay: Layout, keys: Keys, img: Bytes)
    requires lay.End() <= |img| && Fits(lay, keys)
    ensures PolicyHolds(lay, keys, img) <==>
      && (keys.usePolicies ==> forall i: nat | i < keys.signers :: keys.policy(i) != None)
      && (forall i: nat | i < keys.signers && !(keys.usePolicies && keys.policy(i) == Some(MightSign)) ::
        keys.verify(i, lay.Pv(img), SigBlock(lay, keys, img, i)))
  {
    if PolicyHolds(lay, keys, img) {
      forall i: nat | i < keys.signers
        ensures keys.usePolicies ==> keys.policy(i) != None
        ensures !(keys.usePolicies && keys.policy(i) == Some(MightSign)) ==>
          keys.verify(i, lay.Pv(img), SigBlock(lay, keys, img, i))
      {
        assert SignerPasses(lay, keys, img, i);
      }
    }
  }

  lemma {:induction false} BlocksAreProduct(n: nat, len: nat)
    ensures Blocks(n, len) == n * len
  {
    if n > 0 {
      BlocksAreProduct(n - 1, len);
      assert n * len == (n - 1) * len + len;
    }
  }

  /** The signatures lie one behind the other, in the order of the signers. */
  lemma SigBlockBytes(lay: Layout, keys: Keys, img: Bytes, i: nat)
    requires lay.End() <= |img| && Fits(lay, keys) && i < keys.signers
    ensures lay.sigsLen == keys.signers * keys.blockLen && |SigBlock(lay, keys, img, i)| == keys.blockLen
    ensures forall k | 0 <= k < keys.blockLen ::
      0 <= lay.SigsAt() + i * keys.blockLen + k < |img|
      && SigBlock(lay, keys, img, i)[k] == img[lay.SigsAt() + i * keys.blockLen + k]
  {
    BlocksAreProduct(keys.signers, keys.blockLen);
    BlocksAreProduct(i, keys.blockLen);
    SigBlockAt(lay, keys, img, i, Blocks(i, keys.blockLen));
  }

  /** is_image_signature_valid: every signer is tried, MIGHT_SIGN results are ignored. */
  method IsSignatureValid(lay: Layout, keys: Keys, img: Bytes, reliable: bool) returns (ok: bool)
    requires lay.End() <= |img| && Fits(lay, keys)
    ensures ok ==> PolicyHolds(lay, keys, img)
    ensures reliable && PolicyHolds(lay, keys, img) ==> ok
    ensures ok ==> forall i: nat | i < keys.signers && !(keys.usePolicies && keys.policy(i) == Some(MightSign)) ::
      keys.verify(i, lay.Pv(img), SigBlock(lay, keys, img, i))
    ensures reliable && (keys.usePolicies ==> forall i: nat | i < keys.signers :: keys.policy(i) != None)
      && (forall i: nat | i < keys.signers && !(keys.usePolicies && keys.policy(i) == Some(MightSign)) ::
        keys.verify(i, lay.Pv(img), SigBlock(lay, keys, img, i)))
      ==> ok
  {
    PolicyMeans(lay, keys, img);
    var hashed: bool := *;
    if !hashed && !reliable {
      return false;
    }
    var i := 0;
    while i < keys.signers
      invariant 0 <= i <= keys.signers
      invariant forall j: nat | j < i :: SignerPasses(lay, keys, img, j)
    {
      assert PolicyHolds(lay, keys, img) ==> SignerPasses(lay, keys, img, i);
      if keys.usePolicies && keys.policy(i) == None {
        return false;
      }
      var works: bool := *;
      var valid := keys.verify(i, lay.Pv(img), SigBlock(lay, keys, img, i)) && (works || reliable);
      if !(keys.usePolicies && keys.policy(i) == Some(MightSign)) {
        if !valid {
          return false;
        }
      }
      i := i + 1;
    }
    return true;
  }

  lemma SameBlock(lay: Layout, keys: Keys, a: Bytes, b: Bytes, i: nat)
    requires |a| == |b| == lay.End() && Fits(lay, keys) && i < keys.signers
    requires forall k | lay.SigsAt() <= k < |a| :: a[k] == b[k]
    ensures SigBlock(lay, keys, a, i) == SigBlock(lay, keys, b, i)
  {
    var lo, n := SigBlockIsSlice(lay, keys, a, b, i);
    SameSlice(a, b, lay.SigsAt(), lo, n);
  }

  lemma SigBlockIsSlice(lay: Layout, keys: Keys, a: Bytes, b: Bytes, i: nat) returns (lo: nat, n: nat)
    requires |a| == |b| == lay.End() && Fits(lay, keys) && i < keys.signers
    ensures lay.SigsAt() <= lo && lo + n <= lay.PvAt()
    ensures SigBlock(lay, keys, a, i) == a[lo..lo + n] && SigBlock(lay, keys, b, i) == b[lo..lo + n]
  {
    var at := Blocks(i, keys.blockLen);
    SigBlockAt(lay, keys, a, i, at);
    SigBlockAt(lay, keys, b, i, at);
    lo, n := lay.SigsAt() + at, keys.blockLen;
  }

  /** The policy looks only at the signatures and what follows them. */
  lemma SamePolicy(lay: Layout, keys: Keys, a: Bytes, b: Bytes)
    requires |a| == |b| == lay.End() && Fits(lay, keys)
    requires forall k | lay.SigsAt() <= k < |a| :: a[k] == b[k]
    ensures PolicyHolds(lay, keys, a) <==> PolicyHolds(lay, keys, b)
  {
    SameSlice(a, b, lay.SigsAt(), lay.PvAt(), lay.PvLen());
    assert lay.Pv(a) == lay.Pv(b);
    forall i: nat | i < keys.signers ensures SignerPasses(lay, keys, a, i) <==> SignerPasses(lay, keys, b, i) {
      SameBlock(lay, keys, a, b, i);
    }
  }

  lemma SameSlice(a: Bytes, b: Bytes, from: nat, lo: nat, n: nat)
    requires |a| == |b| && from <= lo && lo + n <= |a| && forall i | from <= i < |a| :: a[i] == b[i]
    ensures a[lo..lo + n] == b[lo..lo + n]
  {
  }
}
