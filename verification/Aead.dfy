/** AES-CCM behind the PSA multi-part interface, as an abstract contract. */
module Aead {
  import opened Bytes
  import opened ImageLayout

  const BLOCK: nat := 16

  /** CCM under the device's binding key: encryption, decryption and the authentication tag of a plaintext. */
  datatype Ccm = Ccm(seal: (Bytes, Bytes) -> Bytes, open: (Bytes, Bytes) -> Bytes, tag: (Bytes, Bytes) -> Bytes) {
    /**
     * Lengths are kept, decryption inverts encryption, and both work from the front: a prefix of the input fixes
     * that prefix of the output.
     */
    ghost predicate Lawful() {
      && (forall n, p :: |seal(n, p)| == |p|)
      && (forall n, c :: |open(n, c)| == |c|)
      && (forall n, p :: open(n, seal(n, p)) == p)
      && (forall n, p :: |tag(n, p)| == TAG_LEN)
      && (forall n, p, q :: seal(n, p) <= seal(n, p + q))
      && (forall n, p, q :: open(n, p) <= open(n, p + q))
    }

    function Run(encrypting: bool, nonce: Bytes, input: Bytes): Bytes {
      if encrypting then seal(nonce, input) else open(nonce, input)
    }
  }

  lemma RunLength(ccm: Ccm, encrypting: bool, nonce: Bytes, input: Bytes)
    requires ccm.Lawful()
    ensures |ccm.Run(encrypting, nonce, input)| == |input|
  {
  }

  lemma RunPrefix(ccm: Ccm, encrypting: bool, nonce: Bytes, p: Bytes, q: Bytes)
    requires ccm.Lawful()
    ensures ccm.Run(encrypting, nonce, p) <= ccm.Run(encrypting, nonce, p + q)
  {
  }

  /**
   * A multi-part operation: it may hold back output, but never emits more than it was given, and everything
   * it emits is the front of the one-shot result. `plan` names the whole input that will be fed to it.
   */
  class AeadOp {
    const ccm: Ccm
    const encrypting: bool
    const nonce: Bytes
    /** A reliable implementation never fails a legal call and holds back less than one block. */
    const reliable: bool
    ghost const plan: Bytes
    ghost const result: Bytes
    var input: Bytes
    var emitted: nat

    ghost predicate Valid()
      reads this
    {
      && ccm.Lawful()
      && result == ccm.Run(encrypting, nonce, plan) && |result| == |plan|
      && emitted <= |input| <= |plan| && input == plan[..|input|]
      && (reliable ==> |input| - emitted < BLOCK)
    }

    constructor (ccm: Ccm, encrypting: bool, nonce: Bytes, reliable: bool, ghost plan: Bytes)
      requires ccm.Lawful()
      ensures Valid() && input == [] && emitted == 0
      ensures this.ccm == ccm && this.encrypting == encrypting && this.nonce == nonce && this.plan == plan
      ensures this.reliable == reliable
    {
      this.ccm, this.encrypting, this.nonce, this.reliable := ccm, encrypting, nonce, reliable;
      input, emitted := [], 0;
      this.plan, this.result := plan, ccm.Run(encrypting, nonce, plan);
    }

    /** Key lookup, setup, set_lengths and set_nonce; null when any of them fails. */
    static method Start(ccm: Ccm, encrypting: bool, nonce: Bytes, total: nat, reliable: bool, ghost plan: Bytes)
      returns (op: AeadOp?)
      requires ccm.Lawful() && |plan| == total
      ensures op != null ==>
        && fresh(op) && op.Valid() && op.input == [] && op.emitted == 0
        && op.ccm == ccm && op.encrypting == encrypting && op.nonce == nonce && op.plan == plan
          && op.reliable == reliable
      ensures reliable ==> op != null
    {
      var ok: bool := *;
      if ok || reliable {
        op := new AeadOp(ccm, encrypting, nonce, reliable, plan);
      } else {
        op := null;
      }
    }

    /** psa_aead_update with an output buffer of `cap` bytes. */
    method Update(chunk: Bytes, cap: nat) returns (ok: bool, out: Bytes)
      requires Valid()
      requires |input| + |chunk| <= |plan| && chunk == plan[|input|..|input| + |chunk|]
      modifies this
      ensures Valid()
      ensures ok ==>
        && |input| == old(|input|) + |chunk| && |out| <= cap && emitted == old(emitted) + |out|
        && out == result[old(emitted)..emitted]
      ensures reliable && |chunk| <= cap ==> ok
    {
      var all := ccm.Run(encrypting, nonce, input + chunk);
      RunLength(ccm, encrypting, nonce, input + chunk);
      RunPrefix(ccm, encrypting, nonce, input + chunk, plan[|input| + |chunk|..]);
      assert input + chunk == plan[..|input| + |chunk|];
      assert plan[..|input| + |chunk|] + plan[|input| + |chunk|..] == plan;
      var works: bool := *;
      var n: int := *;
      if reliable {
        n := |input| + |chunk| - emitted;
        if n > cap {
          n := cap;
        }
      }
      if 0 <= n <= cap && emitted + n <= |input| + |chunk| && (works || (reliable && |chunk| <= cap))
        && (reliable ==> |input| + |chunk| - emitted - n < BLOCK)
      {
        ok, out := true, all[emitted..emitted + n];
        input, emitted := input + chunk, emitted + n;
      } else {
        ok, out := false, [];
      }
    }

    /** psa_aead_finish: the held-back output and the tag. */
    method Finish(cap: nat) returns (ok: bool, out: Bytes, tag: Bytes)
      requires Valid() && encrypting
      requires |input| == |plan|
      ensures ok ==> |out| <= cap && out == result[emitted..] && tag == ccm.tag(nonce, plan)
      ensures reliable && cap >= BLOCK ==> ok
    {
      assert input == plan;
      var works: bool := *;
      if |input| - emitted <= cap && (works || reliable) {
        ok, out, tag := true, ccm.Run(encrypting, nonce, input)[emitted..], ccm.tag(nonce, input);
      } else {
        ok, out, tag := false, [], [];
      }
    }

    /** psa_aead_verify: the held-back output, if `tag` is the tag of the whole plaintext. */
    method Verify(cap: nat, tag: Bytes) returns (ok: bool, out: Bytes)
      requires Valid() && !encrypting
      requires |input| == |plan|
      ensures ok ==> |out| <= cap && out == result[emitted..] && tag == ccm.tag(nonce, result)
      ensures reliable && cap >= BLOCK && tag == ccm.tag(nonce, result) ==> ok
    {
      assert input == plan;
      var works: bool := *;
      var all := ccm.Run(encrypting, nonce, input);
      if |input| - emitted <= cap && tag == ccm.tag(nonce, all) && (works || reliable) {
        ok, out := true, all[emitted..];
      } else {
        ok, out := false, [];
      }
    }
  }
}
