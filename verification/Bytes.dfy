/** Byte strings and the one operation every storage component is specified by: overwriting a slice. */
module Bytes {
  type byte = bv8
  type Bytes = seq<byte>

  /** `s` with the bytes from `at` on replaced by `p`; everything else is kept. */
  function Patch(s: Bytes, at: nat, p: Bytes): (r: Bytes)
    requires at + |p| <= |s|
    ensures |r| == |s|
    ensures forall i :: 0 <= i < |s| ==> r[i] == if at <= i < at + |p| then p[i - at] else s[i]
  {
    seq(|s|, i requires 0 <= i < |s| => if at <= i < at + |p| then p[i - at] else s[i])
  }

  function Fill(n: nat, b: byte): (r: Bytes)
    ensures |r| == n
    ensures forall i :: 0 <= i < n ==> r[i] == b
  {
    seq(n, _ => b)
  }

  /** `new` differs from `old` at most inside [lo, hi). */
  ghost predicate SameOutside(old_: Bytes, new_: Bytes, lo: int, hi: int) {
    && |old_| == |new_|
    && forall i :: 0 <= i < |old_| && !(lo <= i < hi) ==> new_[i] == old_[i]
  }

  /** Such a change keeps every byte before and behind the range. */
  lemma OutsideKept(old_: Bytes, new_: Bytes, lo: nat, hi: nat)
    requires SameOutside(old_, new_, lo, hi) && lo <= hi <= |old_|
    ensures |new_| == |old_| && new_[..lo] == old_[..lo] && new_[hi..] == old_[hi..]
  {
  }

  /** Two adjacent overwrites are one overwrite of the concatenation. */
  lemma PatchAppend(s: Bytes, at: nat, p: Bytes, q: Bytes)
    requires at + |p| + |q| <= |s|
    ensures Patch(Patch(s, at, p), at + |p|, q) == Patch(s, at, p + q)
  {
  }

  lemma FillAppend(s: Bytes, at: nat, n: nat, more: nat, b: byte)
    requires at + n + more <= |s|
    ensures Patch(Patch(s, at, Fill(n, b)), at + n, Fill(more, b)) == Patch(s, at, Fill(n + more, b))
  {
  }

  /** The first `n` bytes of `buf` are those of `s` from `at` on. */
  ghost predicate Held(s: Bytes, at: nat, buf: Bytes, n: nat) {
    n <= |buf| && at + n <= |s| && forall i :: 0 <= i < n ==> buf[i] == s[at + i]
  }

  lemma PatchSlice(s: Bytes, at: nat, p: Bytes)
    requires at + |p| <= |s|
    ensures Patch(s, at, p)[at..at + |p|] == p
  {
  }

  /** Overwriting a slice with its own contents changes nothing. */
  lemma PatchSelf(s: Bytes, at: nat, n: nat)
    requires at + n <= |s|
    ensures Patch(s, at, s[at..at + n]) == s
  {
  }

  lemma SliceOfSlice(s: Bytes, lo: nat, hi: nat, at: nat, len: nat)
    requires lo + at + len <= hi <= |s|
    ensures s[lo..hi][at..at + len] == s[lo + at..lo + at + len]
  {
    var outer := s[lo..hi];
    var x, y := outer[at..at + len], s[lo + at..lo + at + len];
    forall j | 0 <= j < len ensures x[j] == y[j] {
      assert outer[at + j] == s[lo + at + j];
    }
  }

  /** Greatest multiple of `a` not above `v`; the source masks with `a - 1`, `a` being a power of two. */
  function AlignDown(v: nat, a: nat): (r: nat)
    requires a > 0
    ensures r <= v < r + a
    ensures r % a == 0
  {
    DownMultiple(v, a);
    v - v % a
  }

  lemma DownMultiple(v: nat, a: nat)
    requires a > 0
    ensures 0 <= v % a <= v && v % a < a && (v - v % a) % a == 0
  {
    Parts(v, v / a, v % a, a);
    MulMod(v / a, a);
  }

  lemma Parts(v: nat, q: nat, r: nat, a: nat)
    requires a > 0 && q == v / a && r == v % a
    ensures v - r == q * a && r <= v
  {
  }

  /** Least multiple of `a` not below `v`. */
  function AlignUp(v: nat, a: nat): (r: nat)
    requires a > 0
    ensures v <= r < v + a
    ensures r % a == 0
  {
    AlignDown(v + a - 1, a)
  }

  lemma MulMod(k: int, a: int)
    requires a > 0
    ensures (k * a) % a == 0
  {
    ModUnique(k * a, a, k, 0);
  }

  /** Quotient and remainder are unique. */
  lemma ModUnique(v: int, a: int, q: int, r: int)
    requires a > 0
    requires v == q * a + r && 0 <= r < a
    ensures v / a == q && v % a == r
  {
    var d := v / a - q;
    assert d * a == r - v % a by { assert v == (v / a) * a + v % a; assert (v / a) * a - q * a == d * a; }
    MulBound(d, a);
  }

  lemma MulBound(d: int, a: int)
    requires a > 0
    ensures d >= 1 ==> d * a >= a
    ensures d <= -1 ==> d * a <= -a
  {
  }

  lemma AddMultiple(v: int, a: int, k: int)
    requires a > 0
    ensures (v + k * a) % a == v % a
    ensures (v + k * a) / a == v / a + k
  {
    assert v + k * a == (v / a + k) * a + v % a;
    ModUnique(v + k * a, a, v / a + k, v % a);
  }

  /** Sums and differences of multiples are multiples. */
  lemma ModAdd(x: int, y: int, a: int)
    requires a > 0 && y % a == 0
    ensures (x + y) % a == x % a
    ensures (x - y) % a == x % a
  {
    AddMultiple(x, a, y / a);
    AddMultiple(x, a, -(y / a));
    assert y == (y / a) * a;
    assert -(y / a) * a == -y;
  }

  /** A positive multiple of `a` is at least `a`. */
  lemma PositiveMultiple(x: int, a: int)
    requires a > 0 && x > 0 && x % a == 0
    ensures x >= a
  {
    if x < a { ModUnique(x, a, 0, x); }
  }

  /** There is only one multiple of `a` in a window of width `a`. */
  lemma AlignUnique(v: int, a: int, r: int)
    requires a > 0 && r % a == 0 && r <= v < r + a
    ensures v - v % a == r
  {
    ModAdd(v - r, r, a);
    ModUnique(v - r, a, 0, v - r);
  }

  /** A divisor of a divisor divides. */
  lemma ModTrans(x: int, b: int, a: int)
    requires a > 0 && b > 0 && b % a == 0 && x % b == 0
    ensures x % a == 0
  {
    assert x == (x / b) * b && b == (b / a) * a;
    assert x == ((x / b) * (b / a)) * a;
    MulMod((x / b) * (b / a), a);
  }

  // Conversion of small numbers to bytes

  lemma ByteSuccessor(b: byte)
    requires b < 255
    ensures (b + 1) as nat == b as nat + 1
  {
  }

  lemma ByteMaximum(b: byte)
    ensures b == 255 <==> b as nat == 255
  {
  }

  lemma {:induction false} ByteOf(n: nat) returns (b: byte)
    requires n < 256
    ensures b as nat == n
  {
    b := 0;
    if n > 0 {
      b := ByteOf(n - 1);
      ByteMaximum(b);
      ByteSuccessor(b);
      b := b + 1;
    }
  }

  lemma ByteRoundTrip(n: nat)
    requires n < 256
    ensures (n as byte) as nat == n
  {
    var b := ByteOf(n);
  }
}
