/** The C run-time's memcpy and memset (secure_fw/shared/crt_memcpy.c, secure_fw/shared/crt_memset.c). */
module CrtMem {
  import opened Bytes

  // 32-bit words in little-endian memory

  function Lane(w: bv32, k: nat): byte {
    ((if k == 0 then w else if k == 1 then w >> 8 else if k == 2 then w >> 16 else w >> 24) & 0xFF) as byte
  }

  function Word(b0: byte, b1: byte, b2: byte, b3: byte): bv32 {
    (b0 as bv32) | ((b1 as bv32) << 8) | ((b2 as bv32) << 16) | ((b3 as bv32) << 24)
  }

  lemma WordLanes(b0: byte, b1: byte, b2: byte, b3: byte)
    ensures var w := Word(b0, b1, b2, b3); Lane(w, 0) == b0 && Lane(w, 1) == b1 && Lane(w, 2) == b2 && Lane(w, 3) == b3
  {
  }

  /** A word access, which must be aligned. */
  method LoadWord(mem: array<byte>, p: nat) returns (w: bv32)
    requires p % 4 == 0 && p + 4 <= mem.Length
    ensures forall k | p <= k < p + 4 :: mem[k] == Lane(w, k - p)
  {
    w := Word(mem[p], mem[p + 1], mem[p + 2], mem[p + 3]);
    WordLanes(mem[p], mem[p + 1], mem[p + 2], mem[p + 3]);
  }

  method StoreWord(mem: array<byte>, p: nat, w: bv32)
    requires p % 4 == 0 && p + 4 <= mem.Length
    modifies mem
    ensures forall k | p <= k < p + 4 :: mem[k] == Lane(w, k - p)
    ensures forall k | 0 <= k < mem.Length && !(p <= k < p + 4) :: mem[k] == old(mem[k])
  {
    mem[p], mem[p + 1], mem[p + 2], mem[p + 3] := Lane(w, 0), Lane(w, 1), Lane(w, 2), Lane(w, 3);
  }

  /** Bytes before the first word boundary, at most n. */
  function Head(p: nat, n: nat): (h: nat)
    ensures h <= n && (h < n ==> (p + h) % 4 == 0) && h < 4
  {
    var gap := if p % 4 == 0 then 0 else 4 - p % 4;
    if gap <= n then gap else n
  }

  /** Number of word stores after the head. */
  function Words(p: nat, n: nat): nat {
    (n - Head(p, n)) / 4
  }

  /** The head ends at the first word boundary if the region reaches it, and the words leave less than one behind. */
  lemma HeadAndWords(p: nat, n: nat, j: nat)
    ensures var h := Head(p, n);
      && h <= n && (j < h ==> (p + j) % 4 != 0)
      && (h < n ==> (p + h) % 4 == 0) && h + 4 * Words(p, n) <= n < h + 4 * Words(p, n) + 4
  {
  }

  // memcpy

  ghost predicate Apart(src: nat, dst: nat, n: nat) {
    src + n <= dst || dst + n <= src
  }

  /** The first i bytes are copied, everything else is as before. */
  ghost predicate CopiedTo(before: Bytes, now: Bytes, src: nat, dst: nat, i: nat)
    requires src + i <= |before| && dst + i <= |before|
  {
    && |now| == |before|
    && (forall k | dst <= k < dst + i :: now[k] == before[src + (k - dst)])
    && (forall k | 0 <= k < |now| && !(dst <= k < dst + i) :: now[k] == before[k])
  }

  method CopyByte(mem: array<byte>, ghost before: Bytes, src: nat, dst: nat, ghost n: nat, i: nat)
    requires src + n <= mem.Length && dst + n <= mem.Length && |before| == mem.Length && Apart(src, dst, n) && i < n
    requires CopiedTo(before, mem[..], src, dst, i)
    modifies mem
    ensures CopiedTo(before, mem[..], src, dst, i + 1)
  {
    mem[dst + i] := mem[src + i];
  }

  method CopyWord(mem: array<byte>, ghost before: Bytes, src: nat, dst: nat, ghost n: nat, i: nat)
    requires src + n <= mem.Length && dst + n <= mem.Length && |before| == mem.Length && Apart(src, dst, n)
      && i + 4 <= n
    requires CopiedTo(before, mem[..], src, dst, i) && (src + i) % 4 == 0 && (dst + i) % 4 == 0
    modifies mem
    ensures CopiedTo(before, mem[..], src, dst, i + 4)
  {
    var w := LoadWord(mem, src + i);
    assert forall k | src + i <= k < src + i + 4 :: before[k] == Lane(w, k - (src + i)) by {
      assert forall k | src + i <= k < src + i + 4 :: mem[..][k] == before[k];
    }
    StoreWord(mem, dst + i, w);
    forall k | dst + i <= k < dst + i + 4 ensures mem[k] == before[src + (k - dst)] {
      assert before[src + (k - dst)] == Lane(w, k - (dst + i));
    }
  }

  lemma CopiedIsPatch(before: Bytes, now: Bytes, src: nat, dst: nat, n: nat)
    requires src + n <= |before| && dst + n <= |before| && CopiedTo(before, now, src, dst, n)
    ensures now == Patch(before, dst, before[src..src + n])
  {
  }

  predicate BothAligned(src: nat, dst: nat, i: nat) {
    (dst + i) % 4 == 0 && (src + i) % 4 == 0
  }

  /** Where the byte loop ends: at the first common word boundary if there is one, else at the end. */
  function CopyHeadLen(src: nat, dst: nat, n: nat): (h: nat)
    ensures h <= n && (h < n ==> BothAligned(src, dst, h))
  {
    if dst % 4 == src % 4 then Head(dst, n) else n
  }

  lemma BoundaryIsHead(src: nat, dst: nat, n: nat, i: nat)
    requires i <= CopyHeadLen(src, dst, n) && BothAligned(src, dst, i)
    ensures i == CopyHeadLen(src, dst, n)
  {
  }

  method CopyHead(mem: array<byte>, ghost before: Bytes, src: nat, dst: nat, n: nat) returns (i: nat)
    requires src + n <= mem.Length && dst + n <= mem.Length && Apart(src, dst, n) && before == mem[..]
    modifies mem
    ensures i == CopyHeadLen(src, dst, n) && CopiedTo(before, mem[..], src, dst, i)
  {
    i := 0;
    ghost var h := CopyHeadLen(src, dst, n);
    while i < n && !BothAligned(src, dst, i)
      invariant i <= h && CopiedTo(before, mem[..], src, dst, i)
    {
      CopyByte(mem, before, src, dst, n, i);
      i := i + 1;
    }
    if i < n {
      BoundaryIsHead(src, dst, n, i);
    }
  }

  method CopyWords(mem: array<byte>, ghost before: Bytes, src: nat, dst: nat, n: nat, start: nat)
    returns (i: nat, ghost words: nat)
    requires src + n <= mem.Length && dst + n <= mem.Length && |before| == mem.Length && Apart(src, dst, n)
      && start <= n
    requires CopiedTo(before, mem[..], src, dst, start) && (start < n ==> BothAligned(src, dst, start))
    modifies mem
    ensures i <= n && CopiedTo(before, mem[..], src, dst, i) && i == start + 4 * words && n - i < 4
  {
    i, words := start, 0;
    while n - i >= 4
      invariant i <= n && CopiedTo(before, mem[..], src, dst, i) && (i < n ==> BothAligned(src, dst, i))
      invariant i == start + 4 * words
    {
      CopyWord(mem, before, src, dst, n, i);
      i, words := i + 4, words + 1;
    }
  }

  lemma WordCount(n: nat, words: nat)
    requires 4 * words <= n < 4 * words + 4
    ensures n / 4 == words
  {
  }

  method Memcpy(mem: array<byte>, dest: nat, src: nat, n: nat) returns (r: nat, ghost words: nat)
    requires src + n <= mem.Length && dest + n <= mem.Length && Apart(src, dest, n)
    modifies mem
    ensures r == dest
    ensures mem[..] == Patch(old(mem[..]), dest, old(mem[..])[src..src + n])
    ensures words == if dest % 4 == src % 4 then Words(dest, n) else 0
  {
    ghost var before := mem[..];
    var h := CopyHead(mem, before, src, dest, n);
    var i;
    i, words := CopyWords(mem, before, src, dest, n, h);
    WordCount(n - h, words);
    while i < n
      invariant i <= n && CopiedTo(before, mem[..], src, dest, i)
    {
      CopyByte(mem, before, src, dest, n, i);
      i := i + 1;
    }
    CopiedIsPatch(before, mem[..], src, dest, n);
    r := dest;
  }

  // memset

  function Pattern(c: bv32): bv32 {
    (c << 24) | (c << 16) | (c << 8) | c
  }

  /** No bit of the upper bytes of c is missing from its low byte. */
  predicate UpperWithinLow(c: bv32) {
    ((c >> 8) | (c >> 16) | (c >> 24)) & 0xFF & (0xFFFF_FFFF ^ c) == 0
  }

  /** All four bytes of the pattern are the fill byte if and only if c adds no further bits above it. */
  lemma PatternLanes(c: bv32)
    ensures UpperWithinLow(c) <==>
      (Lane(Pattern(c), 1) == Lane(c, 0) && Lane(Pattern(c), 2) == Lane(c, 0) && Lane(Pattern(c), 3) == Lane(c, 0))
    ensures Lane(Pattern(c), 0) == Lane(c, 0)
  {
  }

  /** What a word store puts into memory: byte k has the bits of the k + 1 low bytes of c. */
  lemma PatternBytes(c: bv32)
    ensures Lane(c, 0) == (c & 0xFF) as byte && Lane(Pattern(c), 0) == (c & 0xFF) as byte
    ensures Lane(Pattern(c), 1) == ((c | (c >> 8)) & 0xFF) as byte
    ensures Lane(Pattern(c), 2) == ((c | (c >> 8) | (c >> 16)) & 0xFF) as byte
    ensures Lane(Pattern(c), 3) == ((c | (c >> 8) | (c >> 16) | (c >> 24)) & 0xFF) as byte
  {
  }

  lemma BytesAreUniform(c: bv32)
    requires c <= 0xFF
    ensures UpperWithinLow(c)
  {
  }

  /** The byte at offset k of a region with h head bytes and w words. */
  function SetByte(h: nat, w: nat, c: bv32, k: nat): byte {
    if h <= k < h + 4 * w then Lane(Pattern(c), (k - h) % 4) else Lane(c, 0)
  }

  /** The first i bytes of the region are set, everything else is as before. */
  ghost predicate SetTo(before: Bytes, now: Bytes, s: nat, h: nat, w: nat, c: bv32, i: nat)
    requires s + i <= |before|
  {
    && |now| == |before|
    && (forall k | s <= k < s + i :: now[k] == SetByte(h, w, c, k - s))
    && (forall k | 0 <= k < |now| && !(s <= k < s + i) :: now[k] == before[k])
  }

  method StoreByte(mem: array<byte>, ghost before: Bytes, s: nat, ghost h: nat, ghost w: nat, c: bv32, i: nat)
    requires s + i < mem.Length && |before| == mem.Length && SetTo(before, mem[..], s, h, w, c, i)
    requires i < h || h + 4 * w <= i
    modifies mem
    ensures SetTo(before, mem[..], s, h, w, c, i + 1)
  {
    mem[s + i] := Lane(c, 0);
  }

  lemma WordOffset(h: nat, j: nat, k: nat)
    requires h + 4 * j <= k < h + 4 * j + 4
    ensures (k - h) % 4 == k - (h + 4 * j)
  {
  }

  method StorePattern(mem: array<byte>, ghost before: Bytes, s: nat, ghost h: nat, ghost w: nat, c: bv32, i: nat,
      ghost j: nat)
    requires s + i + 4 <= mem.Length && |before| == mem.Length && SetTo(before, mem[..], s, h, w, c, i)
    requires i == h + 4 * j && j < w && (s + i) % 4 == 0
    modifies mem
    ensures SetTo(before, mem[..], s, h, w, c, i + 4)
  {
    StoreWord(mem, s + i, Pattern(c));
    forall k | s + i <= k < s + i + 4 ensures mem[k] == SetByte(h, w, c, k - s) {
      WordOffset(h, j, k - s);
    }
  }

  /** memset for any c: the word part gets the pattern, the rest the low byte. */
  method Memset(mem: array<byte>, s: nat, c: bv32, n: nat) returns (r: nat)
    requires s + n <= mem.Length
    modifies mem
    ensures r == s && SetTo(old(mem[..]), mem[..], s, Head(s, n), Words(s, n), c, n)
    ensures (Words(s, n) == 0 || UpperWithinLow(c)) <==> mem[..] == Patch(old(mem[..]), s, Fill(n, (c & 0xFF) as byte))
  {
    ghost var before, h, w := mem[..], Head(s, n), Words(s, n);
    var i: nat := 0;
    while i < n && (s + i) % 4 != 0
      invariant i <= h && SetTo(before, mem[..], s, h, w, c, i)
    {
      StoreByte(mem, before, s, h, w, c, i);
      i := i + 1;
    }
    ghost var j: nat := 0;
    while n - i >= 4
      invariant i <= n && i == h + 4 * j && j <= w && (i < n ==> (s + i) % 4 == 0)
      invariant SetTo(before, mem[..], s, h, w, c, i)
    {
      StorePattern(mem, before, s, h, w, c, i, j);
      i, j := i + 4, j + 1;
    }
    while i < n
      invariant h + 4 * w <= i <= n && SetTo(before, mem[..], s, h, w, c, i)
    {
      StoreByte(mem, before, s, h, w, c, i);
      i := i + 1;
    }
    SetIsFillIff(before, mem[..], s, h, w, c, n);
    PatternBytes(c);
    r := s;
  }

  /** The region is a byte fill exactly when no word was stored or the pattern repeats the fill byte. */
  lemma SetIsFillIff(before: Bytes, now: Bytes, s: nat, h: nat, w: nat, c: bv32, n: nat)
    requires s + n <= |before| && h + 4 * w <= n && SetTo(before, now, s, h, w, c, n)
    ensures (w == 0 || UpperWithinLow(c)) <==> now == Patch(before, s, Fill(n, Lane(c, 0)))
  {
    PatternLanes(c);
    var filled := Patch(before, s, Fill(n, Lane(c, 0)));
    if w == 0 || UpperWithinLow(c) {
      assert forall k: nat | k < n :: SetByte(h, w, c, k) == Lane(c, 0);
      assert now == filled;
    } else {
      assert forall k | 1 <= k < 4 :: now[s + h + k] == Lane(Pattern(c), k);
    }
  }

  /** For every c that is a byte value, memset is the byte fill. */
  lemma ByteValuesFill(before: Bytes, now: Bytes, s: nat, n: nat, c: bv32)
    requires s + n <= |before| && c <= 0xFF && SetTo(before, now, s, Head(s, n), Words(s, n), c, n)
    ensures now == Patch(before, s, Fill(n, c as byte))
  {
    BytesAreUniform(c);
    SetIsFillIff(before, now, s, Head(s, n), Words(s, n), c, n);
  }

  /** A value that is no byte value can go wrong: four bytes set to 0x100 are not four zeros. */
  lemma WideValueDoesNotFill(before: Bytes, now: Bytes)
    requires |before| >= 4 && SetTo(before, now, 0, Head(0, 4), Words(0, 4), 0x100, 4)
    ensures now != Patch(before, 0, Fill(4, Lane(0x100, 0)))
  {
    SetIsFillIff(before, now, 0, Head(0, 4), Words(0, 4), 0x100, 4);
  }
}
