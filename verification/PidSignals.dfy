/**
 * Partition IDs and signal values
 * (tools/tfm_parse_manifest_list.py, lines 499-510, 536-567 and 605-610).
 */
module PidSignals {
  import opened LoadOrder

  const PID_BASE: int := 256

  datatype Pid = NoPid | Pid(value: int)

  /** PIDs as the manifest list gives them, and which entries are switched on. */
  ghost predicate Manual(pids: seq<Pid>, enabled: seq<bool>, i: int)
    requires |pids| == |enabled|
  {
    0 <= i < |pids| && enabled[i] && pids[i].Pid?
  }

  ghost predicate Automatic(pids: seq<Pid>, enabled: seq<bool>, i: int)
    requires |pids| == |enabled|
  {
    0 <= i < |pids| && enabled[i] && pids[i].NoPid?
  }

  ghost predicate ManualDistinct(pids: seq<Pid>, enabled: seq<bool>)
    requires |pids| == |enabled|
  {
    forall i, j | 0 <= i < j < |pids| && Manual(pids, enabled, i) && Manual(pids, enabled, j) :: pids[i] != pids[j]
  }

  /** Number of automatic entries before position k. */
  function AutosBefore(pids: seq<Pid>, enabled: seq<bool>, k: nat): nat
    requires |pids| == |enabled| && k <= |pids|
  {
    if k == 0 then 0
    else AutosBefore(pids, enabled, k - 1) + if enabled[k - 1] && pids[k - 1].NoPid? then 1 else 0
  }

  /** m is the PID that automatic numbering starts after. */
  ghost predicate Highest(pids: seq<Pid>, enabled: seq<bool>, m: int)
    requires |pids| == |enabled|
  {
    && (forall i | Manual(pids, enabled, i) :: pids[i].value <= m)
    && ((exists i :: Manual(pids, enabled, i) && pids[i].value == m)
        || (m == PID_BASE - 1 && forall i :: !Manual(pids, enabled, i)))
  }

  /** What an accepted list turns into. */
  ghost predicate Numbered(before: seq<Pid>, after: seq<Pid>, enabled: seq<bool>, m: int)
    requires |before| == |after| == |enabled|
  {
    && (forall i | 0 <= i < |before| && !Automatic(before, enabled, i) :: after[i] == before[i])
    && (forall i | Automatic(before, enabled, i) :: after[i] == Pid(m + 1 + AutosBefore(before, enabled, i)))
  }

  lemma {:induction false} AutosGrow(pids: seq<Pid>, enabled: seq<bool>, i: nat, j: nat)
    requires |pids| == |enabled| && i < j <= |pids| && Automatic(pids, enabled, i)
    ensures AutosBefore(pids, enabled, i) < AutosBefore(pids, enabled, j)
  {
    if i + 1 < j {
      AutosGrow(pids, enabled, i, j - 1);
    }
  }

  /** The enabled entry that has exactly n automatic ones before it. */
  lemma {:induction false} NthAuto(pids: seq<Pid>, enabled: seq<bool>, k: nat, n: nat) returns (i: nat)
    requires |pids| == |enabled| && k <= |pids| && n < AutosBefore(pids, enabled, k)
    ensures i < k && Automatic(pids, enabled, i) && AutosBefore(pids, enabled, i) == n
  {
    i := k - 1;
    if !(enabled[i] && pids[i].NoPid?) || n < AutosBefore(pids, enabled, i) {
      i := NthAuto(pids, enabled, k - 1, n);
    }
  }

  /** After numbering all enabled partitions have a PID and no two share one; automatic PIDs lie above manual ones. */
  lemma NumberedDistinct(before: seq<Pid>, after: seq<Pid>, enabled: seq<bool>, m: int)
    requires |before| == |after| == |enabled| && ManualDistinct(before, enabled) && Highest(before, enabled, m)
    requires Numbered(before, after, enabled, m)
    ensures forall i | 0 <= i < |after| && enabled[i] :: after[i].Pid?
    ensures forall i, j | 0 <= i < j < |after| && enabled[i] && enabled[j] :: after[i] != after[j]
    ensures forall i, j | Manual(before, enabled, i) && Automatic(before, enabled, j) :: after[i].value < after[j].value
  {
    forall i | 0 <= i < |after| && enabled[i] ensures after[i].Pid? {
      assert Automatic(before, enabled, i) || Manual(before, enabled, i);
    }
    forall i, j | 0 <= i < j < |after| && enabled[i] && enabled[j] ensures after[i] != after[j] {
      PairDistinct(before, after, enabled, m, i, j);
    }
  }

  lemma PairDistinct(before: seq<Pid>, after: seq<Pid>, enabled: seq<bool>, m: int, i: nat, j: nat)
    requires |before| == |after| == |enabled| && ManualDistinct(before, enabled) && Highest(before, enabled, m)
    requires Numbered(before, after, enabled, m) && i < j < |after| && enabled[i] && enabled[j]
    ensures after[i] != after[j]
  {
    assert Automatic(before, enabled, i) || Manual(before, enabled, i);
    assert Automatic(before, enabled, j) || Manual(before, enabled, j);
    if Automatic(before, enabled, i) && Automatic(before, enabled, j) {
      AutosGrow(before, enabled, i, j);
    }
  }

  ghost predicate GivenOut(before: seq<Pid>, after: seq<Pid>, enabled: seq<bool>, v: int)
    requires |before| == |after| == |enabled|
  {
    exists i :: Automatic(before, enabled, i) && after[i] == Pid(v)
  }

  /** Automatic PIDs are exactly the numbers that follow m, one for each automatic entry. */
  lemma AutomaticConsecutive(before: seq<Pid>, after: seq<Pid>, enabled: seq<bool>, m: int, v: int)
    requires |before| == |after| == |enabled| && Numbered(before, after, enabled, m)
    ensures GivenOut(before, after, enabled, v) <==> m < v <= m + AutosBefore(before, enabled, |before|)
  {
    if m < v <= m + AutosBefore(before, enabled, |before|) {
      var i := NthAuto(before, enabled, |before|, v - m - 1);
      assert Automatic(before, enabled, i) && after[i] == Pid(v);
    }
    if GivenOut(before, after, enabled, v) {
      var i :| Automatic(before, enabled, i) && after[i] == Pid(v);
      AutosGrow(before, enabled, i, |before|);
    }
  }

  /**
   * IDs below PID_BASE are reserved, yet automatic numbering enters them when the highest manual ID is itself
   * more than one below PID_BASE.
   */
  lemma AutomaticAvoidsReservedIff(before: seq<Pid>, after: seq<Pid>, enabled: seq<bool>, m: int)
    requires |before| == |after| == |enabled| && Highest(before, enabled, m) && Numbered(before, after, enabled, m)
    requires AutosBefore(before, enabled, |before|) > 0
    ensures (forall i | Automatic(before, enabled, i) :: after[i].value >= 256) <==> (
      || (forall i :: !Manual(before, enabled, i))
      || (exists i :: Manual(before, enabled, i) && before[i].value >= 255))
  {
    var first := NthAuto(before, enabled, |before|, 0);
    assert Automatic(before, enabled, first) && after[first] == Pid(m + 1);
  }

  /** vs holds the manual PIDs among the first i entries, todo the automatic entries, in order. */
  ghost predicate Gathered(pids: seq<Pid>, enabled: seq<bool>, i: nat, vs: seq<int>, todo: seq<nat>)
    requires |pids| == |enabled| && i <= |pids|
  {
    && (forall v | v in vs :: exists j :: j < i && Manual(pids, enabled, j) && pids[j].value == v)
    && (forall j | j < i && Manual(pids, enabled, j) :: pids[j].value in vs)
    && |todo| == AutosBefore(pids, enabled, i)
    && (forall n | 0 <= n < |todo| ::
      todo[n] < i && Automatic(pids, enabled, todo[n]) && AutosBefore(pids, enabled, todo[n]) == n)
  }

  lemma GatherOne(pids: seq<Pid>, enabled: seq<bool>, i: nat, vs: seq<int>, todo: seq<nat>)
    requires |pids| == |enabled| && i < |pids| && Gathered(pids, enabled, i, vs, todo)
    ensures !enabled[i] ==> Gathered(pids, enabled, i + 1, vs, todo)
    ensures enabled[i] && pids[i].NoPid? ==> Gathered(pids, enabled, i + 1, vs, todo + [i])
    ensures enabled[i] && pids[i].Pid? ==> Gathered(pids, enabled, i + 1, vs + [pids[i].value], todo)
  {
    if enabled[i] && pids[i].Pid? {
      assert Manual(pids, enabled, i);
    }
  }

  method GatherPids(pids: array<Pid>, enabled: seq<bool>) returns (ok: bool, vs: seq<int>, todo: seq<nat>)
    requires pids.Length == |enabled|
    ensures ok <==> ManualDistinct(pids[..], enabled)
    ensures ok ==> Gathered(pids[..], enabled, pids.Length, vs, todo)
  {
    ok, vs, todo := true, [], [];
    ghost var all := pids[..];
    for i := 0 to pids.Length
      invariant Gathered(all, enabled, i, vs, todo)
      invariant forall j, k | 0 <= j < k < i && Manual(all, enabled, j) && Manual(all, enabled, k) :: all[j] != all[k]
    {
      GatherOne(all, enabled, i, vs, todo);
      if enabled[i] {
        if pids[i].NoPid? {
          todo := todo + [i];
        } else if pids[i].value in vs {
          assert Manual(all, enabled, i);
          ok := false;
          return;
        } else {
          vs := vs + [pids[i].value];
        }
      }
    }
  }

  /** Automatic entries get the numbers after `last`, in list order. */
  method NumberAutomatic(pids: array<Pid>, enabled: seq<bool>, ghost vs: seq<int>, todo: seq<nat>, last: int)
    requires pids.Length == |enabled| && Gathered(pids[..], enabled, pids.Length, vs, todo)
    modifies pids
    ensures Numbered(old(pids[..]), pids[..], enabled, last)
  {
    ghost var before := pids[..];
    var pid := last;
    for n := 0 to |todo|
      invariant pid == last + n
      invariant forall j | 0 <= j < pids.Length && !Automatic(before, enabled, j) :: pids[j] == before[j]
      invariant forall j | Automatic(before, enabled, j) && AutosBefore(before, enabled, j) < n ::
        pids[j] == Pid(last + 1 + AutosBefore(before, enabled, j))
    {
      pid := pid + 1;
      forall j | Automatic(before, enabled, j) && j != todo[n] ensures AutosBefore(before, enabled, j) != n {
        if j < todo[n] {
          AutosGrow(before, enabled, j, todo[n]);
        } else {
          AutosGrow(before, enabled, todo[n], j);
        }
      }
      pids[todo[n]] := Pid(pid);
    }
    forall j | Automatic(before, enabled, j) ensures AutosBefore(before, enabled, j) < |todo| {
      AutosGrow(before, enabled, j, |before|);
    }
  }

  lemma DistinctMeans(pids: seq<Pid>, enabled: seq<bool>)
    requires |pids| == |enabled|
    ensures ManualDistinct(pids, enabled) <==>
      forall i, j | 0 <= i < j < |pids| && enabled[i] && enabled[j] && pids[i].Pid? && pids[j].Pid? ::
        pids[i] != pids[j]
  {
    assert forall i | 0 <= i < |pids| :: Manual(pids, enabled, i) <==> enabled[i] && pids[i].Pid?;
  }

  /**
   * Only enabled entries without a PID are numbered, the first of them one above the highest manual PID, or 256 if
   * there is none, and each later one by one more.
   */
  lemma NumberedMeans(before: seq<Pid>, after: seq<Pid>, enabled: seq<bool>, m: int, i: nat)
    requires |before| == |after| == |enabled| && Highest(before, enabled, m) && Numbered(before, after, enabled, m)
    requires i < |before|
    ensures !(enabled[i] && before[i].NoPid?) ==> after[i] == before[i]
    ensures enabled[i] && before[i].Pid? ==> before[i].value <= m
    ensures m == 255 || exists k :: 0 <= k < |before| && enabled[k] && before[k] == Pid(m)
    ensures (forall k | 0 <= k < |before| && enabled[k] :: before[k].NoPid?) ==> m == 255
    ensures enabled[i] && before[i].NoPid? ==>
      after[i] == Pid(m + 1 + |set k | 0 <= k < i && enabled[k] && before[k].NoPid?|)
  {
    AutosAreCounted(before, enabled, i);
    if Manual(before, enabled, i) {
      assert before[i].value <= m;
    }
    if m != PID_BASE - 1 {
      var k :| Manual(before, enabled, k) && before[k].value == m;
      assert before[k] == Pid(m);
    }
    if exists k :: Manual(before, enabled, k) && before[k].value == m {
      var k :| Manual(before, enabled, k) && before[k].value == m;
      assert enabled[k] && before[k].Pid?;
    }
  }

  lemma {:induction false} AutosAreCounted(pids: seq<Pid>, enabled: seq<bool>, i: nat)
    requires |pids| == |enabled| && i <= |pids|
    ensures AutosBefore(pids, enabled, i) == |set k | 0 <= k < i && enabled[k] && pids[k].NoPid?|
  {
    var all := set k | 0 <= k < i && enabled[k] && pids[k].NoPid?;
    if i > 0 {
      AutosAreCounted(pids, enabled, i - 1);
      var front := set k | 0 <= k < i - 1 && enabled[k] && pids[k].NoPid?;
      assert all == if enabled[i - 1] && pids[i - 1].NoPid? then front + {i - 1} else front;
    }
  }

  /** Manual PIDs are collected and checked, then the others are numbered upwards from the highest one. */
  method AssignPids(pids: array<Pid>, enabled: seq<bool>) returns (ok: bool, ghost m: int)
    requires pids.Length == |enabled|
    modifies pids
    ensures ok <==> ManualDistinct(old(pids[..]), enabled)
    ensures ok ==> Highest(old(pids[..]), enabled, m) && Numbered(old(pids[..]), pids[..], enabled, m)
    ensures !ok ==> pids[..] == old(pids[..])
  {
    var vs, todo;
    m := 0;
    ok, vs, todo := GatherPids(pids, enabled);
    if ok {
      var last := MaxOr(vs, PID_BASE - 1);
      m := last;
      assert Highest(pids[..], enabled, m);
      NumberAutomatic(pids, enabled, vs, todo, last);
    }
  }

  /** max(pid_list, default) of Python. */
  method MaxOr(s: seq<int>, default: int) returns (m: int)
    ensures s == [] ==> m == default
    ensures s != [] ==> m in s
    ensures forall v | v in s :: v <= m
  {
    m := default;
    for i := 0 to |s|
      invariant i == 0 ==> m == default
      invariant i > 0 ==> m in s
      invariant forall k | 0 <= k < i :: s[k] <= m
    {
      if i == 0 || s[i] > m {
        m := s[i];
      }
    }
  }

  /** Bit position of the signal of service i; four low bits are reserved in IPC partitions. */
  function ServiceBit(ipc: bool, i: nat): nat {
    if ipc then i + 4 else i
  }

  /** Bit position of the signal of interrupt i. */
  function IrqBit(i: nat): int {
    31 - i
  }

  predicate Bit(v: nat, k: nat) {
    if k == 0 then v % 2 == 1 else Bit(v / 2, k - 1)
  }

  lemma {:induction false} ZeroHasNoBit(k: nat)
    ensures !Bit(0, k)
  {
    if k > 0 {
      ZeroHasNoBit(k - 1);
    }
  }

  lemma {:induction false} PowGrows(i: nat, k: nat)
    requires i < k
    ensures Pow2(i) < Pow2(k)
  {
    if i + 1 < k {
      PowGrows(i, k - 1);
    }
  }

  /** The first service and the first interrupt of a partition. */
  lemma FirstSignals()
    ensures Pow2(0) == 1 && Pow2(4) == 0x10 && Pow2(31) == 0x8000_0000
  {
    assert Pow2(1) == 2 && Pow2(2) == 4 && Pow2(3) == 8;
    var k := 4;
    DoubledPow(k, 16);
    DoubledPow(k + 4, 256);
    DoubledPow(k + 8, 0x1000);
    DoubledPow(k + 12, 0x10000);
    DoubledPow(k + 16, 0x100000);
    DoubledPow(k + 20, 0x1000000);
    var n := k + 24;
    assert Pow2(n) == 0x1000_0000 && Pow2(n + 1) == 2 * Pow2(n) && Pow2(n + 2) == 2 * Pow2(n + 1)
      && Pow2(n + 3) == 2 * Pow2(n + 2);
  }

  lemma DoubledPow(k: nat, v: nat)
    requires Pow2(k) == v
    ensures Pow2(k + 4) == 16 * v
  {
    assert Pow2(k + 1) == 2 * v && Pow2(k + 2) == 4 * v && Pow2(k + 3) == 8 * v;
  }

  /** 1 << i has bit i set and no other. */
  lemma {:induction false} ShiftedBit(i: nat, k: nat)
    ensures Bit(Pow2(i), k) <==> i == k
  {
    if i > 0 && k > 0 {
      assert Pow2(i) / 2 == Pow2(i - 1);
      ShiftedBit(i - 1, k - 1);
    } else if k > 0 {
      ZeroHasNoBit(k - 1);
    }
  }

  /** No bit is shared by two signals, none is outside a 32-bit word, and the reserved ones are left alone. */
  ghost predicate SoundSignals(ipc: bool, services: seq<nat>, irqs: seq<nat>) {
    var all := services + irqs;
    && (forall a, b, k: nat | 0 <= a < b < |all| :: !(Bit(all[a], k) && Bit(all[b], k)))
    && (forall a | 0 <= a < |all| :: 0 < all[a] < Pow2(32))
    && (ipc ==> forall a, k: nat | 0 <= a < |all| && k < 4 :: !Bit(all[a], k))
  }

  ghost predicate Shifted(ipc: bool, services: seq<nat>, irqs: seq<nat>) {
    && |irqs| <= 32
    && (forall i | 0 <= i < |services| :: services[i] == Pow2(ServiceBit(ipc, i)))
    && (forall i | 0 <= i < |irqs| :: IrqBit(i) >= 0 && irqs[i] == Pow2(IrqBit(i)))
  }

  /** Position in services + irqs to bit position. */
  function BitOf(ipc: bool, services: nat, irqs: nat, a: nat): nat
    requires a < services + irqs && irqs <= 32
  {
    if a < services then ServiceBit(ipc, a) else IrqBit(a - services)
  }

  lemma WithinLimitIsSound(ipc: bool, services: seq<nat>, irqs: seq<nat>)
    requires Shifted(ipc, services, irqs) && |services| + |irqs| <= 28
    ensures SoundSignals(ipc, services, irqs)
  {
    var all := services + irqs;
    forall a, k: nat | 0 <= a < |all| ensures Bit(all[a], k) <==> k == BitOf(ipc, |services|, |irqs|, a) {
      ShiftedBit(BitOf(ipc, |services|, |irqs|, a), k);
    }
    forall a | 0 <= a < |all| ensures 0 < all[a] < Pow2(32) {
      PowGrows(BitOf(ipc, |services|, |irqs|, a), 32);
    }
  }

  /** For an IPC partition 28 is exactly the most that fits. */
  lemma LimitIsExact(services: seq<nat>, irqs: seq<nat>)
    requires Shifted(true, services, irqs)
    ensures SoundSignals(true, services, irqs) <==> |services| + |irqs| <= 28
  {
    var all := services + irqs;
    if |services| + |irqs| <= 28 {
      WithinLimitIsSound(true, services, irqs);
    } else if |irqs| > 28 {
      assert all[|services| + 28] == Pow2(3);
      ShiftedBit(3, 3);
    } else if |services| > 28 {
      assert all[28] == Pow2(32);
    } else {
      var i := 28 - |irqs|;
      assert all[i] == Pow2(32 - |irqs|);
      if |irqs| > 0 {
        assert all[|services| + |irqs| - 1] == Pow2(32 - |irqs|);
        ShiftedBit(32 - |irqs|, 32 - |irqs|);
      }
    }
  }

  /** Signal values of one partition; the count is checked once all are assigned, and a negative shift fails earlier. */
  method AssignSignals(ipc: bool, services: array<nat>, irqs: array<nat>) returns (ok: bool)
    requires services != irqs
    modifies services, irqs
    ensures ok <==> services.Length + irqs.Length <= 28
    ensures ok ==> Shifted(ipc, services[..], irqs[..]) && SoundSignals(ipc, services[..], irqs[..])
    ensures ok ==> forall i | 0 <= i < services.Length :: services[i] == Pow2(if ipc then i + 4 else i)
    ensures ok ==> irqs.Length <= 28 && forall i | 0 <= i < irqs.Length :: irqs[i] == Pow2(31 - i)
  {
    for i := 0 to services.Length
      invariant forall j | 0 <= j < i :: services[j] == Pow2(ServiceBit(ipc, j))
    {
      services[i] := Pow2(if ipc then i + 4 else i);
    }
    for i := 0 to irqs.Length
      invariant i <= 32
      invariant forall j | 0 <= j < services.Length :: services[j] == Pow2(ServiceBit(ipc, j))
      invariant forall j | 0 <= j < i :: irqs[j] == Pow2(IrqBit(j))
    {
      if 31 - i < 0 {
        return false;
      }
      irqs[i] := Pow2(31 - i);
    }
    ok := services.Length + irqs.Length <= 28;
    if ok {
      WithinLimitIsSound(ipc, services[..], irqs[..]);
    }
  }
}
