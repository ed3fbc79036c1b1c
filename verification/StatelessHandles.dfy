/** Allocation of stateless service handles (tools/tfm_parse_manifest_list.py, lines 731-827). */
module StatelessHandles {
  import opened Wrappers
  import opened Bytes

  const LIMIT: nat := 32

  /** The stateless_handle attribute: absent, a number, "auto", or anything else. */
  datatype Setting = Unset | Number(n: int) | Auto | Other

  class Service {
    const version: int
    const connectionBased: bool
    const setting: Setting
    var handleValue: bv32
    var handleIndex: nat

    constructor (version: int, connectionBased: bool, setting: Setting)
      ensures this.version == version && this.connectionBased == connectionBased && this.setting == setting
    {
      this.version, this.connectionBased, this.setting := version, connectionBased, setting;
    }
  }

  /** A partition: whether its framework version is at least 1.1, and its services. */
  datatype Partition = Partition(framework11: bool, services: seq<Service>)

  /** Index in bits 0-4, version in bits 8-15, indicator in bit 30. */
  function Pack(index: bv32, version: bv32): bv32 {
    index | 0x4000_0000 | (version << 8)
  }

  function Encode(index: nat, version: int): bv32
    requires index < LIMIT
  {
    Pack((index as bv8) as bv32, ((version % 256) as bv8) as bv32)
  }

  /** The masks of the C sources, applied to a handle. */
  function IndexOf(handle: bv32): nat {
    ((handle & 0x1F) as bv8) as nat
  }

  function VersionOf(handle: bv32): nat {
    (((handle >> 8) & 0xFF) as bv8) as nat
  }

  lemma PackFields(index: bv8, version: bv8)
    requires index < 32
    ensures (Pack(index as bv32, version as bv32) & 0x1F) as bv8 == index
    ensures ((Pack(index as bv32, version as bv32) >> 8) & 0xFF) as bv8 == version
    ensures Pack(index as bv32, version as bv32) & 0x4000_0000 != 0
    ensures Pack(index as bv32, version as bv32) & 0xBFFF_00E0 == 0
  {
  }

  /** A handle value tells the index, the low eight version bits, and that it is a stateless handle. */
  lemma HandleDecodes(index: nat, version: int)
    requires index < 32
    ensures ((Encode(index, version) & 0x1F) as bv8) as nat == index == IndexOf(Encode(index, version))
    ensures (((Encode(index, version) >> 8) & 0xFF) as bv8) as nat == version % 256 == VersionOf(Encode(index, version))
    ensures Encode(index, version) & 0x4000_0000 != 0 && Encode(index, version) & 0xBFFF_00E0 == 0
  {
    ByteRoundTrip(index);
    ByteRoundTrip(version % 256);
    PackFields(index as bv8, (version % 256) as bv8);
  }

  /** Handles of different indices differ, whatever the versions. */
  lemma HandlesDistinct(i: nat, v: int, j: nat, w: int)
    requires i < LIMIT && j < LIMIT && Encode(i, v) == Encode(j, w)
    ensures i == j
  {
    HandleDecodes(i, v);
    HandleDecodes(j, w);
  }

  /** The services the allocator looks at: not connection based, in partitions of framework 1.1 or later. */
  function Stateless(svcs: seq<Service>): seq<Service> {
    if svcs == [] then [] else
      Stateless(svcs[..|svcs| - 1]) + if svcs[|svcs| - 1].connectionBased then [] else [svcs[|svcs| - 1]]
  }

  function Collected(ps: seq<Partition>): seq<Service> {
    if ps == [] then [] else
      Collected(ps[..|ps| - 1]) + if ps[|ps| - 1].framework11 then Stateless(ps[|ps| - 1].services) else []
  }

  /** A partition that may offer stateless services offers this one. */
  predicate Offers(p: Partition, s: Service) {
    p.framework11 && s in p.services && !s.connectionBased
  }

  lemma {:induction false} StatelessMembers(svcs: seq<Service>, s: Service)
    ensures s in Stateless(svcs) <==> s in svcs && !s.connectionBased
  {
    if svcs != [] {
      assert svcs == svcs[..|svcs| - 1] + [svcs[|svcs| - 1]];
      StatelessMembers(svcs[..|svcs| - 1], s);
    }
  }

  /** Exactly the services some partition offers are collected. */
  lemma {:induction false} CollectedMembers(ps: seq<Partition>, s: Service)
    ensures s in Collected(ps) <==> exists k :: 0 <= k < |ps| && Offers(ps[k], s)
    ensures s in Collected(ps) <==>
      exists k :: 0 <= k < |ps| && ps[k].framework11 && s in ps[k].services && !s.connectionBased
  {
    if ps != [] {
      var n := |ps| - 1;
      CollectedMembers(ps[..n], s);
      StatelessMembers(ps[n].services, s);
      if k :| 0 <= k < |ps| && Offers(ps[k], s) && k < n {
        assert Offers(ps[..n][k], s);
      }
    }
  }

  /** They keep their order, within a partition and from one partition to the next. */
  lemma {:induction false} StatelessInOrder(a: seq<Service>, b: seq<Service>)
    ensures Stateless(a + b) == Stateless(a) + Stateless(b)
  {
    if b == [] {
      assert a + b == a;
    } else {
      var n := |b| - 1;
      var all, last := a + b, if b[n].connectionBased then [] else [b[n]];
      StatelessInOrder(a, b[..n]);
      assert all[..|all| - 1] == a + b[..n] && all[|all| - 1] == b[n];
      assert Stateless(all) == Stateless(a + b[..n]) + last;
    }
  }

  lemma {:induction false} CollectedInOrder(ps: seq<Partition>, qs: seq<Partition>)
    ensures Collected(ps + qs) == Collected(ps) + Collected(qs)
  {
    if qs == [] {
      assert ps + qs == ps;
    } else {
      var n := |qs| - 1;
      var all, last := ps + qs, if qs[n].framework11 then Stateless(qs[n].services) else [];
      CollectedInOrder(ps, qs[..n]);
      assert all[..|all| - 1] == ps + qs[..n] && all[|all| - 1] == qs[n];
      assert Collected(all) == Collected(ps + qs[..n]) + last;
      assert Collected(qs) == Collected(qs[..n]) + last;
    }
  }

  method Collect(ps: seq<Partition>) returns (r: seq<Service>)
    ensures r == Collected(ps)
  {
    r := [];
    for i := 0 to |ps|
      invariant r == Collected(ps[..i])
    {
      assert ps[..i + 1][..i] == ps[..i];
      if ps[i].framework11 {
        ghost var before := r;
        var svcs := ps[i].services;
        for k := 0 to |svcs|
          invariant r == before + Stateless(svcs[..k])
        {
          assert svcs[..k + 1][..k] == svcs[..k];
          if !svcs[k].connectionBased {
            r := r + [svcs[k]];
          }
        }
        assert svcs[..|svcs|] == svcs;
      }
    }
    assert ps[..|ps|] == ps;
  }

  ghost predicate Distinct<T>(s: seq<T>) {
    forall i, j | 0 <= i < j < |s| :: s[i] != s[j]
  }

  predicate InRange(s: Service) {
    !s.setting.Other? && (s.setting.Number? ==> 1 <= s.setting.n <= LIMIT)
  }

  /** The settings that raise no exception. */
  ghost predicate Acceptable(c: seq<Service>) {
    && (forall i | 0 <= i < |c| :: InRange(c[i]))
    && (forall i, j | 0 <= i < j < |c| && c[i].setting.Number? && c[j].setting.Number? ::
      c[i].setting.n != c[j].setting.n)
  }

  function Autos(c: seq<Service>): seq<Service> {
    if c == [] then [] else
      Autos(c[..|c| - 1]) + if c[|c| - 1].setting.Number? then [] else [c[|c| - 1]]
  }

  lemma AutosStep(c: seq<Service>, s: Service)
    ensures Autos(c + [s]) == Autos(c) + if s.setting.Number? then [] else [s]
  {
    assert (c + [s])[..|c|] == c;
  }

  lemma {:induction false} AutosMembers(c: seq<Service>)
    ensures |Autos(c)| <= |c|
    ensures forall s :: s in Autos(c) <==> s in c && !s.setting.Number?
  {
    if c != [] {
      assert c == c[..|c| - 1] + [c[|c| - 1]];
      AutosMembers(c[..|c| - 1]);
    }
  }

  lemma {:induction false} AutoAt(c: seq<Service>, a: nat) returns (i: nat)
    requires a < |Autos(c)|
    ensures i < |c| && c[i] == Autos(c)[a]
  {
    i := |c| - 1;
    if a < |Autos(c[..i])| {
      i := AutoAt(c[..i], a);
    }
  }

  /** They keep their order. */
  lemma {:induction false} AutosOrdered(c: seq<Service>, a: nat, b: nat) returns (a': nat, b': nat)
    requires a < b < |Autos(c)|
    ensures a' < b' < |c| && c[a'] == Autos(c)[a] && c[b'] == Autos(c)[b]
  {
    var n := |c| - 1;
    var front := c[..n];
    if b < |Autos(front)| {
      a', b' := AutosOrdered(front, a, b);
    } else {
      a' := AutoAt(front, a);
      b' := n;
    }
  }

  lemma {:induction false} AutosDistinct(c: seq<Service>)
    requires Distinct(c)
    ensures Distinct(Autos(c))
  {
    if c != [] {
      var n := |c| - 1;
      AutosDistinct(c[..n]);
      AutosMembers(c[..n]);
      forall i | 0 <= i < |Autos(c[..n])| ensures Autos(c[..n])[i] != c[n] {
        assert Autos(c[..n])[i] in Autos(c[..n]);
      }
    }
  }

  type Slots = seq<Service?>

  /** Number of free slots below index i. */
  function FreeBelow(slots: Slots, i: nat): (n: nat)
    requires i <= |slots|
    ensures n <= i
  {
    if i == 0 then 0 else FreeBelow(slots, i - 1) + if slots[i - 1] == null then 1 else 0
  }

  lemma {:induction false} FreeAfterSet(slots: Slots, i: nat, h: nat, s: Service)
    requires i <= |slots| && h < |slots| && slots[h] == null
    ensures FreeBelow(slots[h := s], i) == FreeBelow(slots, i) - if h < i then 1 else 0
  {
    if i > 0 {
      FreeAfterSet(slots, i - 1, h, s);
    }
  }

  lemma {:induction false} FreeOfEmpty(slots: Slots, i: nat)
    requires i <= |slots| && forall k | 0 <= k < |slots| :: slots[k] == null
    ensures FreeBelow(slots, i) == i
  {
    if i > 0 {
      FreeOfEmpty(slots, i - 1);
    }
  }

  /** The free slot that has exactly j free slots below it. */
  lemma {:induction false} NthFree(slots: Slots, i: nat, j: nat) returns (p: nat)
    requires i <= |slots| && j < FreeBelow(slots, i)
    ensures p < i && slots[p] == null && FreeBelow(slots, p) == j
  {
    p := i - 1;
    if slots[p] != null || j < FreeBelow(slots, p) {
      p := NthFree(slots, i - 1, j);
    }
  }

  lemma {:induction false} FreeBelowGrows(slots: Slots, i: nat, j: nat)
    requires i < j <= |slots| && slots[i] == null
    ensures FreeBelow(slots, i) < FreeBelow(slots, j)
  {
    if i < j - 1 {
      FreeBelowGrows(slots, i, j - 1);
    }
  }

  /** Exactly the explicit services of c have a slot, handle h at index h - 1. */
  ghost predicate Placed(slots: Slots, c: seq<Service>) {
    && |slots| == LIMIT
    && (forall i | 0 <= i < LIMIT && slots[i] != null :: slots[i] in c && slots[i].setting == Number(i + 1))
    && (forall s | s in c && s.setting.Number? :: 1 <= s.setting.n <= LIMIT && slots[s.setting.n - 1] == s)
  }

  lemma AcceptAuto(slots: Slots, c: seq<Service>, s: Service)
    requires Acceptable(c) && Placed(slots, c) && (s.setting.Unset? || s.setting.Auto?)
    ensures Acceptable(c + [s]) && Placed(slots, c + [s]) && Autos(c + [s]) == Autos(c) + [s]
  {
    AutosStep(c, s);
  }

  lemma AcceptNumber(slots: Slots, c: seq<Service>, s: Service)
    requires Acceptable(c) && Placed(slots, c) && s.setting.Number? && 1 <= s.setting.n <= LIMIT
    ensures Acceptable(c + [s]) <==> slots[s.setting.n - 1] == null
    ensures slots[s.setting.n - 1] == null ==> Placed(slots[s.setting.n - 1 := s], c + [s])
    ensures Autos(c + [s]) == Autos(c)
  {
    AutosStep(c, s);
    var d := c + [s];
    var other := slots[s.setting.n - 1];
    if other != null {
      var j :| 0 <= j < |c| && c[j] == other;
      assert d[j] == other && d[|c|] == s;
    } else {
      forall j | 0 <= j < |c| ensures c[j].setting != s.setting {
        assert c[j] in c;
      }
    }
  }

  lemma RejectOutOfRange(c: seq<Service>, s: Service)
    requires !InRange(s)
    ensures !Acceptable(c + [s])
  {
    assert (c + [s])[|c|] == s;
  }

  lemma AcceptableShorter(c: seq<Service>, k: nat)
    requires k <= |c|
    ensures Acceptable(c) ==> Acceptable(c[..k])
  {
  }

  /** One service of the first pass. */
  method PlaceOne(ghost c: seq<Service>, s: Service, slots: Slots, autos: seq<Service>)
    returns (ok: bool, slots': Slots, autos': seq<Service>)
    requires Acceptable(c) && Placed(slots, c) && autos == Autos(c)
    requires FreeBelow(slots, |slots|) + |c| == LIMIT + |autos|
    ensures ok <==> Acceptable(c + [s])
    ensures ok ==> Placed(slots', c + [s]) && autos' == Autos(c + [s])
    ensures ok ==> FreeBelow(slots', |slots'|) + |c| + 1 == LIMIT + |autos'|
  {
    ok, slots', autos' := true, slots, autos;
    if s.setting.Unset? || s.setting.Auto? {
      AcceptAuto(slots, c, s);
      autos' := autos + [s];
    } else if s.setting.Other? || s.setting.n < 1 || s.setting.n > LIMIT {
      RejectOutOfRange(c, s);
      ok := false;
    } else {
      AcceptNumber(slots, c, s);
      var index := s.setting.n - 1;
      if slots[index] != null {
        ok := false;
      } else {
        FreeAfterSet(slots, |slots|, index, s);
        slots' := slots[index := s];
      }
    }
  }

  /** The first pass: explicit handles into their slots, the others into the waiting list. */
  method PlaceExplicit(c: seq<Service>) returns (ok: bool, slots: Slots, autos: seq<Service>)
    ensures ok <==> Acceptable(c)
    ensures ok ==> Placed(slots, c) && autos == Autos(c) && FreeBelow(slots, |slots|) + |c| == LIMIT + |autos|
  {
    ok, slots, autos := true, seq(LIMIT, _ => null), [];
    FreeOfEmpty(slots, |slots|);
    for k := 0 to |c|
      invariant Acceptable(c[..k]) && Placed(slots, c[..k])
      invariant autos == Autos(c[..k]) && FreeBelow(slots, |slots|) + k == LIMIT + |autos|
    {
      assert c[..k + 1] == c[..k] + [c[k]];
      ok, slots, autos := PlaceOne(c[..k], c[k], slots, autos);
      if !ok {
        AcceptableShorter(c, k + 1);
        return;
      }
    }
    ok := true;
    assert c[..|c|] == c;
  }

  /** The slot contents: explicit services stay, waiting services take the free slots in order from the lowest. */
  function Slot(placed: Slots, autos: seq<Service>, i: nat): Service?
    requires i < |placed|
  {
    if placed[i] != null then placed[i]
    else if FreeBelow(placed, i) < |autos| then autos[FreeBelow(placed, i)]
    else null
  }

  /** No service gets two slots. */
  lemma SlotsDiffer(c: seq<Service>, placed: Slots, i: nat, j: nat)
    requires Distinct(c) && Placed(placed, c) && i < j < LIMIT
    requires Slot(placed, Autos(c), i) != null
    ensures Slot(placed, Autos(c), i) != Slot(placed, Autos(c), j)
  {
    AutosDistinct(c);
    AutosMembers(c);
    if placed[i] == null && placed[j] == null {
      FreeBelowGrows(placed, i, j);
    }
  }

  /** Where a collected service ends up. */
  lemma SlotFound(c: seq<Service>, placed: Slots, s: Service) returns (i: nat)
    requires Placed(placed, c) && s in c && |Autos(c)| <= FreeBelow(placed, |placed|)
    ensures i < LIMIT && Slot(placed, Autos(c), i) == s
    ensures s.setting.Number? ==> i == s.setting.n - 1
  {
    if s.setting.Number? {
      i := s.setting.n - 1;
    } else {
      AutosMembers(c);
      var j :| 0 <= j < |Autos(c)| && Autos(c)[j] == s;
      i := NthFree(placed, |placed|, j);
    }
  }

  lemma NotYetUsed(c: seq<Service>, placed: Slots, i: nat)
    requires Distinct(c) && Placed(placed, c) && i < LIMIT && Slot(placed, Autos(c), i) != null
    ensures Slot(placed, Autos(c), i) in c
    ensures forall k | 0 <= k < i :: Slot(placed, Autos(c), k) != Slot(placed, Autos(c), i)
  {
    AutosMembers(c);
    forall k | 0 <= k < i ensures Slot(placed, Autos(c), k) != Slot(placed, Autos(c), i) {
      if Slot(placed, Autos(c), k) != null {
        SlotsDiffer(c, placed, k, i);
      }
    }
  }

  /** The second pass: fill free slots from the waiting list, and write index and value into each service. */
  method AssignHandles(ghost c: seq<Service>, placed: Slots, waiting: seq<Service>) returns (slots: Slots)
    requires Distinct(c) && Placed(placed, c) && waiting == Autos(c)
    modifies c
    ensures |slots| == LIMIT && forall i | 0 <= i < LIMIT :: slots[i] == Slot(placed, waiting, i)
    ensures forall i | 0 <= i < LIMIT && slots[i] != null ::
      slots[i].handleIndex == i && slots[i].handleValue == Encode(i, slots[i].version)
  {
    slots := placed;
    var autos := waiting;
    for i := 0 to LIMIT
      invariant |slots| == LIMIT && forall k | i <= k < LIMIT :: slots[k] == placed[k]
      invariant forall k | 0 <= k < i :: slots[k] == Slot(placed, waiting, k)
      invariant autos == if FreeBelow(placed, i) < |waiting| then waiting[FreeBelow(placed, i)..] else []
      invariant forall k | 0 <= k < i && slots[k] != null ::
        slots[k].handleIndex == k && slots[k].handleValue == Encode(k, slots[k].version)
    {
      var service := slots[i];
      if service == null && |autos| > 0 {
        service, autos := autos[0], autos[1..];
      }
      assert service == Slot(placed, waiting, i);
      if service != null {
        NotYetUsed(c, placed, i);
        service.handleValue := Encode(i, service.version);
        service.handleIndex := i;
      }
      slots := slots[i := service];
    }
  }

  /** Waiting services are numbered in the order they were collected. */
  ghost predicate InOrder(slots: Slots, c: seq<Service>) {
    forall i, j | 0 <= i < j < |slots| && slots[i] != null && slots[j] != null
      && !slots[i].setting.Number? && !slots[j].setting.Number? ::
      exists a, b :: 0 <= a < b < |c| && c[a] == slots[i] && c[b] == slots[j]
  }

  /** process_stateless_services. */
  method Process(ps: seq<Partition>) returns (r: Option<Slots>)
    requires Distinct(Collected(ps))
    modifies Collected(ps)
    ensures var c := Collected(ps);
      r.Some? <==>
        && |c| <= 32
        && (forall i | 0 <= i < |c| ::
          !c[i].setting.Other? && (c[i].setting.Number? ==> 1 <= c[i].setting.n <= 32))
        && (forall i, j | 0 <= i < j < |c| && c[i].setting.Number? && c[j].setting.Number? ::
          c[i].setting.n != c[j].setting.n)
    ensures r.Some? ==> |r.value| == if Collected(ps) == [] then 0 else 32
    ensures r.Some? ==> forall s | s in Collected(ps) :: s in r.value
    ensures r.Some? ==> forall i | 0 <= i < |r.value| && r.value[i] != null ::
      r.value[i] in Collected(ps) && (r.value[i].setting.Number? ==> i == r.value[i].setting.n - 1)
    ensures r.Some? ==> forall i, j | 0 <= i < j < |r.value| && r.value[i] != null ::
      r.value[i] != r.value[j]
    ensures r.Some? ==> forall i | 0 <= i < |r.value| && r.value[i] != null ::
      r.value[i].handleIndex == i && r.value[i].handleValue == Encode(i, r.value[i].version)
    ensures r.Some? ==> forall s, t | s in Collected(ps) && t in Collected(ps) && s != t ::
      s.handleValue != t.handleValue
    ensures r.Some? ==> forall i, j | 0 <= i < j < |r.value| && r.value[i] != null && r.value[j] != null
      && !r.value[i].setting.Number? && !r.value[j].setting.Number? ::
      exists a, b :: 0 <= a < b < |Collected(ps)| && Collected(ps)[a] == r.value[i] && Collected(ps)[b] == r.value[j]
    ensures r.Some? ==> forall i, j | 0 <= i < j < |r.value| && r.value[i] == null && r.value[j] != null ::
      r.value[j].setting.Number?
  {
    var c := Collect(ps);
    if |c| == 0 {
      return Some([]);
    }
    if |c| > LIMIT {
      return None;
    }
    var ok, placed, autos := PlaceExplicit(c);
    if !ok {
      return None;
    }
    var slots := AssignHandles(c, placed, autos);
    AllPlaced(c, placed, slots);
    LowestFirst(c, placed, slots);
    ValuesDiffer(c, slots);
    return Some(slots);
  }

  /** Every collected service has one slot. */
  lemma AllPlaced(c: seq<Service>, placed: Slots, slots: Slots)
    requires Distinct(c) && Placed(placed, c) && |Autos(c)| <= FreeBelow(placed, |placed|)
    requires |slots| == LIMIT && forall i | 0 <= i < LIMIT :: slots[i] == Slot(placed, Autos(c), i)
    ensures forall s | s in c :: s in slots
    ensures forall i | 0 <= i < LIMIT && slots[i] != null ::
      slots[i] in c && (slots[i].setting.Number? ==> i == slots[i].setting.n - 1)
    ensures forall i, j | 0 <= i < j < LIMIT && slots[i] != null :: slots[i] != slots[j]
  {
    AutosMembers(c);
    forall s | s in c ensures s in slots {
      var i := SlotFound(c, placed, s);
      assert slots[i] == s;
    }
    forall i, j | 0 <= i < j < LIMIT && slots[i] != null ensures slots[i] != slots[j] {
      SlotsDiffer(c, placed, i, j);
    }
  }

  /** Free slots are handed out from the lowest, in the order of collection. */
  lemma LowestFirst(c: seq<Service>, placed: Slots, slots: Slots)
    requires Placed(placed, c)
    requires |slots| == LIMIT && forall i | 0 <= i < LIMIT :: slots[i] == Slot(placed, Autos(c), i)
    ensures InOrder(slots, c)
    ensures forall i, j | 0 <= i < j < LIMIT && slots[i] == null && slots[j] != null :: slots[j].setting.Number?
  {
    AutosMembers(c);
    forall i, j | 0 <= i < j < LIMIT && placed[i] == null ensures FreeBelow(placed, i) < FreeBelow(placed, j) {
      FreeBelowGrows(placed, i, j);
    }
    forall i, j | 0 <= i < j < |slots| && slots[i] != null && slots[j] != null
      && !slots[i].setting.Number? && !slots[j].setting.Number?
      ensures exists a, b :: 0 <= a < b < |c| && c[a] == slots[i] && c[b] == slots[j]
    {
      var a, b := AutosOrdered(c, FreeBelow(placed, i), FreeBelow(placed, j));
    }
  }

  lemma ValuesDiffer(c: seq<Service>, slots: Slots)
    requires |slots| == LIMIT && forall s | s in c :: s in slots
    requires forall i | 0 <= i < LIMIT && slots[i] != null :: slots[i].handleValue == Encode(i, slots[i].version)
    ensures forall s, t | s in c && t in c && s != t :: s.handleValue != t.handleValue
  {
    forall s, t | s in c && t in c && s != t ensures s.handleValue != t.handleValue {
      var i :| 0 <= i < LIMIT && slots[i] == s;
      var j :| 0 <= j < LIMIT && slots[j] == t;
      if s.handleValue == t.handleValue {
        HandlesDistinct(i, s.version, j, t.version);
      }
    }
  }
}
