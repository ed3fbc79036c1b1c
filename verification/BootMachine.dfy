/** BL1_2's image validation and its boot loop (bl1/bl1_2/main.c), over any number of boots. */
module BootMachine {
  import opened Bytes
  import opened FlashDevice
  import opened ImageLayout
  import opened ImageBinding
  import opened SignaturePolicy
  import opened BootImage
  import opened Wrappers
  import D = ImageDecrypt
  import W = BindWriter

  // What happened so far

  /** A jump to BL2: the RAM image, the NV counter, whether its tag was forged, how many images had been checked. */
  datatype Jump = Jump(img: Bytes, nv: nat, forged: bool, checks: nat)

  /** Images whose signatures were checked and accepted, tags that were issued, and images that were started. */
  datatype History = History(checked: seq<Bytes>, issued: set<(Bytes, Bytes)>, started: seq<Jump>) {
    function Check(img: Bytes): History {
      this.(checked := checked + [img])
    }

    function Issue(nonce: Bytes, pv: Bytes): History {
      this.(issued := issued + {(nonce, pv)})
    }

    function Start(j: Jump): History {
      this.(started := started + [j])
    }
  }

  /** One of the first n checked images has these protected values. */
  ghost predicate PvChecked(lay: Layout, checked: seq<Bytes>, n: nat, pv: Bytes) {
    exists i :: 0 <= i < n && i < |checked| && lay.End() <= |checked[i]| && lay.Pv(checked[i]) == pv
  }

  /** Every checked image satisfies the signature policy, and tags were issued only for checked protected values. */
  ghost predicate Genuine(p: Platform, h: History)
    requires Fits(p.lay, p.keys)
  {
    && (forall i | 0 <= i < |h.checked| ::
      p.lay.End() <= |h.checked[i]| && PolicyHolds(p.lay, p.keys, h.checked[i]))
    && (forall t | t in h.issued :: PvChecked(p.lay, h.checked, |h.checked|, t.1))
  }

  /**
   * No image is started whose counter is below the NV counter of this or any earlier start, nor one whose protected
   * values were not checked in this or an earlier boot, unless its tag was forged.
   */
  ghost predicate SafeRun(lay: Layout, h: History) {
    && (forall k | 0 <= k < |h.started| :: lay.End() <= |h.started[k].img| && h.started[k].checks <= |h.checked|)
    && (forall j, k | 0 <= j <= k < |h.started| :: h.started[j].nv <= D.Counter(lay, h.started[k].img))
    && (forall k | 0 <= k < |h.started| ::
      h.started[k].forged || PvChecked(lay, h.checked, h.started[k].checks, lay.Pv(h.started[k].img)))
  }

  lemma CheckKeepsPv(lay: Layout, checked: seq<Bytes>, img: Bytes, n: nat, pv: Bytes)
    requires n <= |checked| && PvChecked(lay, checked, n, pv)
    ensures PvChecked(lay, checked + [img], n, pv) && PvChecked(lay, checked + [img], n + 1, pv)
  {
    var i :| 0 <= i < n && lay.End() <= |checked[i]| && lay.Pv(checked[i]) == pv;
    assert (checked + [img])[i] == checked[i];
  }

  lemma AfterCheck(p: Platform, h: History, img: Bytes)
    requires Fits(p.lay, p.keys) && Genuine(p, h) && SafeRun(p.lay, h)
    requires p.lay.End() <= |img| && PolicyHolds(p.lay, p.keys, img)
    ensures Genuine(p, h.Check(img)) && SafeRun(p.lay, h.Check(img))
    ensures PvChecked(p.lay, h.Check(img).checked, |h.Check(img).checked|, p.lay.Pv(img))
  {
    var after := h.Check(img);
    assert after.checked[|h.checked|] == img;
    forall t | t in h.issued ensures PvChecked(p.lay, after.checked, |after.checked|, t.1) {
      CheckKeepsPv(p.lay, h.checked, img, |h.checked|, t.1);
    }
    forall k | 0 <= k < |h.started| && !h.started[k].forged
      ensures PvChecked(p.lay, after.checked, h.started[k].checks, p.lay.Pv(h.started[k].img))
    {
      CheckKeepsPv(p.lay, h.checked, img, h.started[k].checks, p.lay.Pv(h.started[k].img));
    }
  }

  lemma AfterIssue(p: Platform, h: History, nonce: Bytes, pv: Bytes)
    requires Fits(p.lay, p.keys) && Genuine(p, h) && PvChecked(p.lay, h.checked, |h.checked|, pv)
    ensures Genuine(p, h.Issue(nonce, pv)) && (SafeRun(p.lay, h) ==> SafeRun(p.lay, h.Issue(nonce, pv)))
  {
  }

  lemma AfterStart(p: Platform, h: History, j: Jump, nv: nat)
    requires Fits(p.lay, p.keys) && Genuine(p, h) && SafeRun(p.lay, h)
    requires forall k | 0 <= k < |h.started| :: h.started[k].nv <= nv
    requires p.lay.End() <= |j.img| && j.nv == nv <= D.Counter(p.lay, j.img) && j.checks == |h.checked|
    requires j.forged || PvChecked(p.lay, h.checked, |h.checked|, p.lay.Pv(j.img))
    ensures Genuine(p, h.Start(j)) && SafeRun(p.lay, h.Start(j))
    ensures forall k | 0 <= k < |h.Start(j).started| :: h.Start(j).started[k].nv <= nv
  {
    var after := h.Start(j);
    forall i, k | 0 <= i <= k < |after.started| ensures after.started[i].nv <= D.Counter(p.lay, after.started[k].img) {
      assert i < |h.started| ==> after.started[i] == h.started[i];
    }
  }

  /** What an unforged start means: the image that was checked carries the signatures and the very same counter. */
  lemma StartedWasChecked(p: Platform, h: History, k: nat) returns (i: nat)
    requires Fits(p.lay, p.keys) && Genuine(p, h) && SafeRun(p.lay, h) && k < |h.started| && !h.started[k].forged
    ensures i < h.started[k].checks <= |h.checked| && p.lay.End() <= |h.checked[i]|
    ensures PolicyHolds(p.lay, p.keys, h.checked[i]) && p.lay.Pv(h.checked[i]) == p.lay.Pv(h.started[k].img)
    ensures forall s: nat | s < p.keys.signers && !(p.keys.usePolicies && p.keys.policy(s) == Some(MightSign)) ::
      p.keys.verify(s, p.lay.Pv(h.started[k].img), SigBlock(p.lay, p.keys, h.checked[i], s))
    ensures forall j | 0 <= j <= k :: h.started[j].nv <= D.Counter(p.lay, h.checked[i])
  {
    var s := h.started[k];
    i :| 0 <= i < s.checks && i < |h.checked| && p.lay.End() <= |h.checked[i]|
      && p.lay.Pv(h.checked[i]) == p.lay.Pv(s.img);
    CounterInPv(p.lay, h.checked[i], s.img);
    PolicyMeans(p.lay, p.keys, h.checked[i]);
  }

  // One device

  /** What the platform answers during one pass of the boot loop. */
  datatype Pass = Pass(selected: nat, preLoad: bool, rolledBackTo: nat, preLoadAgain: bool, recovery: bool)

  datatype Step = Started | Stopped | GoOn

  /** How a loop ends, and the slot that was started if one was. */
  datatype Result = Result(step: Step, slot: nat)

  datatype Outcome = Jumped | Panicked | Recovering

  /** A pass that starts a slot, which slot that is, and a pass that starts none and goes on. */
  predicate Finds(p: Pass, good: set<nat>) {
    p.preLoad && (p.selected in good || (p.preLoadAgain && p.rolledBackTo in good))
  }

  function Found(p: Pass, good: set<nat>): nat {
    if p.selected in good then p.selected else p.rolledBackTo
  }

  predicate Passes(p: Pass, good: set<nat>) {
    p.preLoad && p.selected !in good && p.preLoadAgain && p.rolledBackTo !in good && p.recovery
  }

  /** The boot loop decided on nothing but the set of slots that boot. */
  function Verdict(passes: seq<Pass>, k: nat, good: set<nat>): Result
    requires k <= |passes|
    decreases |passes| - k
  {
    if k == |passes| then Result(GoOn, 0)
    else if Finds(passes[k], good) then Result(Started, Found(passes[k], good))
    else if Passes(passes[k], good) then Verdict(passes, k + 1, good)
    else Result(Stopped, 0)
  }

  /** The loop starts an image exactly if some pass is reached that finds a bootable slot. */
  lemma {:induction false} StartedIff(passes: seq<Pass>, k: nat, good: set<nat>)
    requires k <= |passes|
    ensures Verdict(passes, k, good).step == Started <==>
      exists n: nat :: Reached(passes, k, good, n) && Finds(passes[n], good)
    ensures Verdict(passes, k, good).step == Started ==> Verdict(passes, k, good).slot in good
    decreases |passes| - k
  {
    if k < |passes| {
      StartedIff(passes, k + 1, good);
      var p := passes[k];
      if Finds(p, good) {
        assert Reached(passes, k, good, k);
      }
      forall n: nat | k < n
        ensures Reached(passes, k, good, n) <==> Reached(passes, k + 1, good, n) && Passes(p, good)
      {
      }
    }
  }

  ghost predicate Reached(passes: seq<Pass>, k: nat, good: set<nat>, n: nat) {
    k <= n < |passes| && forall m | k <= m < n :: Passes(passes[m], good)
  }

  /** What comes before and after the loop. */
  function Ends(init: bool, step: Step, postLoad: bool): Outcome {
    if !init then Panicked
    else if step == GoOn then Recovering
    else if step == Started && postLoad then Jumped
    else Panicked
  }

  /** The loop and what surrounds it, case by case. */
  lemma VerdictCases(passes: seq<Pass>, good: set<nat>)
    ensures passes == [] ==> Verdict(passes, 0, good) == Result(GoOn, 0)
    ensures passes != [] && !passes[0].preLoad ==> Verdict(passes, 0, good).step == Stopped
    ensures passes != [] && passes[0].preLoad && passes[0].selected in good
      ==> Verdict(passes, 0, good) == Result(Started, passes[0].selected)
    ensures passes != [] && passes[0].preLoad && passes[0].selected !in good ==>
      && (!passes[0].preLoadAgain ==> Verdict(passes, 0, good).step == Stopped)
      && (passes[0].preLoadAgain && passes[0].rolledBackTo in good
        ==> Verdict(passes, 0, good) == Result(Started, passes[0].rolledBackTo))
      && (passes[0].preLoadAgain && passes[0].rolledBackTo !in good && !passes[0].recovery
        ==> Verdict(passes, 0, good).step == Stopped)
      && (passes[0].preLoadAgain && passes[0].rolledBackTo !in good && passes[0].recovery
        ==> Verdict(passes, 0, good) == Verdict(passes[1..], 0, good))
  {
    if passes != [] {
      VerdictOfRest(passes, 1, good);
    }
  }

  lemma {:induction false} VerdictOfRest(passes: seq<Pass>, k: nat, good: set<nat>)
    requires 1 <= k <= |passes|
    ensures Verdict(passes, k, good) == Verdict(passes[1..], k - 1, good)
    decreases |passes| - k
  {
    if k < |passes| {
      VerdictOfRest(passes, k + 1, good);
    }
  }

  lemma EndsCases(step: Step, postLoad: bool)
    ensures Ends(false, step, postLoad) == Panicked
    ensures Ends(true, Stopped, postLoad) == Panicked
    ensures Ends(true, GoOn, postLoad) == Recovering
    ensures Ends(true, Started, true) == Jumped
    ensures Ends(true, Started, false) == Panicked
  {
  }

  /** The image in a slot boots. */
  ghost predicate SlotBoots(p: Platform, bases: seq<nat>, mem: Bytes, nv: nat, id: nat)
    requires p.Lawful()
  {
    id < |bases| && bases[id] + p.lay.End() <= |mem| && p.Boots(nv, p.lay.At(mem, bases[id]))
  }

  ghost function Good(p: Platform, bases: seq<nat>, mem: Bytes, nv: nat): set<nat>
    requires p.Lawful()
  {
    set i: nat | i < |bases| && SlotBoots(p, bases, mem, nv, i)
  }

  class Device {
    const p: Platform
    const flash: Flash
    const ram: array<byte>
    /** Flash offset of each image, and whether flash is memory-mapped. */
    const bases: seq<nat>
    const mapped: bool
    /** BL2_CODE_SIZE and BL2_HEADER_SIZE, which need not be the sizes of the image's data and of its header. */
    const bl2CodeSize: nat
    const bl2HeaderSize: nat
    const reliable: bool
    /** PLAT_NV_COUNTER_BL1_0. */
    var nv: nat
    ghost var history: History

    /** How much copy_image copies. */
    function CopyLen(): nat {
      if mapped then bl2CodeSize + bl2HeaderSize else p.lay.End()
    }

    ghost predicate SlotValid(b: nat)
      reads flash
    {
      && (p.lay.binding ==> TagFits(p.lay, flash, b))
      && (mapped ==> b + p.lay.RawLen() <= |flash.mem| && b + CopyLen() <= |flash.mem|)
    }

    ghost predicate Valid()
      reads this, flash
    {
      && flash.Valid() && flash.dataWidth == 1 && p.Lawful()
      && p.lay.RawLen() <= ram.Length && CopyLen() <= ram.Length
      && (forall b | b in bases :: SlotValid(b))
      && Genuine(p, history) && SafeRun(p.lay, history)
      && (forall k | 0 <= k < |history.started| :: history.started[k].nv <= nv)
    }

    /** A device fresh from the factory: nothing checked, no tag issued, nothing started. */
    constructor (p: Platform, flash: Flash, ram: array<byte>, bases: seq<nat>, mapped: bool, bl2CodeSize: nat,
                 bl2HeaderSize: nat, reliable: bool)
      requires flash.Valid() && flash.dataWidth == 1 && p.Lawful() && p.lay.RawLen() <= ram.Length
      requires mapped ==> bl2CodeSize + bl2HeaderSize <= ram.Length
      requires forall b | b in bases && p.lay.binding :: TagFits(p.lay, flash, b)
      requires mapped ==> forall b | b in bases ::
        b + p.lay.RawLen() <= |flash.mem| && b + bl2CodeSize + bl2HeaderSize <= |flash.mem|
      ensures Valid() && nv == 0 && history == History([], {}, [])
      ensures this.p == p && this.flash == flash && this.ram == ram && this.bases == bases
      ensures this.mapped == mapped && this.bl2CodeSize == bl2CodeSize && this.bl2HeaderSize == bl2HeaderSize
      ensures this.reliable == reliable
    {
      this.p, this.flash, this.ram, this.bases := p, flash, ram, bases;
      this.mapped, this.bl2CodeSize, this.bl2HeaderSize, this.reliable := mapped, bl2CodeSize, bl2HeaderSize, reliable;
      nv, history := 0, History([], {}, []);
    }

    /** The header tag is right, yet no such tag was ever issued: the MAC is broken. */
    ghost predicate Forged(img: Bytes)
      requires p.lay.End() <= |img|
      reads this
    {
      p.Tagged(img) && (p.TagNonce(img), p.lay.Pv(img)) !in history.issued
    }

    /** What BL1_2 promises of the image it starts. */
    ghost predicate Trusted(img: Bytes)
      requires p.lay.End() <= |img|
      reads this
    {
      && D.Counter(p.lay, img) >= nv
      && (PvChecked(p.lay, history.checked, |history.checked|, p.lay.Pv(img)) || Forged(img))
    }

    /** One validation checks at most one image and issues at most one tag, both for what is in RAM afterwards. */
    ghost predicate Grew(before: History)
      requires p.lay.End() <= ram.Length
      reads this, ram
    {
      && history.started == before.started
      && (history.checked == before.checked
          || (|history.checked| == |before.checked| + 1 && before.checked <= history.checked
              && p.lay.End() <= |history.checked[|before.checked|]|
              && p.lay.Pv(history.checked[|before.checked|]) == p.lay.Pv(ram[..])))
      && (history.issued == before.issued
          || history.issued == before.issued + {(p.TagNonce(ram[..]), p.lay.Pv(ram[..]))})
    }

    /** Nothing the boot stage calls fails, and the driver reports item counts. */
    ghost predicate Faultless() {
      reliable && flash.reliable && flash.countsItems
    }

    /** The copied length reaches the end of the image. */
    predicate CopiesWhole() {
      CopyLen() >= p.lay.End()
    }

    /** Geometry under which neither the copy nor the binding of a slot can fall short. */
    ghost predicate Sized(base: nat)
      reads flash
    {
      && base + p.lay.End() <= |flash.mem|
      && (p.lay.binding || !p.lay.encryption ==> CopiesWhole())
      && (p.lay.binding ==> TagAligned(p.lay, flash, base) && flash.sectorSize <= W.MAX_SECTOR_SIZE)
      && (p.lay.binding && p.lay.encryption ==>
        BLOCK_SIZE < flash.sectorSize <= SECTOR_BUF_SIZE && p.lay.PvLen() < MAX_PAYLOAD)
    }

    /** In build options, sizes and driver behaviour: when a boot of a slot can be counted on. */
    lemma SuitableMeans(base: nat)
      requires flash.sectorSize > 0 && flash.programUnit > 0
      ensures Faultless() <==> reliable && flash.reliable && flash.countsItems
      ensures Sized(base) <==>
        && base + p.lay.End() <= |flash.mem|
        && (mapped && !(p.lay.encryption && !p.lay.binding) ==> bl2CodeSize + bl2HeaderSize >= p.lay.End())
        && (p.lay.binding ==>
          var field := base + if p.lay.encryption then 16 else 0;
          && flash.sectorSize <= 4096 && 16 % flash.programUnit == 0 && field % flash.programUnit == 0
          && field + 16 <= AlignDown(field, flash.sectorSize) + flash.sectorSize
          && (p.lay.encryption ==> flash.sectorSize > 1024 && 16 + p.lay.codeSize < 0x100_0000))
    {
    }

    ghost predicate SlotSectors(before: Bytes, base: nat)
      reads flash
    {
      flash.sectorSize > 0 && SlotFrame(before, flash.mem, base, base + p.lay.End(), flash.sectorSize)
    }

    /** is_image_security_counter_valid. */
    method IsCounterValid() returns (ok: bool)
      requires p.lay.End() <= ram.Length
      ensures ok ==> D.Counter(p.lay, ram[..]) >= nv
      ensures reliable && D.Counter(p.lay, ram[..]) >= nv ==> ok
    {
      var works: bool := *;
      if !works && !reliable {
        return false;
      }
      return nv <= D.Counter(p.lay, ram[..]);
    }

    /** bl1_2_validate_image_at_addr; the image is recorded as checked when its signatures were accepted. */
    method ValidateAtAddr() returns (ok: bool)
      requires Valid()
      modifies this`history
      ensures Valid()
      ensures history == old(history)
        || (PolicyHolds(p.lay, p.keys, ram[..]) && history == old(history).Check(ram[..]))
      ensures ok ==> history == old(history).Check(ram[..])
      ensures ok ==> PolicyHolds(p.lay, p.keys, ram[..]) && D.Counter(p.lay, ram[..]) >= nv
      ensures ok ==> PvChecked(p.lay, history.checked, |history.checked|, p.lay.Pv(ram[..]))
      ensures reliable && PolicyHolds(p.lay, p.keys, ram[..]) && D.Counter(p.lay, ram[..]) >= nv ==> ok
    {
      ok := IsSignatureValid(p.lay, p.keys, ram[..], reliable);
      if !ok {
        return;
      }
      AfterCheck(p, history, ram[..]);
      history := history.Check(ram[..]);
      ok := IsCounterValid();
    }

    /** copy_image; a failing read is not reported, so RAM may hold anything afterwards. */
    method CopyImage(base: nat)
      requires Valid() && base in bases
      modifies flash`requests, ram
      ensures Valid()
      ensures mapped ==> ram[..] == Patch(old(ram[..]), 0, flash.mem[base..base + CopyLen()])
      ensures !mapped ==> SameOutside(old(ram[..]), ram[..], 0, p.lay.End())
      ensures (mapped || (flash.reliable && flash.countsItems)) && base + p.lay.End() <= |flash.mem| && CopiesWhole()
        ==> ram[..p.lay.End()] == p.lay.At(flash.mem, base)
    {
      assert SlotValid(base);
      if mapped {
        var piece := flash.mem[base..base + CopyLen()];
        W.CopyInto(ram, 0, piece);
        if CopiesWhole() {
          assert ram[..p.lay.End()] == piece[0..0 + p.lay.End()];
          SliceOfSlice(flash.mem, base, base + CopyLen(), 0, p.lay.End());
        }
      } else {
        var ok := CopyToSram(flash, base, p.lay.End(), ram);
      }
    }

    /** bl1_2_validate_image without binding: copy or decrypt, then verify the signatures. */
    method ValidateUnbound(base: nat) returns (ok: bool)
      requires Valid() && base in bases && !p.lay.binding
      modifies this`history, flash`requests, ram
      ensures Valid() && Grew(old(history))
      ensures ok ==> Trusted(ram[..])
      ensures Faultless() && Sized(base) ==> (ok <==> p.Boots(nv, p.lay.At(flash.mem, base)))
      ensures Faultless() && Sized(base) && ok ==> p.lay.Pv(ram[..]) == p.StartedPv(p.lay.At(flash.mem, base))
    {
      if p.lay.encryption {
        assert SlotValid(base);
        ok := D.CopyAndDecrypt(flash, base, mapped, p.lay, p.cipher, ram, reliable);
        if !ok {
          return;
        }
      } else {
        CopyImage(base);
      }
      PolicyPrefix(p.lay, p.keys, ram[..]);
      PvPrefix(p.lay, ram[..]);
      ok := ValidateAtAddr();
    }

    /** Flash is what a fault-free boot of the image that was at base leaves. */
    ghost predicate Left(mem: Bytes, base: nat)
      requires p.Lawful() && base + p.lay.End() <= |mem|
      reads flash
    {
      flash.mem == p.FlashAfter(mem, base)
    }

    /** The 16 bytes behind the initial value, if there is one. */
    ghost function SlotTag(mem: Bytes, base: nat): (r: Bytes)
      requires p.lay.binding && base + p.lay.End() <= |mem|
      ensures r == p.lay.Tag(p.lay.At(mem, base)) && |r| == 16
      ensures var at := base + if p.lay.encryption then 16 else 0;
        at + 16 <= |mem| && r == mem[at..at + 16]
    {
      SliceOfSlice(mem, base, base + p.lay.End(), p.lay.TagAt(), 16);
      p.lay.Tag(p.lay.At(mem, base))
    }

    lemma SlotTagPresent(mem: Bytes, base: nat)
      requires p.lay.binding && base + p.lay.End() <= |mem|
      ensures TagPresent(p.lay, p.lay.At(mem, base)) <==> exists k :: 0 <= k < 16 && SlotTag(mem, base)[k] != 0
      ensures !TagPresent(p.lay, p.lay.At(mem, base)) <==> forall k :: 0 <= k < 16 ==> SlotTag(mem, base)[k] == 0
    {
      NotAllZero(SlotTag(mem, base));
    }

    /** bl1_2_validate_image with binding but without encryption; the bytes of the tag in flash decide which branch. */
    method ValidateBound(base: nat) returns (ok: bool)
      requires Valid() && base in bases && p.lay.binding && !p.lay.encryption
      modifies this`history, flash`mem, flash`requests, ram
      ensures Valid() && Grew(old(history)) && |flash.mem| == old(|flash.mem|)
      ensures ok ==> Trusted(ram[..])
      ensures SlotSectors(old(flash.mem), base)
      ensures Faultless() && Sized(base) ==> Verdicted(old(flash.mem), base, ok)
      ensures Faultless() && Sized(base) && (exists k :: 0 <= k < 16 && SlotTag(old(flash.mem), base)[k] != 0) ==>
        && flash.mem == old(flash.mem)
        && (ok <==>
          && D.Counter(p.lay, p.lay.At(old(flash.mem), base)) >= nv
          && (SlotTag(old(flash.mem), base) == p.mac.cmac(p.mac.hash(p.lay.Pv(p.lay.At(old(flash.mem), base))))
              || PolicyHolds(p.lay, p.keys, p.lay.At(old(flash.mem), base))))
      ensures Faultless() && Sized(base) && (forall k :: 0 <= k < 16 ==> SlotTag(old(flash.mem), base)[k] == 0) ==>
        (ok <==>
          && D.Counter(p.lay, p.lay.At(old(flash.mem), base)) >= nv
          && PolicyHolds(p.lay, p.keys, p.lay.At(old(flash.mem), base))
          && |p.mac.cmac(p.mac.hash(p.lay.Pv(p.lay.At(old(flash.mem), base))))| == 16)
    {
      if base + p.lay.End() <= |flash.mem| {
        p.BootsMeans(nv, p.lay.At(flash.mem, base));
        SlotTagPresent(flash.mem, base);
      }
      ok := BranchBound(base);
    }

    /** A fault-free validation accepts exactly a slot that boots, and leaves RAM and flash as booting it does. */
    ghost predicate Verdicted(mem: Bytes, base: nat, ok: bool)
      requires p.Lawful() && p.lay.End() <= ram.Length && base + p.lay.End() <= |mem|
      reads this`nv, ram, flash
    {
      && (ok <==> p.Boots(nv, p.lay.At(mem, base)))
      && (if ok then p.lay.Pv(ram[..]) == p.StartedPv(p.lay.At(mem, base)) && Left(mem, base) else flash.mem == mem)
    }

    method BranchBound(base: nat) returns (ok: bool)
      requires Valid() && base in bases && p.lay.binding && !p.lay.encryption
      modifies this`history, flash`mem, flash`requests, ram
      ensures Valid() && Grew(old(history)) && |flash.mem| == old(|flash.mem|)
      ensures ok ==> Trusted(ram[..])
      ensures SlotSectors(old(flash.mem), base)
      ensures Faultless() && Sized(base) ==> Verdicted(old(flash.mem), base, ok)
    {
      CopyImage(base);
      PlainPrefix(p.lay, ram[..]);
      PolicyPrefix(p.lay, p.keys, ram[..]);
      if TagPresent(p.lay, ram[..]) {
        ok := LaterBootPlain();
      } else {
        ok := FirstBootPlain(base);
      }
    }

    /** The branch taken when a tag is present, once the image is in RAM: a wrong tag falls back to the signatures. */
    method LaterBootPlain() returns (ok: bool)
      requires Valid() && p.lay.binding && !p.lay.encryption
      modifies this`history
      ensures Valid() && Grew(old(history))
      ensures ok ==> Trusted(ram[..])
      ensures reliable ==> (ok <==>
        D.Counter(p.lay, ram[..]) >= nv && (p.Tagged(ram[..]) || PolicyHolds(p.lay, p.keys, ram[..])))
    {
      ok := ValidateMac(ram, p.lay, p.mac, reliable);
      if ok {
        ok := IsCounterValid();
      } else {
        ok := ValidateAtAddr();
      }
    }

    /** The branch taken while no tag is present, once the image is in RAM: verify, bind. */
    method FirstBootPlain(base: nat) returns (ok: bool)
      requires Valid() && base in bases && p.lay.binding && !p.lay.encryption
      modifies this`history, flash`mem, flash`requests, ram
      ensures Valid() && Grew(old(history)) && |flash.mem| == old(|flash.mem|)
      ensures p.lay.Pv(ram[..]) == p.lay.Pv(old(ram[..])) && (ok ==> Trusted(ram[..]))
      ensures SlotSectors(old(flash.mem), base)
      ensures Faultless() && Sized(base) ==> (ok <==>
        PolicyHolds(p.lay, p.keys, old(ram[..])) && D.Counter(p.lay, old(ram[..])) >= nv
        && |p.mac.Tag(p.lay.Pv(old(ram[..])))| == TAG_LEN)
      ensures Faultless() && Sized(base) && !ok ==> flash.mem == old(flash.mem)
      ensures ok ==>
        && base + p.lay.TagAt() + TAG_LEN <= |flash.mem| && |p.mac.Tag(p.lay.Pv(old(ram[..])))| == TAG_LEN
        && flash.mem == Patch(old(flash.mem), base + p.lay.TagAt(), p.mac.Tag(p.lay.Pv(old(ram[..]))))
    {
      ok := ValidateAtAddr();
      if ok {
        ok := BindPlain(base);
      }
    }

    /** Binding after a successful validation; the tag is issued for protected values that have just been checked. */
    method BindPlain(base: nat) returns (ok: bool)
      requires Valid() && base in bases && p.lay.binding && !p.lay.encryption && D.Counter(p.lay, ram[..]) >= nv
      requires PvChecked(p.lay, history.checked, |history.checked|, p.lay.Pv(ram[..]))
      modifies this`history, flash`mem, flash`requests, ram
      ensures Valid() && |flash.mem| == old(|flash.mem|) && SlotSectors(old(flash.mem), base)
      ensures history == old(history).Issue(p.TagNonce(ram[..]), p.lay.Pv(ram[..]))
      ensures p.lay.Pv(ram[..]) == p.lay.Pv(old(ram[..])) && D.Counter(p.lay, ram[..]) >= nv
      ensures ok ==>
        && base + p.lay.TagAt() + TAG_LEN <= |flash.mem| && |p.mac.Tag(p.lay.Pv(old(ram[..])))| == TAG_LEN
        && flash.mem == Patch(old(flash.mem), base + p.lay.TagAt(), p.mac.Tag(p.lay.Pv(old(ram[..]))))
      ensures Faultless() && Sized(base) ==> (ok <==> |p.mac.Tag(p.lay.Pv(old(ram[..])))| == TAG_LEN)
      ensures |p.mac.Tag(p.lay.Pv(old(ram[..])))| != TAG_LEN ==> flash.mem == old(flash.mem)
    {
      assert SlotValid(base);
      ghost var img := ram[..];
      AfterIssue(p, history, p.TagNonce(img), p.lay.Pv(img));
      history := history.Issue(p.TagNonce(img), p.lay.Pv(img));
      ok := DoBindingMac(ram, p.lay, p.mac, flash, base, reliable);
      HeaderOnly(p.lay, img, ram[..]);
    }

    method BindEncrypted(base: nat) returns (ok: bool)
      requires Valid() && base in bases && p.lay.binding && p.lay.encryption && D.Counter(p.lay, ram[..]) >= nv
      requires PvChecked(p.lay, history.checked, |history.checked|, p.lay.Pv(ram[..]))
      modifies this`history, flash`mem, flash`requests, ram
      ensures Valid() && |flash.mem| == old(|flash.mem|) && SlotSectors(old(flash.mem), base)
      ensures history == old(history).Issue(p.TagNonce(ram[..]), p.lay.Pv(ram[..]))
      ensures p.lay.Pv(ram[..]) == p.lay.Pv(old(ram[..])) && D.Counter(p.lay, ram[..]) >= nv
      ensures ok ==> base + p.lay.End() <= |flash.mem| && p.lay.PvLen() < MAX_PAYLOAD
      ensures ok ==> flash.mem == BoundFlash(p.lay, p.ccm, old(flash.mem), base, old(ram[..]))
      ensures Faultless() && Sized(base) ==> ok
    {
      assert SlotValid(base);
      ghost var img := ram[..];
      AfterIssue(p, history, p.TagNonce(img), p.lay.Pv(img));
      history := history.Issue(p.TagNonce(img), p.lay.Pv(img));
      ok := DoBindingCcm(ram, p.lay, p.ccm, flash, base, reliable);
      HeaderOnly(p.lay, img, ram[..]);
    }

    /** Flash holds the image that was at `base`, bound. */
    ghost predicate BoundFrom(mem: Bytes, base: nat)
      requires p.lay.binding && p.lay.encryption && p.Lawful() && base + p.lay.End() <= |mem|
      reads flash
    {
      flash.mem == BoundFlash(p.lay, p.ccm, mem, base, p.Loaded(p.lay.At(mem, base)))
    }

    /** The branch of bl1_2_validate_image taken while no tag is present: decrypt, verify, bind. */
    method FirstBootEncrypted(base: nat) returns (ok: bool)
      requires Valid() && base in bases && p.lay.binding && p.lay.encryption
      modifies this`history, flash`mem, flash`requests, ram
      ensures Valid() && Grew(old(history)) && |flash.mem| == old(|flash.mem|)
      ensures ok ==> Trusted(ram[..])
      ensures SlotSectors(old(flash.mem), base)
      ensures ok ==>
        && base + p.lay.End() <= |flash.mem| && p.Acceptable(nv, p.lay.At(old(flash.mem), base))
        && BoundFrom(old(flash.mem), base)
        && p.lay.Pv(ram[..]) == p.lay.Pv(p.Loaded(p.lay.At(old(flash.mem), base)))
      ensures Faultless() && Sized(base) && p.Acceptable(nv, p.lay.At(old(flash.mem), base)) ==> ok
      ensures Faultless() && Sized(base) && !ok ==> flash.mem == old(flash.mem)
    {
      assert SlotValid(base);
      ghost var mem0 := flash.mem;
      ok := D.CopyAndDecrypt(flash, base, mapped, p.lay, p.cipher, ram, reliable);
      if !ok {
        return;
      }
      ghost var img := ram[..];
      PolicyPrefix(p.lay, p.keys, img);
      BoundPrefix(p.lay, p.ccm, mem0, base, img);
      ok := ValidateAtAddr();
      if ok {
        ok := BindEncrypted(base);
      }
    }

    /** The branch taken when a tag is present: copy, authenticate and decrypt in place, check the counter. */
    method LaterBootEncrypted(base: nat) returns (ok: bool)
      requires Valid() && base in bases && p.lay.binding && p.lay.encryption
      modifies flash`requests, ram
      ensures Valid()
      ensures ok ==> Trusted(ram[..])
      ensures Faultless() && Sized(base) ==> (ok <==> p.Reopens(nv, p.lay.At(flash.mem, base)))
      ensures Faultless() && Sized(base) && ok
        ==> p.lay.Pv(ram[..]) == p.lay.Pv(Opened(p.lay, p.ccm, p.lay.At(flash.mem, base)))
    {
      CopyImage(base);
      ghost var before := ram[..];
      OpenedPrefix(p.lay, p.ccm, before);
      OpenedTag(p.lay, p.ccm, before);
      ok := ValidateCcm(ram, p.lay, p.ccm, reliable);
      if ok {
        ok := IsCounterValid();
      }
    }

    /** bl1_2_validate_image with binding and encryption; the bytes of the tag in flash decide which branch. */
    method ValidateBoundEncrypted(base: nat) returns (ok: bool)
      requires Valid() && base in bases && p.lay.binding && p.lay.encryption
      modifies this`history, flash`mem, flash`requests, ram
      ensures Valid() && Grew(old(history)) && |flash.mem| == old(|flash.mem|)
      ensures ok ==> Trusted(ram[..])
      ensures SlotSectors(old(flash.mem), base)
      ensures Faultless() && Sized(base) ==> Verdicted(old(flash.mem), base, ok)
      ensures base + p.lay.End() <= |flash.mem| && (exists k :: 0 <= k < 16 && SlotTag(old(flash.mem), base)[k] != 0)
        ==> flash.mem == old(flash.mem)
      ensures Faultless() && Sized(base) && (exists k :: 0 <= k < 16 && SlotTag(old(flash.mem), base)[k] != 0) ==>
        (ok <==>
          && (var img := p.lay.At(old(flash.mem), base);
            SlotTag(old(flash.mem), base) == p.ccm.tag(p.lay.Nonce(img), p.ccm.open(p.lay.Nonce(img), p.lay.Pv(img))))
          && D.Counter(p.lay, Opened(p.lay, p.ccm, p.lay.At(old(flash.mem), base))) >= nv)
      ensures Faultless() && Sized(base) && (forall k :: 0 <= k < 16 ==> SlotTag(old(flash.mem), base)[k] == 0) ==>
        (ok <==> p.Acceptable(nv, p.lay.At(old(flash.mem), base)))
    {
      if base + p.lay.End() <= |flash.mem| {
        p.BootsMeans(nv, p.lay.At(flash.mem, base));
        SlotTagPresent(flash.mem, base);
        OpenedTag(p.lay, p.ccm, p.lay.At(flash.mem, base));
      }
      ok := BranchEncrypted(base);
    }

    method BranchEncrypted(base: nat) returns (ok: bool)
      requires Valid() && base in bases && p.lay.binding && p.lay.encryption
      modifies this`history, flash`mem, flash`requests, ram
      ensures Valid() && Grew(old(history)) && |flash.mem| == old(|flash.mem|)
      ensures ok ==> Trusted(ram[..])
      ensures SlotSectors(old(flash.mem), base)
      ensures Faultless() && Sized(base) ==> Verdicted(old(flash.mem), base, ok)
      ensures base + p.lay.End() <= |flash.mem| && TagPresent(p.lay, p.lay.At(old(flash.mem), base))
        ==> flash.mem == old(flash.mem)
    {
      ok := CopyHeader(base);
      if !ok {
        return;
      }
      if base + p.lay.End() <= |flash.mem| {
        HeaderTag(p.lay, ram[..], flash.mem, base);
      }
      if TagPresent(p.lay, ram[..]) {
        ok := LaterBootEncrypted(base);
      } else {
        ok := FirstBootEncrypted(base);
      }
    }

    /** copy_image_header. */
    method CopyHeader(base: nat) returns (ok: bool)
      requires Valid() && base in bases && p.lay.encryption
      modifies flash`requests, ram
      ensures Valid()
      ensures ok ==>
        base + p.lay.PvAt() <= |flash.mem| && ram[..p.lay.PvAt()] == flash.mem[base..base + p.lay.PvAt()]
      ensures Faultless() && base + p.lay.End() <= |flash.mem| ==> ok
    {
      assert SlotValid(base);
      if mapped {
        W.CopyInto(ram, 0, flash.mem[base..base + p.lay.PvAt()]);
        ok := true;
      } else {
        var n := p.lay.EncAt() + 4;
        ok := CopyToSram(flash, base, n, ram);
        assert ok ==> ram[..p.lay.PvAt()] == ram[..n][..p.lay.PvAt()];
        assert ok ==> flash.mem[base..base + p.lay.PvAt()] == flash.mem[base..base + n][..p.lay.PvAt()];
      }
    }

    /** RAM holds the protected values that booting slot id out of mem starts, and flash what that leaves. */
    ghost predicate Booted(mem: Bytes, id: nat)
      requires p.Lawful() && p.lay.End() <= ram.Length
      reads ram, flash
    {
      && id < |bases| && bases[id] + p.lay.End() <= |mem|
      && p.lay.Pv(ram[..]) == p.StartedPv(p.lay.At(mem, bases[id]))
      && Left(mem, bases[id])
    }

    /** bl1_2_validate_image, in whichever of its four variants is built. */
    method ValidateImage(id: nat) returns (ok: bool)
      requires Valid() && id < |bases|
      modifies this`history, flash`mem, flash`requests, ram
      ensures Valid() && Grew(old(history)) && |flash.mem| == old(|flash.mem|)
      ensures ok ==> Trusted(ram[..])
      ensures SlotSectors(old(flash.mem), bases[id]) && (!p.lay.binding ==> flash.mem == old(flash.mem))
      ensures Faultless() && Sized(bases[id]) ==>
        && (ok <==> SlotBoots(p, bases, old(flash.mem), nv, id))
        && if ok then Booted(old(flash.mem), id) else flash.mem == old(flash.mem)
    {
      if !p.lay.binding {
        ok := ValidateUnbound(bases[id]);
      } else if p.lay.encryption {
        ok := ValidateBoundEncrypted(bases[id]);
      } else {
        ok := ValidateBound(bases[id]);
      }
    }

    /** Every slot is sized so that a fault-free boot cannot fall short. */
    ghost predicate AllSized()
      reads flash
    {
      forall b | b in bases :: Sized(b)
    }

    /** What a start adds to the history. */
    ghost function Entry(img: Bytes): Jump
      requires p.lay.End() <= |img|
      reads this
    {
      Jump(img, nv, Forged(img), |history.checked|)
    }

    lemma EntryMeans(img: Bytes)
      requires p.lay.End() <= |img|
      ensures var j := Entry(img);
        && j.img == img && j.nv == nv && j.checks == |history.checked|
        && (!p.lay.binding ==> !j.forged)
        && (p.lay.binding && p.lay.encryption ==> (j.forged <==>
          && p.lay.Tag(img) == p.ccm.tag(p.lay.Nonce(img), p.lay.Pv(img))
          && (p.lay.Nonce(img), p.lay.Pv(img)) !in history.issued))
        && (p.lay.binding && !p.lay.encryption ==> (j.forged <==>
          && p.lay.Tag(img) == p.mac.cmac(p.mac.hash(p.lay.Pv(img)))
          && ([], p.lay.Pv(img)) !in history.issued))
    {
    }

    /** The slots share no sector. */
    ghost predicate Disjoint(a: nat, b: nat)
      requires flash.sectorSize > 0
    {
      AlignUp(a + p.lay.End(), flash.sectorSize) <= b || b + p.lay.End() <= AlignDown(a, flash.sectorSize)
    }

    /** The pass offers a rollback slot that boots and shares no sector with the selected one. */
    ghost predicate Rescued(pass: Pass, mem: Bytes)
      requires Valid() && pass.selected < |bases| && pass.rolledBackTo < |bases| && |mem| == |flash.mem|
      reads this, flash
    {
      var b := bases[pass.rolledBackTo];
      && pass.preLoad && pass.preLoadAgain && Disjoint(bases[pass.selected], b)
      && Sized(b) && SlotBoots(p, bases, mem, nv, pass.rolledBackTo)
    }

    /** Whatever a failing validation of the selected slot did, the rollback slot is as it was. */
    lemma SlotKept(before: Bytes, pass: Pass)
      requires Valid() && pass.selected < |bases| && pass.rolledBackTo < |bases| && |before| == |flash.mem|
      ensures SlotSectors(before, bases[pass.selected]) && Rescued(pass, before)
        ==> SlotBoots(p, bases, flash.mem, nv, pass.rolledBackTo)
    {
      var b := bases[pass.rolledBackTo];
      if SlotSectors(before, bases[pass.selected]) && Rescued(pass, before) {
        forall i | b <= i < b + p.lay.End() ensures flash.mem[i] == before[i] {
        }
        assert p.lay.At(flash.mem, b) == p.lay.At(before, b);
      }
    }

    /** What the boot loop needs to know of a validation. */
    method TrySlot(id: nat, ghost boots: bool) returns (ok: bool)
      requires Valid() && id < |bases| && boots == SlotBoots(p, bases, flash.mem, nv, id)
      modifies this`history, flash`mem, flash`requests, ram
      ensures Valid() && |flash.mem| == old(|flash.mem|) && SlotSectors(old(flash.mem), bases[id])
      ensures history.started == old(history).started && old(history).checked <= history.checked
      ensures ok ==> Trusted(ram[..])
      ensures Faultless() && Sized(bases[id]) ==>
        ok == boots && if ok then Booted(old(flash.mem), id) else flash.mem == old(flash.mem)
    {
      ok := ValidateImage(id);
    }

    /** One pass of the loop in main: select, validate, roll back and recover. */
    method RunPass(pass: Pass, ghost good: set<nat>) returns (step: Step, ghost slot: nat)
      requires Valid() && pass.selected < |bases| && pass.rolledBackTo < |bases|
      requires good == Good(p, bases, flash.mem, nv)
      modifies this`history, flash`mem, flash`requests, ram
      ensures Valid() && |flash.mem| == old(|flash.mem|)
      ensures history.started == old(history).started && old(history).checked <= history.checked
      ensures step == Started ==> Trusted(ram[..])
      ensures Faultless() && AllSized() ==>
        && (step == Started <==> Finds(pass, good)) && (step == GoOn <==> Passes(pass, good))
        && (step != Started ==> flash.mem == old(flash.mem)) && (step != Started ==> slot == 0)
        && (step == Started ==> slot == Found(pass, good) && Booted(old(flash.mem), slot))
      ensures Faultless() && old(Rescued(pass, flash.mem)) ==> step == Started
    {
      slot := pass.selected;
      if !pass.preLoad {
        return Stopped, 0;
      }
      ghost var mem0, rescued := flash.mem, Rescued(pass, flash.mem);
      ghost var first, second := pass.selected in good, pass.rolledBackTo in good;
      assert bases[pass.selected] in bases && bases[pass.rolledBackTo] in bases;
      var ok := TrySlot(pass.selected, first);
      if !ok {
        if !pass.preLoadAgain {
          return Stopped, 0;
        }
        if rescued {
          SlotKept(mem0, pass);
        }
        slot := pass.rolledBackTo;
        ok := TrySlot(pass.rolledBackTo, SlotBoots(p, bases, flash.mem, nv, pass.rolledBackTo));
      }
      if !ok {
        return if pass.recovery then GoOn else Stopped, 0;
      }
      step := Started;
    }

    /** The loop of main: passes until an image is accepted or the platform gives up. */
    method RunPasses(passes: seq<Pass>, ghost good: set<nat>) returns (step: Step, ghost slot: nat)
      requires Valid() && good == Good(p, bases, flash.mem, nv)
      requires forall p | p in passes :: p.selected < |bases| && p.rolledBackTo < |bases|
      modifies this`history, flash`mem, flash`requests, ram
      ensures Valid() && |flash.mem| == old(|flash.mem|)
      ensures history.started == old(history).started && old(history).checked <= history.checked
      ensures step == Started ==> Trusted(ram[..])
      ensures Faultless() && AllSized() ==>
        && Verdict(passes, 0, good) == Result(step, slot)
        && if step == Started then Booted(old(flash.mem), slot) else flash.mem == old(flash.mem)
      ensures Faultless() && passes != [] && old(passes != [] && Rescued(passes[0], flash.mem)) ==> step == Started
    {
      ghost var mem0 := flash.mem;
      ghost var exact, rescued := Faultless() && AllSized(), passes != [] && Rescued(passes[0], flash.mem);
      step, slot := GoOn, 0;
      var k := 0;
      while k < |passes| && step == GoOn
        invariant 0 <= k <= |passes|
        invariant Valid() && |flash.mem| == |mem0|
        invariant history.started == old(history).started && old(history).checked <= history.checked
        invariant step == Started ==> Trusted(ram[..])
        invariant exact && step == GoOn ==> slot == 0 && Verdict(passes, 0, good) == Verdict(passes, k, good)
        invariant exact && step != Started ==> flash.mem == mem0
        invariant exact && step != GoOn ==> Verdict(passes, 0, good) == Result(step, slot)
        invariant exact && step == Started ==> Booted(mem0, slot)
        invariant k == 0 ==> flash.mem == mem0 && step == GoOn
        invariant k > 0 && Faultless() && rescued ==> step == Started
      {
        assert passes[k] in passes;
        step, slot := RunPass(passes[k], Good(p, bases, flash.mem, nv));
        k := k + 1;
      }
    }

    /** main: passes until an image is accepted, then the jump. */
    method PowerOn(init: bool, passes: seq<Pass>, postLoad: bool) returns (outcome: Outcome)
      requires Valid()
      requires forall p | p in passes :: p.selected < |bases| && p.rolledBackTo < |bases|
      modifies this`history, flash`mem, flash`requests, ram
      ensures Valid() && |flash.mem| == old(|flash.mem|) && old(history).checked <= history.checked
      ensures outcome == Jumped ==> D.Counter(p.lay, ram[..]) >= nv
      ensures history.started == old(history).started + if outcome == Jumped then [Entry(ram[..])] else []
      ensures Faultless() && AllSized() ==>
        outcome == Ends(init, Verdict(passes, 0, Good(p, bases, old(flash.mem), nv)).step, postLoad)
      ensures Faultless() && AllSized() ==>
        var v := Verdict(passes, 0, Good(p, bases, old(flash.mem), nv));
        if init && v.step == Started then Booted(old(flash.mem), v.slot) else flash.mem == old(flash.mem)
      ensures Faultless() && init && postLoad && passes != [] && old(Rescued(passes[0], flash.mem)) ==>
        outcome == Jumped
    {
      if !init {
        return Panicked;
      }
      ghost var slot;
      var step;
      step, slot := RunPasses(passes, Good(p, bases, flash.mem, nv));
      if step == GoOn {
        return Recovering;
      }
      if step == Stopped || !postLoad {
        return Panicked;
      }
      ghost var entry := Entry(ram[..]);
      AfterStart(p, history, entry, nv);
      history := history.Start(entry);
      return Jumped;
    }

    /**
     * An image with no tag boots and is bound. The next boot, finding only what is in flash, accepts it exactly if
     * its tag is not all zero or the bound slot happens to be acceptable as an unbound image.
     */
    method TwoBoots(base: nat) returns (first: bool, second: bool)
      requires Valid() && base in bases && p.lay.binding && p.lay.encryption
      modifies this`history, flash`mem, flash`requests, ram
      ensures Valid() && |flash.mem| == old(|flash.mem|)
      ensures Faultless() && Sized(base) && p.Unbound(nv, p.lay.At(old(flash.mem), base)) ==>
        var slot := p.BoundSlot(old(flash.mem), base);
        && first && (second <==> TagPresent(p.lay, slot) || p.Acceptable(nv, slot))
        && (TagPresent(p.lay, slot) ==>
          && p.lay.Pv(ram[..]) == p.lay.Pv(p.Loaded(p.lay.At(old(flash.mem), base)))
          && BoundFrom(old(flash.mem), base))
      ensures Faultless() && Sized(base) && p.Unbound(nv, p.lay.At(old(flash.mem), base)) ==>
        var loaded := p.Loaded(p.lay.At(old(flash.mem), base));
        if exists k :: 0 <= k < 16 && p.ccm.tag(p.lay.Nonce(loaded), p.lay.Pv(loaded))[k] != 0 then second
        else second <==> p.Acceptable(nv, p.BoundSlot(old(flash.mem), base))
    {
      ghost var mem0 := flash.mem;
      first := ValidateBoundEncrypted(base);
      if base + p.lay.End() <= |mem0| && p.Unbound(nv, p.lay.At(mem0, base)) {
        p.SecondVerdict(nv, mem0, base);
        TagPresentIff(p.lay, p.BoundSlot(mem0, base));
      }
      second := ValidateBoundEncrypted(base);
    }

    /** Without encryption an image that was bound is always accepted by the next boot. */
    method PlainTwoBoots(base: nat) returns (first: bool, second: bool)
      requires Valid() && base in bases && p.lay.binding && !p.lay.encryption
      modifies this`history, flash`mem, flash`requests, ram
      ensures Valid() && |flash.mem| == old(|flash.mem|)
      ensures Faultless() && Sized(base) && p.Unbound(nv, p.lay.At(old(flash.mem), base)) ==>
        && (first <==> |p.mac.Tag(p.lay.Pv(p.lay.At(old(flash.mem), base)))| == TAG_LEN) && second == first
        && (second ==> p.lay.Pv(ram[..]) == p.lay.Pv(p.lay.At(old(flash.mem), base)) && Left(old(flash.mem), base))
    {
      ghost var mem0 := flash.mem;
      if base + p.lay.End() <= |mem0| {
        ghost var img := p.lay.At(mem0, base);
        ghost var tag := p.mac.Tag(p.lay.Pv(img));
        if p.Acceptable(nv, img) && |tag| == TAG_LEN {
          p.SecondPlainVerdict(nv, mem0, base, img, tag);
          if !TagPresent(p.lay, img) {
            p.BootsOn(nv, mem0, base);
          }
        }
      }
      first := ValidateBound(base);
      second := ValidateBound(base);
    }

    /**
     * Any number of boots, with nothing changed in between. If the slot the platform selects boots, and is not about
     * to get a CCM tag of zeros, then all of them start the same protected values out of it, and flash stays what
     * the first boot made of it.
     */
    method ManyBoots(n: nat, passes: seq<Pass>)
      requires Valid() && passes != [] && passes[0].preLoad
      requires forall p | p in passes :: p.selected < |bases| && p.rolledBackTo < |bases|
      modifies this`history, flash`mem, flash`requests, ram
      ensures Valid() && |flash.mem| == old(|flash.mem|)
      ensures Faultless() && AllSized() && LastingSlot(old(flash.mem), passes[0].selected) ==>
        && flash.mem == (if n == 0 then old(flash.mem) else p.FlashAfter(old(flash.mem), bases[passes[0].selected]))
        && AllStarted(old(history).started, n, p.StartedPv(p.lay.At(old(flash.mem), bases[passes[0].selected])))
    {
      ghost var mem0, started0, id := flash.mem, history.started, passes[0].selected;
      ghost var lasting := Faultless() && AllSized() && LastingSlot(mem0, id);
      if lasting {
        p.BootsOn(nv, mem0, bases[id]);
      }
      for k := 0 to n
        invariant Valid() && |flash.mem| == |mem0|
        invariant lasting ==> flash.mem == if k == 0 then mem0 else p.FlashAfter(mem0, bases[id])
        invariant lasting ==> AllStarted(started0, k, p.StartedPv(p.lay.At(mem0, bases[id])))
      {
        ghost var started := history.started;
        ghost var j := BootOnce(passes);
        assert lasting ==> history.started[..|started|] == started;
      }
    }

    /** One of them. */
    method BootOnce(passes: seq<Pass>) returns (ghost j: Jump)
      requires Valid() && passes != [] && passes[0].preLoad
      requires forall p | p in passes :: p.selected < |bases| && p.rolledBackTo < |bases|
      modifies this`history, flash`mem, flash`requests, ram
      ensures Valid() && |flash.mem| == old(|flash.mem|)
      ensures Faultless() && AllSized() && LastingSlot(old(flash.mem), passes[0].selected) ==>
        && Left(old(flash.mem), bases[passes[0].selected])
        && history.started == old(history).started + [j] && p.lay.End() <= |j.img|
        && p.lay.Pv(j.img) == p.StartedPv(p.lay.At(old(flash.mem), bases[passes[0].selected]))
    {
      var outcome := PowerOn(true, passes, true);
      j := Entry(ram[..]);
    }

    ghost predicate LastingSlot(mem: Bytes, id: nat)
      requires p.Lawful()
      reads this
    {
      id < |bases| && bases[id] + p.lay.End() <= |mem| && p.Lasting(nv, mem, bases[id])
    }

    /** Since `before`, exactly n images were started, all with these protected values. */
    ghost predicate AllStarted(before: seq<Jump>, n: nat, pv: Bytes)
      reads this
    {
      && |history.started| == |before| + n && before <= history.started
      && (forall k | |before| <= k < |history.started| ::
        p.lay.End() <= |history.started[k].img| && p.lay.Pv(history.started[k].img) == pv)
    }

    /** Between two boots flash and RAM may be replaced, and the NV counter may rise. */
    method Tamper(c: Cycle)
      requires Valid()
      modifies this`nv, flash`mem, ram
      ensures Valid() && |flash.mem| == old(|flash.mem|) && nv == old(nv) + c.nvRise
      ensures |c.flash| == |flash.mem| ==> flash.mem == c.flash
    {
      if |c.flash| == |flash.mem| {
        flash.mem := c.flash;
      }
      forall i | 0 <= i < ram.Length && i < |c.ram| {
        ram[i] := c.ram[i];
      }
      nv := nv + c.nvRise;
    }

    /** One power cycle. */
    method RunCycle(c: Cycle) returns (outcome: Outcome, ghost j: Jump)
      requires Valid()
      requires forall p | p in c.passes :: p.selected < |bases| && p.rolledBackTo < |bases|
      modifies this, flash`mem, flash`requests, ram
      ensures Valid() && |flash.mem| == old(|flash.mem|) && nv == old(nv) + c.nvRise == j.nv
      ensures j == Entry(ram[..])
      ensures history.started == old(history).started + if outcome == Jumped then [j] else []
      ensures Faultless() && AllSized() && |c.flash| == |flash.mem| ==> outcome == Expected(c, nv)
    {
      Tamper(c);
      outcome := PowerOn(c.init, c.passes, c.postLoad);
      j := Entry(ram[..]);
    }

    /** What a cycle comes to on a device without faults. */
    ghost function Expected(c: Cycle, nv: nat): Outcome
      requires p.Lawful()
    {
      Ends(c.init, Verdict(c.passes, 0, Good(p, bases, c.flash, nv)).step, c.postLoad)
    }

    ghost function ExpectedRun(cycles: seq<Cycle>, nv: nat, k: nat): seq<Outcome>
      requires p.Lawful() && k <= |cycles|
    {
      if k == 0 then [] else ExpectedRun(cycles, nv, k - 1) + [Expected(cycles[k - 1], NvAfter(nv, cycles, k))]
    }
  }

  /** One power cycle: what flash and RAM hold by then, how far the NV counter rose, and the platform's answers. */
  datatype Cycle = Cycle(flash: Bytes, ram: Bytes, nvRise: nat, init: bool, passes: seq<Pass>, postLoad: bool)

  predicate SameSize(cycles: seq<Cycle>, size: nat) {
    forall k | 0 <= k < |cycles| :: |cycles[k].flash| == size
  }

  function Jumps(outcomes: seq<Outcome>): nat {
    if outcomes == [] then 0
    else Jumps(outcomes[..|outcomes| - 1]) + if outcomes[|outcomes| - 1] == Jumped then 1 else 0
  }

  function NvAfter(nv: nat, cycles: seq<Cycle>, k: nat): nat
    requires k <= |cycles|
  {
    if k == 0 then nv else NvAfter(nv, cycles, k - 1) + cycles[k - 1].nvRise
  }

  /** From entry `from` on, the history has one start for each outcome that is a jump, in order. */
  ghost predicate Ledger(started: seq<Jump>, from: nat, outcomes: seq<Outcome>, cycles: seq<Cycle>, nv: nat)
    requires |outcomes| <= |cycles|
  {
    && |started| == from + Jumps(outcomes)
    && (forall k | 0 <= k < |outcomes| && outcomes[k] == Jumped ::
      var at := from + Jumps(outcomes[..k]);
      at < |started| && started[at].nv == NvAfter(nv, cycles, k + 1))
  }

  lemma LedgerStep(started: seq<Jump>, from: nat, outcomes: seq<Outcome>, cycles: seq<Cycle>, nv: nat, o: Outcome,
      j: Jump)
    requires |outcomes| < |cycles| && Ledger(started, from, outcomes, cycles, nv)
    requires j.nv == NvAfter(nv, cycles, |outcomes| + 1)
    ensures Ledger(started + if o == Jumped then [j] else [], from, outcomes + [o], cycles, nv)
  {
    var n, more := |outcomes|, outcomes + [o];
    assert more[..n] == outcomes;
    forall k | 0 <= k < n ensures more[..k] == outcomes[..k] {
    }
  }

  /**
   * Any sequence of power cycles, with flash and RAM replaced arbitrarily before each. Every jump is in the history,
   * in order, the history is genuine and safe, which Valid says, and without faults each outcome is decided by what
   * flash holds.
   */
  method RunBoots(d: Device, cycles: seq<Cycle>) returns (outcomes: seq<Outcome>)
    requires d.Valid()
    requires forall c, p | c in cycles && p in c.passes :: p.selected < |d.bases| && p.rolledBackTo < |d.bases|
    modifies d, d.flash`mem, d.flash`requests, d.ram
    ensures d.Valid() && |outcomes| == |cycles| && old(d.history).started <= d.history.started
    ensures Ledger(d.history.started, |old(d.history).started|, outcomes, cycles, old(d.nv))
    ensures d.Faultless() && d.AllSized() && SameSize(cycles, |d.flash.mem|) ==>
      outcomes == d.ExpectedRun(cycles, old(d.nv), |cycles|)
  {
    outcomes := [];
    ghost var exact := d.Faultless() && d.AllSized() && SameSize(cycles, |d.flash.mem|);
    ghost var from, nv0 := |d.history.started|, d.nv;
    for n := 0 to |cycles|
      invariant d.Valid() && |d.flash.mem| == old(|d.flash.mem|) && |outcomes| == n && d.nv == NvAfter(nv0, cycles, n)
      invariant old(d.history).started <= d.history.started
      invariant Ledger(d.history.started, from, outcomes, cycles, nv0)
      invariant exact ==> outcomes == d.ExpectedRun(cycles, nv0, n)
    {
      var c := cycles[n];
      assert c in cycles;
      ghost var started := d.history.started;
      var outcome, j := d.RunCycle(c);
      LedgerStep(started, from, outcomes, cycles, nv0, outcome, j);
      outcomes := outcomes + [outcome];
    }
  }

  lemma ZeroTagSizes()
    ensures var p := ZeroTagPlatform();
      p.Lawful() && p.lay.binding && p.lay.encryption && p.lay.End() == p.lay.RawLen() == 50 && p.lay.PvLen() == 17
      && p.lay.TagAt() == 16
  {
    ZeroTagImageIsUnbound();
  }

  method ZeroTagDevice() returns (d: Device)
    ensures fresh(d) && fresh(d.flash) && fresh(d.ram) && d.Valid() && d.Faultless() && d.Sized(0)
    ensures d.p == ZeroTagPlatform() && d.bases == [0] && d.nv == 0
    ensures |d.flash.mem| == 2048 && d.flash.mem[0..50] == ZeroTagImage()
  {
    ZeroTagSizes();
    var p, mem := ZeroTagPlatform(), ZeroTagImage() + Fill(1998, 0xFF);
    assert mem[0..50] == ZeroTagImage();
    var flash := new Flash(2048, 1, 1, 0xFF, (was, data) => data, true, true, mem);
    var ram := new byte[50];
    assert TagFits(p.lay, flash, 0);
    d := new Device(p, flash, ram, [0], false, 0, 0, true);
  }

  /** A sound device with a sound image whose tag is all zero: it boots once, and not again. */
  method BootsOnlyOnce() returns (first: bool, second: bool)
    ensures first && !second
  {
    var d := ZeroTagDevice();
    ZeroTagSizes();
    ghost var mem, p := d.flash.mem, d.p;
    ZeroTagStopsSecondBoot(mem);
    p.BootsMeans(0, p.BoundSlot(mem, 0));
    assert 0 in d.bases;
    first, second := d.TwoBoots(0);
  }
}
