/**
 * The CMSIS flash driver that both boot stages are written against, as a state machine over its cells.
 * Every call may fail. A failing call leaves the addressed bytes arbitrary and all others alone.
 */
module FlashDevice {
  import opened Bytes

  /** What a cell holds after `data` is programmed over `old`. */
  type CellRule = (byte, byte) -> byte

  /** `mem` after `data` has been programmed at `dst`. */
  function BurnAt(cell: CellRule, mem: Bytes, dst: nat, data: Bytes): (r: Bytes)
    requires dst + |data| <= |mem|
    ensures |r| == |mem|
    ensures forall i {:trigger r[i]} :: 0 <= i < |mem| ==>
      r[i] == if dst <= i < dst + |data| then cell(mem[i], data[i - dst]) else mem[i]
  {
    seq(|mem|, i requires 0 <= i < |mem| => if dst <= i < dst + |data| then cell(mem[i], data[i - dst]) else mem[i])
  }

  /** The `n` cells from `addr` on hold the erased value `v`. */
  ghost predicate Blank(mem: Bytes, addr: nat, n: nat, v: byte) {
    addr + n <= |mem| && forall i :: addr <= i < addr + n ==> mem[i] == v
  }

  /** Programming erased cells stores exactly the data. */
  lemma BurnBlank(cell: CellRule, mem: Bytes, dst: nat, data: Bytes, erased: byte)
    requires Blank(mem, dst, |data|, erased)
    requires forall d :: cell(erased, d) == d
    ensures BurnAt(cell, mem, dst, data) == Patch(mem, dst, data)
  {
    forall i | dst <= i < dst + |data| ensures cell(mem[i], data[i - dst]) == data[i - dst] {
      assert cell(mem[i], data[i - dst]) == cell(erased, data[i - dst]);
    }
  }

  class Flash {
    const sectorSize: nat
    const programUnit: nat
    const dataWidth: nat
    const erased: byte
    /** Programming an erased cell stores the data, and programming a cell with its own value keeps it. */
    const cell: CellRule
    /** CMSIS drivers return the number of items moved; some platforms return ARM_DRIVER_OK (0) instead. */
    const countsItems: bool
    /** A reliable driver never fails a legal request. */
    const reliable: bool
    var mem: Bytes
    /** Every read request so far: byte address and byte length. */
    ghost var requests: seq<(nat, nat)>

    ghost predicate Valid()
      reads this
    {
      && sectorSize > 0 && programUnit > 0 && sectorSize % programUnit == 0 && dataWidth in {1, 2, 4}
      && |mem| % sectorSize == 0
      && (forall d :: cell(erased, d) == d)
      && (forall v :: cell(v, v) == v)
    }

    constructor (sectorSize: nat, programUnit: nat, dataWidth: nat, erased: byte, cell: CellRule,
                 countsItems: bool, reliable: bool, mem: Bytes)
      requires sectorSize > 0 && programUnit > 0 && sectorSize % programUnit == 0 && dataWidth in {1, 2, 4}
      requires |mem| % sectorSize == 0
      requires forall d :: cell(erased, d) == d
      requires forall v :: cell(v, v) == v
      ensures Valid() && this.mem == mem && requests == []
      ensures this.sectorSize == sectorSize && this.programUnit == programUnit && this.dataWidth == dataWidth
      ensures this.erased == erased && this.cell == cell
      ensures this.countsItems == countsItems && this.reliable == reliable
    {
      this.sectorSize, this.programUnit, this.dataWidth := sectorSize, programUnit, dataWidth;
      this.erased, this.cell := erased, cell;
      this.countsItems, this.reliable := countsItems, reliable;
      this.mem, this.requests := mem, [];
    }

    /** Return code of a successful transfer of `cnt` items. */
    function Done(cnt: nat): int {
      if countsItems then cnt else 0
    }

    /** Reads `cnt` items into `buf` from index `at` on. */
    method ReadData(addr: nat, buf: array<byte>, at: nat, cnt: nat) returns (rc: int)
      requires Valid()
      requires addr % dataWidth == 0
      requires at + cnt * dataWidth <= buf.Length
      modifies buf, this`requests
      ensures Valid() && requests == old(requests) + [(addr, cnt * dataWidth)]
      ensures rc >= 0 ==>
        && rc == Done(cnt) && addr + cnt * dataWidth <= |mem|
        && buf[..] == Patch(old(buf[..]), at, mem[addr..addr + cnt * dataWidth])
      ensures rc < 0 ==> SameOutside(old(buf[..]), buf[..], at, at + cnt * dataWidth)
      ensures reliable && addr + cnt * dataWidth <= |mem| ==> rc >= 0
    {
      requests := requests + [(addr, cnt * dataWidth)];
      var ok: bool := *;
      var n := cnt * dataWidth;
      if addr + n <= |mem| && (ok || reliable) {
        forall i | 0 <= i < n {
          buf[at + i] := mem[addr + i];
        }
        rc := Done(cnt);
        assert buf[..] == Patch(old(buf[..]), at, mem[addr..addr + n]);
      } else {
        var junk: Bytes := *;
        forall i | 0 <= i < n && i < |junk| {
          buf[at + i] := junk[i];
        }
        rc := -1;
      }
    }

    /** Programs `cnt` items taken from the front of `data`. */
    method ProgramData(addr: nat, data: Bytes, cnt: nat) returns (rc: int)
      requires Valid()
      requires cnt * dataWidth <= |data|
      modifies this`mem
      ensures Valid() && |mem| == old(|mem|)
      ensures rc >= 0 ==>
        && rc == Done(cnt) && addr + cnt * dataWidth <= |mem|
        && mem == BurnAt(cell, old(mem), addr, data[..cnt * dataWidth])
      ensures rc < 0 ==> SameOutside(old(mem), mem, addr, addr + cnt * dataWidth)
      ensures reliable && Blank(old(mem), addr, cnt * dataWidth, erased) ==> rc >= 0
    {
      var ok: bool := *;
      var n := cnt * dataWidth;
      if addr + n <= |mem| && (ok || reliable) {
        mem := BurnAt(cell, mem, addr, data[..n]);
        rc := Done(cnt);
      } else {
        var junk: Bytes := *;
        if addr + |junk| <= |mem| && |junk| <= n {
          mem := Patch(mem, addr, junk);
        }
        rc := -1;
      }
    }

    /** ReadData of a byte-wide device, as BL1_2 uses it: the item count is a byte count. */
    method ReadBytes(addr: nat, buf: array<byte>, at: nat, n: nat) returns (rc: int)
      requires Valid() && dataWidth == 1
      requires at + n <= buf.Length
      modifies buf, this`requests
      ensures Valid()
      ensures rc >= 0 ==> rc == Done(n) && addr + n <= |mem| && buf[..] == Patch(old(buf[..]), at, mem[addr..addr + n])
      ensures rc < 0 ==> SameOutside(old(buf[..]), buf[..], at, at + n)
      ensures reliable && addr + n <= |mem| ==> rc >= 0
    {
      assert addr % 1 == 0 && n * 1 == n;
      rc := ReadData(addr, buf, at, n);
    }

    /** ProgramData of a byte-wide device. */
    method ProgramBytes(addr: nat, data: Bytes) returns (rc: int)
      requires Valid() && dataWidth == 1
      modifies this`mem
      ensures Valid() && |mem| == old(|mem|)
      ensures rc >= 0 ==>
        && rc == Done(|data|) && addr + |data| <= |mem|
        && mem == BurnAt(cell, old(mem), addr, data)
      ensures rc < 0 ==> SameOutside(old(mem), mem, addr, addr + |data|)
      ensures reliable && Blank(old(mem), addr, |data|, erased) ==> rc >= 0
    {
      assert |data| * 1 == |data| && data[..|data|] == data;
      rc := ProgramData(addr, data, |data|);
    }

    /** Erases the sector that starts at `addr`. */
    method EraseSector(addr: nat) returns (rc: int)
      requires Valid()
      modifies this`mem
      ensures Valid() && |mem| == old(|mem|)
      ensures rc <= 0
      ensures rc == 0 ==>
        && addr % sectorSize == 0 && addr + sectorSize <= |mem|
        && mem == Patch(old(mem), addr, Fill(sectorSize, erased))
      ensures rc < 0 ==> SameOutside(old(mem), mem, addr, addr + sectorSize)
      ensures reliable && addr % sectorSize == 0 && addr + sectorSize <= |mem| ==> rc == 0
    {
      var ok: bool := *;
      if addr % sectorSize == 0 && addr + sectorSize <= |mem| && (ok || reliable) {
        mem := Patch(mem, addr, Fill(sectorSize, erased));
        rc := 0;
      } else {
        var junk: Bytes := *;
        if addr + |junk| <= |mem| && |junk| <= sectorSize {
          mem := Patch(mem, addr, junk);
        }
        rc := -1;
      }
    }
  }
}
