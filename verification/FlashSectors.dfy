/** Sector maps of a flash area (bl2/ext/mcuboot/flash_map_legacy.c, flash_map_extended.c). */
module FlashSectors {
  import opened Bytes
  import opened FlashMap

  datatype Sector = Sector(off: nat, size: nat)

  datatype Lookup = Missing | Found(area: Area)

  /** The first `n` entries tile [0, n * size) without gap or overlap. */
  ghost predicate Tiles(sectors: seq<Sector>, n: nat, size: nat) {
    && n <= |sectors|
    && (forall k :: 0 <= k < n ==> sectors[k].size == size)
    && (n > 0 ==> sectors[0].off == 0)
    && (forall k :: 0 < k < n ==> sectors[k].off == sectors[k - 1].off + sectors[k - 1].size)
  }

  /** flash_area_get_sectors: fills `ret` and returns how many entries it filled. */
  method GetSectors(found: Lookup, size: nat, max: nat, ret: array<Sector>) returns (rc: int, cnt: nat)
    requires size > 0 && max <= ret.Length
    modifies ret
    ensures rc == 0 <==> found.Found? && max >= 1 && (found.area.size % size == 0 || found.area.size / size >= max)
    ensures rc == 0 ==> cnt <= max && Tiles(ret[..], cnt, size) && cnt * size <= found.area.size
    ensures rc == 0 && cnt < max ==> cnt * size == found.area.size
    ensures forall k :: cnt <= k < ret.Length ==> ret[k] == old(ret[k])
    ensures found.Missing? || max < 1 ==> cnt == max && ret[..] == old(ret[..])
  {
    rc, cnt := -1, max;
    if found.Missing? || max < 1 {
      return;
    }
    var rem := found.area.size;
    cnt := 0;
    while rem > 0 && cnt < max
      invariant cnt <= max && rem >= 0 && rem + cnt * size == found.area.size
      invariant forall k :: 0 <= k < cnt ==> ret[k] == Sector(size * k, size)
      invariant forall k :: cnt <= k < ret.Length ==> ret[k] == old(ret[k])
      decreases rem
    {
      if rem < size {
        ModUnique(found.area.size, size, cnt, rem);
        return;
      }
      ret[cnt] := Sector(size * cnt, size);
      cnt := cnt + 1;
      rem := rem - size;
      assert cnt * size == (cnt - 1) * size + size;
    }
    rc := 0;
    if rem == 0 {
      ModUnique(found.area.size, size, cnt, 0);
    } else {
      DivAtLeast(found.area.size, size, cnt);
    }
    forall k | 0 < k < cnt ensures ret[k].off == ret[k - 1].off + ret[k - 1].size {
      assert size * k == size * (k - 1) + size;
    }
  }

  lemma DivAtLeast(v: nat, size: nat, q: nat)
    requires size > 0 && q * size <= v
    ensures v / size >= q
  {
    var d := q - v / size;
    MulBound(d, size);
    assert d * size == q * size - v / size * size;
  }

  lemma DivBelow(v: nat, size: nat, q: nat)
    requires size > 0 && v < q * size
    ensures v / size < q
  {
    var d := q - v / size;
    assert d * size == q * size - v / size * size;
    MulBound(d, size);
  }

  /** flash_area_get_sector on a driver with uniform sectors. */
  function GetSector(off: nat, driverSize: nat): (s: Sector)
    requires driverSize > 0
    ensures s.size == driverSize && s.off % driverSize == 0 && s.off <= off < s.off + driverSize
  {
    MulMod(off / driverSize, driverSize);
    Sector(off / driverSize * driverSize, driverSize)
  }

  /** In a tiling, entry k starts at k sectors. */
  lemma {:induction false} TileAt(sectors: seq<Sector>, n: nat, size: nat, k: nat)
    requires Tiles(sectors, n, size) && k < n
    ensures sectors[k] == Sector(k * size, size)
  {
    if k > 0 {
      TileAt(sectors, n, size, k - 1);
      assert k * size == (k - 1) * size + size;
    }
  }

  /** Where the driver's sector size is the image sector size, both interfaces name the same sector. */
  lemma SectorViewsAgree(sectors: seq<Sector>, n: nat, size: nat, off: nat)
    requires size > 0 && Tiles(sectors, n, size) && off < n * size
    ensures off / size < n && sectors[off / size] == GetSector(off, size)
  {
    DivBelow(off, size, n);
    TileAt(sectors, n, size, off / size);
  }
}
