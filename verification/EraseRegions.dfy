/** Erase regions of a SPI-NOR part: a run of regions from address zero, each with the erase types it allows. */
module EraseRegions {
  import opened PowerOfTwo
  import opened Wrappers

  const MAX_ERASE_INFO := 4

  /** mask holds the bit positions set in erasesizes_mask. */
  datatype Region = Region(size: nat, minErase: nat, maxErase: nat, mask: set<nat>)

  function Min(a: nat, b: nat): nat { if a <= b then a else b }

  /** An erase type never erases more than its region. */
  function Capped(sizes: seq<nat>, i: nat, regionSize: nat): nat
    requires i < |sizes|
  {
    Min(sizes[i], regionSize)
  }

  /** The mask names existing, non-empty erase types only. */
  predicate UsableMask(sizes: seq<nat>, mask: set<nat>) {
    |sizes| == MAX_ERASE_INFO && forall i :: i in mask ==> i < MAX_ERASE_INFO && sizes[i] > 0
  }

  /** lo and hi are the smallest and the largest capped size in the mask, or both zero when it is empty. */
  predicate Extremes(sizes: seq<nat>, mask: set<nat>, regionSize: nat, lo: nat, hi: nat)
    requires UsableMask(sizes, mask)
  {
    if mask == {} then lo == 0 && hi == 0
    else
      && (exists i :: i in mask && Capped(sizes, i, regionSize) == lo)
      && (exists i :: i in mask && Capped(sizes, i, regionSize) == hi)
      && forall i :: i in mask ==> lo <= Capped(sizes, i, regionSize) <= hi
  }

  /** spi_nor_fill_erase_region_erasesizes */
  method FillEraseSizes(sizes: seq<nat>, mask: set<nat>, regionSize: nat) returns (r: Region)
    requires UsableMask(sizes, mask)
    ensures r.size == regionSize && r.mask == mask
    ensures Extremes(sizes, mask, regionSize, r.minErase, r.maxErase)
    ensures mask != {} ==> r.minErase <= r.maxErase <= regionSize
  {
    var lo: nat, hi: nat := 0, 0;
    ghost var seen: set<nat> := {};
    for i := 0 to MAX_ERASE_INFO
      invariant seen == set j | j in mask && j < i
      invariant Extremes(sizes, seen, regionSize, lo, hi)
      invariant lo <= regionSize && hi <= regionSize
    {
      if i in mask {
        ghost var was, lo0, hi0 := seen, lo, hi;
        seen := seen + {i};
        if lo == 0 || lo > sizes[i] {
          lo := Min(sizes[i], regionSize);
        }
        if sizes[i] > hi {
          hi := Min(sizes[i], regionSize);
        }
        AddToExtremes(sizes, was, regionSize, lo0, hi0, i, lo, hi);
      }
    }
    assert seen == mask;
    r := Region(regionSize, lo, hi, mask);
  }

  lemma AddToExtremes(sizes: seq<nat>, seen: set<nat>, regionSize: nat, lo: nat, hi: nat, i: nat, lo': nat, hi': nat)
    requires UsableMask(sizes, seen + {i}) && i !in seen
    requires Extremes(sizes, seen, regionSize, lo, hi)
    requires lo' == if lo == 0 || lo > sizes[i] then Capped(sizes, i, regionSize) else lo
    requires hi' == if sizes[i] > hi then Capped(sizes, i, regionSize) else hi
    requires lo <= regionSize && hi <= regionSize
    ensures Extremes(sizes, seen + {i}, regionSize, lo', hi')
  {
    assert i in seen + {i};
    if seen != {} {
      var a :| a in seen && Capped(sizes, a, regionSize) == lo;
      var b :| b in seen && Capped(sizes, b, regionSize) == hi;
      assert a in seen + {i} && b in seen + {i};
    }
  }

  /** Address at which region k starts. */
  function Base(regions: seq<Region>, k: nat): nat
    requires k <= |regions|
  {
    if k == 0 then 0 else Base(regions, k - 1) + regions[k - 1].size
  }

  function TotalSize(regions: seq<Region>): nat { Base(regions, |regions|) }

  function End(regions: seq<Region>, k: nat): nat
    requires k < |regions|
  {
    Base(regions, k) + regions[k].size
  }

  predicate InRegion(regions: seq<Region>, k: nat, addr: nat)
    requires k < |regions|
  {
    Base(regions, k) <= addr < End(regions, k)
  }

  lemma {:induction false} BaseMonotone(regions: seq<Region>, j: nat, k: nat)
    requires j <= k <= |regions|
    ensures Base(regions, j) <= Base(regions, k)
    decreases k - j
  {
    if j < k {
      BaseMonotone(regions, j, k - 1);
    }
  }

  /** The first region from index k on that holds addr. */
  function Locate(regions: seq<Region>, addr: nat, k: nat): (r: Option<nat>)
    requires k <= |regions|
    ensures r.Some? ==> k <= r.value < |regions| && InRegion(regions, r.value, addr)
    ensures r.None? ==> forall j :: k <= j < |regions| ==> !InRegion(regions, j, addr)
    decreases |regions| - k
  {
    if k == |regions| then None
    else if InRegion(regions, k, addr) then Some(k)
    else Locate(regions, addr, k + 1)
  }

  /** A part with a single region never looks at the address. */
  function RegionAt(regions: seq<Region>, addr: nat): (r: Option<nat>)
    ensures r.Some? ==> r.value < |regions|
  {
    if |regions| == 1 then Some(0) else Locate(regions, addr, 0)
  }

  /** spi_nor_get_erase_region_at */
  method GetEraseRegionAt(regions: seq<Region>, addr: nat) returns (r: Option<nat>, base: nat)
    ensures r == RegionAt(regions, addr)
    ensures r.Some? ==> base == Base(regions, r.value)
  {
    if |regions| == 1 {
      return Some(0), 0;
    }
    var offset := 0;
    for i := 0 to |regions|
      invariant offset == Base(regions, i)
      invariant Locate(regions, addr, 0) == Locate(regions, addr, i)
    {
      if addr >= offset && addr < offset + regions[i].size {
        return Some(i), offset;
      }
      offset := offset + regions[i].size;
    }
    return None, 0;
  }

  /** Every address below the total size lies in exactly one region, and the lookup finds it. */
  lemma RegionAtExact(regions: seq<Region>, addr: nat)
    requires addr < TotalSize(regions)
    ensures RegionAt(regions, addr).Some? && InRegion(regions, RegionAt(regions, addr).value, addr)
    ensures forall j | 0 <= j < |regions| :: InRegion(regions, j, addr) <==> j == RegionAt(regions, addr).value
  {
    var k := HoldingRegion(regions, addr, |regions|);
    assert RegionAt(regions, addr).Some?;
    var r := RegionAt(regions, addr).value;
    if |regions| == 1 {
      assert Base(regions, 1) == Base(regions, 0) + regions[0].size;
    }
    forall j | 0 <= j < |regions| ensures InRegion(regions, j, addr) <==> j == r {
      if j < r {
        BaseMonotone(regions, j + 1, r);
      } else if j > r {
        BaseMonotone(regions, r + 1, j);
      }
    }
  }

  lemma {:induction false} HoldingRegion(regions: seq<Region>, addr: nat, n: nat) returns (k: nat)
    requires n <= |regions| && addr < Base(regions, n)
    ensures k < n && InRegion(regions, k, addr)
  {
    if addr >= Base(regions, n - 1) {
      k := n - 1;
    } else {
      k := HoldingRegion(regions, addr, n - 1);
    }
  }

  /** The erase table of a part: sizes of the erase types and the regions that use them. */
  datatype Layout = Layout(sizes: seq<nat>, regions: seq<Region>) {
    function Total(): nat { TotalSize(regions) }

    /** The regions are as spi_nor_fill_erase_region_erasesizes leaves them. */
    predicate Filled() {
      && |sizes| == MAX_ERASE_INFO
      && forall k | 0 <= k < |regions| ::
           && UsableMask(sizes, regions[k].mask)
           && Extremes(sizes, regions[k].mask, regions[k].size, regions[k].minErase, regions[k].maxErase)
    }

    /** A smallest erase size that is a power of two counts from address zero, any other from the start of its region. */
    predicate Aligns(k: nat)
      requires k < |regions|
    {
      IsPow2(regions[k].minErase) ==> Base(regions, k) % regions[k].minErase == 0
    }

    predicate ValidRegion(k: nat)
      requires k < |regions|
    {
      var r := regions[k];
      && r.size > 0 && r.mask != {} && UsableMask(sizes, r.mask)
      && Extremes(sizes, r.mask, r.size, r.minErase, r.maxErase)
      && r.minErase > 0 && Aligns(k) && r.size % r.minErase == 0
      && forall i :: i in r.mask ==> Capped(sizes, i, r.size) % r.minErase == 0
    }

    /** Each region is a multiple of its smallest erase size long, starts on a multiple of it if that is a power of two,
        and each of its erase sizes is a multiple of it. */
    predicate Valid() {
      && |sizes| == MAX_ERASE_INFO && |regions| > 0
      && forall k | 0 <= k < |regions| :: ValidRegion(k)
    }

    /** The smallest erase size of region k. */
    function Grain(k: nat): (n: nat)
      requires Valid() && k < |regions|
      ensures n > 0 && n == regions[k].minErase && n <= regions[k].size && regions[k].size % n == 0
      ensures IsPow2(n) ==> Base(regions, k) % n == 0
      ensures exists i :: i in regions[k].mask && i < |sizes| && Capped(sizes, i, regions[k].size) == n
      ensures forall i :: i in regions[k].mask ==>
                i < |sizes| && Capped(sizes, i, regions[k].size) >= n && Capped(sizes, i, regions[k].size) % n == 0
    {
      assert ValidRegion(k);
      var n := regions[k].minErase;
      MultiplesApart(0, regions[k].size, n);
      n
    }

    /** Every erase type in use is a power of two, as all erase types of the source are;
        a size cut to its region need not be. */
    predicate PowerOfTwoTypes() {
      forall k | 0 <= k < |regions| ::
        forall i | i in regions[k].mask && i < |sizes| :: IsPow2(sizes[i])
    }

    function At(addr: nat): (k: nat)
      requires addr < Total()
      ensures k < |regions| && InRegion(regions, k, addr)
      ensures RegionAt(regions, addr) == Some(k)
    {
      RegionAtExact(regions, addr);
      RegionAt(regions, addr).value
    }

    /** What a caller can check about region k: it is not empty and has an erase type, and if its smallest erase size is
        a power of two it starts and ends on a multiple of it. */
    predicate Regular(k: nat)
      requires k < |regions|
    {
      var r := regions[k];
      && r.size > 0 && r.mask != {}
      && (IsPow2(r.minErase) ==> Base(regions, k) % r.minErase == 0 && r.size % r.minErase == 0)
    }
  }

  /** In a region of power-of-two types the smallest erase size is one of them, or the whole region. */
  lemma SmallestType(layout: Layout, k: nat)
    requires layout.Filled() && layout.PowerOfTwoTypes() && k < |layout.regions|
    requires layout.regions[k].size > 0 && layout.regions[k].mask != {}
    ensures var r := layout.regions[k];
      && 0 < r.minErase <= r.size && (IsPow2(r.minErase) || r.minErase == r.size)
      && forall i :: i in r.mask ==> IsPow2(layout.sizes[i]) && Capped(layout.sizes, i, r.size) >= r.minErase
  {
    var r := layout.regions[k];
    var m :| m in r.mask && Capped(layout.sizes, m, r.size) == r.minErase;
    assert IsPow2(layout.sizes[m]);
  }

  /** A region of power-of-two types is valid if and only if it is regular. */
  lemma RegionValidIff(layout: Layout, k: nat)
    requires layout.Filled() && layout.PowerOfTwoTypes() && k < |layout.regions|
    ensures layout.ValidRegion(k) <==> layout.Regular(k)
  {
    var r := layout.regions[k];
    if layout.Regular(k) {
      SmallestType(layout, k);
      DivModUnique(r.size, r.size, 1, 0);
      forall i | i in r.mask ensures Capped(layout.sizes, i, r.size) % r.minErase == 0 {
        if layout.sizes[i] < r.size {
          Pow2Divides(r.minErase, layout.sizes[i]);
        }
      }
    }
  }

  lemma ValidIff(layout: Layout)
    requires layout.Filled() && layout.PowerOfTwoTypes() && |layout.regions| > 0
    ensures layout.Valid() <==> forall k | 0 <= k < |layout.regions| :: layout.Regular(k)
  {
    forall k | 0 <= k < |layout.regions| ensures layout.ValidRegion(k) <==> layout.Regular(k) {
      RegionValidIff(layout, k);
    }
  }

  /** spi_nor_generate_erase_regions: one region over the whole part, with every erase type of non-zero size. */
  method UniformRegions(sizes: seq<nat>, size: nat) returns (regions: seq<Region>)
    requires |sizes| == MAX_ERASE_INFO
    ensures |regions| == 1 && regions[0].size == size
    ensures forall i | 0 <= i < MAX_ERASE_INFO :: i in regions[0].mask <==> sizes[i] > 0
    ensures UsableMask(sizes, regions[0].mask)
    ensures Extremes(sizes, regions[0].mask, size, regions[0].minErase, regions[0].maxErase)
    ensures regions[0].mask != {} ==> regions[0].minErase <= regions[0].maxErase <= size
    ensures TotalSize(regions) == size
  {
    var mask: set<nat> := {};
    for i := 0 to MAX_ERASE_INFO
      invariant forall j :: j in mask <==> 0 <= j < i && sizes[j] > 0
    {
      if sizes[i] != 0 {
        mask := mask + {i};
      }
    }
    var r := FillEraseSizes(sizes, mask, size);
    regions := [r];
    assert Base(regions, 1) == Base(regions, 0) + regions[0].size;
  }
}
