/** The erase planner: the range an erase request is widened to, the block each step erases, and the whole run. */
module ErasePlan {
  import opened PowerOfTwo
  import opened EraseRegions
  import opened Wrappers

  /** DivideByZero: the code reaches a division by the smallest erase size of a region that has none. */
  datatype RangeResult = Range(start: nat, end: nat) | InvalidParameter | Unsupported | DivideByZero

  datatype Block = Block(start: nat, size: nat)

  /** No region names a missing erase type. */
  predicate Masked(layout: Layout) {
    && |layout.sizes| == MAX_ERASE_INFO
    && forall k | 0 <= k < |layout.regions| :: UsableMask(layout.sizes, layout.regions[k].mask)
  }

  /** Besides, every region has a smallest erase size. */
  predicate Sane(layout: Layout) {
    Masked(layout) && forall k | 0 <= k < |layout.regions| :: layout.regions[k].minErase > 0
  }

  /** Planning at this address does not divide by zero. */
  predicate Plans(layout: Layout, addr: nat) {
    Masked(layout) && addr < layout.Total() && layout.regions[layout.At(addr)].minErase > 0
  }

  lemma SanePlans(layout: Layout, addr: nat)
    requires Sane(layout) && addr < layout.Total()
    ensures Plans(layout, addr)
  {
  }

  /** Rounds down to the region's smallest erase size: from address zero when that is a power of two,
      from the start of the region otherwise. */
  function RoundDown(layout: Layout, k: nat, x: nat): (r: nat)
    requires k < |layout.regions| && layout.regions[k].minErase > 0 && Base(layout.regions, k) <= x
    ensures r <= x
  {
    var n, base := layout.regions[k].minErase, Base(layout.regions, k);
    if IsPow2(n) then AlignDown(x, n) else base + AlignDown(x - base, n)
  }

  /** ufprog_spi_nor_get_erase_range */
  function EraseRange(layout: Layout, size: nat, addr: nat, len: nat): RangeResult
    requires Masked(layout) && TotalSize(layout.regions) == size
  {
    if len == 0 then InvalidParameter
    else if |layout.regions| == 0 then Unsupported
    else if addr >= size then InvalidParameter
    else if !Plans(layout, addr) then DivideByZero
    else
      var start := RoundDown(layout, layout.At(addr), addr);
      var last := RegionAt(layout.regions, addr + len - 1);
      if last.None? then Unsupported
      else if layout.regions[last.value].minErase == 0 then DivideByZero
      else Range(start, RangeEnd(layout, last.value, addr + len))
  }

  /** The end is rounded up for a power of two, but down for any other erase size. */
  function RangeEnd(layout: Layout, k: nat, end: nat): nat
    requires k < |layout.regions| && layout.regions[k].minErase > 0
  {
    var n, base := layout.regions[k].minErase, Base(layout.regions, k);
    if IsPow2(n) then AlignUp(end, n) else base + AlignDown(if end >= base then end - base else 0, n)
  }

  predicate Aligned(layout: Layout, k: nat, start: nat, n: nat)
    requires k < |layout.regions| && n > 0
  {
    if IsPow2(n) then start % n == 0 else (start - Base(layout.regions, k)) % n == 0
  }

  /** Erase type i of region k may erase a block at start without passing limit. */
  predicate Fits(layout: Layout, k: nat, start: nat, limit: nat, i: nat)
    requires Masked(layout) && k < |layout.regions|
  {
    var r := layout.regions[k];
    && i in r.mask && r.size > 0
    && Aligned(layout, k, start, Capped(layout.sizes, i, r.size))
    && start + Capped(layout.sizes, i, r.size) <= limit
  }

  /** The largest block among the first n erase types that fits, or 0. */
  function Largest(layout: Layout, k: nat, start: nat, limit: nat, n: nat): (r: nat)
    requires Masked(layout) && k < |layout.regions| && n <= MAX_ERASE_INFO
    ensures forall i | 0 <= i < n && Fits(layout, k, start, limit, i) ::
              Capped(layout.sizes, i, layout.regions[k].size) <= r
    ensures r > 0 ==> exists i | 0 <= i < n ::
              Fits(layout, k, start, limit, i) && Capped(layout.sizes, i, layout.regions[k].size) == r
  {
    if n == 0 then 0
    else
      var best := Largest(layout, k, start, limit, n - 1);
      if Fits(layout, k, start, limit, n - 1) && Capped(layout.sizes, n - 1, layout.regions[k].size) > best
      then Capped(layout.sizes, n - 1, layout.regions[k].size)
      else best
  }

  lemma LargestNone(layout: Layout, k: nat, start: nat, limit: nat)
    requires Sane(layout) && k < |layout.regions|
    ensures Largest(layout, k, start, limit, 0) == 0
  {
  }

  lemma LargestNext(layout: Layout, k: nat, start: nat, limit: nat, n: nat)
    requires Sane(layout) && k < |layout.regions| && n < MAX_ERASE_INFO
    ensures var size, best := Capped(layout.sizes, n, layout.regions[k].size), Largest(layout, k, start, limit, n);
      Largest(layout, k, start, limit, n + 1) == if Fits(layout, k, start, limit, n) && size > best then size else best
  {
  }

  /** What has to hold for an erase type to fit, each as the code tests it. */
  lemma FitsIff(layout: Layout, k: nat, start: nat, limit: nat, i: nat)
    requires Sane(layout) && k < |layout.regions| && i < MAX_ERASE_INFO && layout.regions[k].size > 0
    requires Base(layout.regions, k) <= start <= limit
    ensures var n := Capped(layout.sizes, i, layout.regions[k].size);
      Fits(layout, k, start, limit, i) <==>
        && i in layout.regions[k].mask && n > 0
        && (if IsPow2(n) then start % n == 0 else (start - Base(layout.regions, k)) % n == 0)
        && n <= limit - start
  {
  }

  function StepStart(layout: Layout, addr: nat): nat
    requires Plans(layout, addr)
  {
    RoundDown(layout, layout.At(addr), addr)
  }

  function StepLimit(layout: Layout, addr: nat, maxlen: nat): nat
    requires Plans(layout, addr)
  {
    var k := layout.At(addr);
    Min(RoundDown(layout, k, addr + maxlen), End(layout.regions, k))
  }

  /** What one planning step erases; size 0 when no erase type fits. */
  function Step(layout: Layout, addr: nat, maxlen: nat): Block
    requires Plans(layout, addr)
  {
    var start := StepStart(layout, addr);
    Block(start, Largest(layout, layout.At(addr), start, StepLimit(layout, addr, maxlen), MAX_ERASE_INFO))
  }

  /** The blocks the erase loop erases from s towards e. */
  function Run(layout: Layout, s: nat, e: nat): seq<Block>
    decreases e - s
  {
    if s >= e || !Plans(layout, s) then []
    else
      var b := Step(layout, s, e - s);
      if b.size == 0 then [] else [b] + Run(layout, s + b.size, e)
  }

  /** Where the loop's cursor stands after the blocks of a run. */
  function Cursor(s: nat, run: seq<Block>): nat
    decreases |run|
  {
    if run == [] then s else Cursor(s + run[0].size, run[1..])
  }

  /** An address a plan may stop at: whole smallest erase sizes from the start of its region, or the end of the part. */
  predicate OnGrid(layout: Layout, x: nat)
    requires layout.Valid()
  {
    x == layout.Total() ||
    (x < layout.Total() && (x - Base(layout.regions, layout.At(x))) % layout.Grain(layout.At(x)) == 0)
  }

  /** b is a block the part can erase with one command: an erase type of its region, aligned, inside the region. */
  predicate Permitted(layout: Layout, b: Block) {
    b.start < layout.Total() &&
    var k := layout.At(b.start);
    exists i :: i in layout.regions[k].mask && ValidSize(layout, k, i, b.size) && Aligned(layout, k, b.start, b.size)
                && b.start + b.size <= End(layout.regions, k)
  }

  predicate ValidSize(layout: Layout, k: nat, i: nat, n: nat)
    requires k < |layout.regions|
  {
    i < |layout.sizes| && n > 0 && Capped(layout.sizes, i, layout.regions[k].size) == n
  }

  /** The blocks follow each other from s to e with no gap and no overlap, each erasable by one command. */
  predicate Tiles(layout: Layout, s: nat, e: nat, tiling: seq<Block>)
    decreases |tiling|
  {
    if tiling == [] then s == e
    else
      && tiling[0].start == s && Permitted(layout, tiling[0]) && s + tiling[0].size <= e
      && Tiles(layout, s + tiling[0].size, e, tiling[1..])
  }

  lemma ValidIsSane(layout: Layout)
    requires layout.Valid()
    ensures Sane(layout)
  {
    forall k | 0 <= k < |layout.regions|
      ensures layout.regions[k].minErase > 0 && UsableMask(layout.sizes, layout.regions[k].mask)
    {
      assert layout.ValidRegion(k);
    }
  }

  /** x rounded down to whole grains from the start of region k. */
  function GridBelow(layout: Layout, k: nat, x: nat): (r: nat)
    requires layout.Valid() && k < |layout.regions| && Base(layout.regions, k) <= x
    ensures Base(layout.regions, k) <= r <= x < r + layout.Grain(k)
    ensures (r - Base(layout.regions, k)) % layout.Grain(k) == 0
  {
    Base(layout.regions, k) + AlignDown(x - Base(layout.regions, k), layout.Grain(k))
  }

  /** In a valid region rounding from address zero, where the code does that, is rounding from the region's start. */
  lemma RoundDownAligns(layout: Layout, k: nat, x: nat)
    requires layout.Valid() && Sane(layout) && k < |layout.regions| && Base(layout.regions, k) <= x
    ensures RoundDown(layout, k, x) == GridBelow(layout, k, x)
  {
    if IsPow2(layout.Grain(k)) {
      AlignDownFrom(Base(layout.regions, k), x, layout.Grain(k));
    }
  }

  /** Grid addresses of a region that differ are at least a grain apart. */
  lemma GridApart(layout: Layout, k: nat, x: nat, y: nat)
    requires layout.Valid() && k < |layout.regions| && Base(layout.regions, k) <= x
    requires (x - Base(layout.regions, k)) % layout.Grain(k) == 0 && (y - Base(layout.regions, k)) % layout.Grain(k) == 0
    ensures x < y ==> x + layout.Grain(k) <= y
  {
    if x < y {
      MultiplesApart(x - Base(layout.regions, k), y - Base(layout.regions, k), layout.Grain(k));
    }
  }

  /** The end of a region is on the region's own grid. */
  lemma EndOnGrid(layout: Layout, k: nat)
    requires layout.Valid() && k < |layout.regions|
    ensures (End(layout.regions, k) - Base(layout.regions, k)) % layout.Grain(k) == 0
    ensures Base(layout.regions, k) + layout.Grain(k) <= End(layout.regions, k)
  {
  }

  /** The boundaries of regions are on the grid. */
  lemma BoundaryOnGrid(layout: Layout, k: nat)
    requires layout.Valid() && k <= |layout.regions|
    ensures Base(layout.regions, k) <= layout.Total() && OnGrid(layout, Base(layout.regions, k))
  {
    BaseMonotone(layout.regions, k, |layout.regions|);
    if k < |layout.regions| {
      EndOnGrid(layout, k);
      AtIs(layout, k, Base(layout.regions, k));
    }
  }

  lemma AtIs(layout: Layout, k: nat, x: nat)
    requires k < |layout.regions| && InRegion(layout.regions, k, x)
    ensures x < layout.Total() && layout.At(x) == k
  {
    BaseMonotone(layout.regions, k + 1, |layout.regions|);
    RegionAtExact(layout.regions, x);
  }

  lemma WithinRegionOnGrid(layout: Layout, k: nat, x: nat)
    requires layout.Valid() && k < |layout.regions|
    requires Base(layout.regions, k) <= x <= End(layout.regions, k)
    requires (x - Base(layout.regions, k)) % layout.Grain(k) == 0
    ensures x <= layout.Total() && OnGrid(layout, x)
  {
    BoundaryOnGrid(layout, k + 1);
    if x < End(layout.regions, k) {
      AtIs(layout, k, x);
    }
  }

  /** A grid address from region k on, cut to the end of the region, is on the region's grid. */
  lemma GridInRegion(layout: Layout, k: nat, e: nat)
    requires layout.Valid() && k < |layout.regions| && Base(layout.regions, k) <= e <= layout.Total() && OnGrid(layout, e)
    ensures (Min(e, End(layout.regions, k)) - Base(layout.regions, k)) % layout.Grain(k) == 0
    ensures Min(GridBelow(layout, k, e), End(layout.regions, k)) == Min(e, End(layout.regions, k))
  {
    hide GridBelow, OnGrid;
    EndOnGrid(layout, k);
    if e < End(layout.regions, k) {
      AtIs(layout, k, e);
      AtOnGrid(layout, e);
      GridApart(layout, k, GridBelow(layout, k, e), e);
    } else {
      GridApart(layout, k, GridBelow(layout, k, e), End(layout.regions, k));
    }
  }

  /** From a grid address short of a grid end, a step starts at the cursor and is limited by the nearer
      of the end of the request and the end of the region; the smallest erase size always fits. */
  lemma StepWindow(layout: Layout, s: nat, e: nat)
    requires layout.Valid() && Sane(layout) && OnGrid(layout, s) && OnGrid(layout, e) && s < e <= layout.Total()
    ensures var k := layout.At(s);
      && StepStart(layout, s) == s && StepLimit(layout, s, e - s) == Min(e, End(layout.regions, k))
      && s + layout.Grain(k) <= StepLimit(layout, s, e - s)
      && (s - Base(layout.regions, k)) % layout.Grain(k) == 0
  {
    hide OnGrid, RoundDown;
    var k := layout.At(s);
    AtOnGrid(layout, s);
    RoundDownAligns(layout, k, s);
    GridApart(layout, k, GridBelow(layout, k, s), s);
    RoundDownAligns(layout, k, e);
    GridInRegion(layout, k, e);
    GridApart(layout, k, s, Min(e, End(layout.regions, k)));
  }

  lemma AtOnGrid(layout: Layout, s: nat)
    requires layout.Valid() && OnGrid(layout, s) && s < layout.Total()
    ensures (s - Base(layout.regions, layout.At(s))) % layout.Grain(layout.At(s)) == 0
  {
  }

  /** When the smallest erase size fits, the largest block that fits is a permitted one. */
  lemma LargestPermitted(layout: Layout, k: nat, s: nat, limit: nat)
    requires layout.Valid() && Sane(layout) && k < |layout.regions| && InRegion(layout.regions, k, s)
    requires (s - Base(layout.regions, k)) % layout.Grain(k) == 0
    requires s + layout.Grain(k) <= limit <= End(layout.regions, k)
    ensures var g := Largest(layout, k, s, limit, MAX_ERASE_INFO);
      && g > 0 && s + g <= limit && g % layout.Grain(k) == 0
      && s < layout.Total() && layout.At(s) == k && Permitted(layout, Block(s, g))
  {
    var sizes, r, n := layout.sizes, layout.regions[k], layout.Grain(k);
    AtIs(layout, k, s);
    if IsPow2(n) {
      ModAdd(Base(layout.regions, k), s - Base(layout.regions, k), n);
    }
    var m :| m in r.mask && m < |sizes| && Capped(sizes, m, r.size) == n;
    assert Fits(layout, k, s, limit, m);
    var g := Largest(layout, k, s, limit, MAX_ERASE_INFO);
    var i :| 0 <= i < MAX_ERASE_INFO && Fits(layout, k, s, limit, i) && Capped(sizes, i, r.size) == g;
    assert ValidSize(layout, k, i, g);
  }

  /** From a grid address short of a grid end there is always a block to erase: it starts at the cursor,
      ends inside the region and the request, and leaves the cursor on the grid. */
  lemma StepAdvances(layout: Layout, s: nat, e: nat)
    requires layout.Valid() && Sane(layout) && OnGrid(layout, s) && OnGrid(layout, e) && s < e <= layout.Total()
    ensures var b := Step(layout, s, e - s);
      && b.start == s && b.size > 0 && s + b.size <= e
      && Permitted(layout, b) && OnGrid(layout, s + b.size)
  {
    hide Largest, RoundDown, Permitted, Sane, Plans, StepStart, StepLimit;
    var k := layout.At(s);
    SanePlans(layout, s);
    StepWindow(layout, s, e);
    LargestPermitted(layout, k, s, StepLimit(layout, s, e - s));
    var g := Step(layout, s, e - s).size;
    ModAdd(s - Base(layout.regions, k), g, layout.Grain(k));
    WithinRegionOnGrid(layout, k, s + g);
  }

  /** No permitted block at the cursor that stays inside the request is larger than the step's. */
  lemma StepIsLargest(layout: Layout, s: nat, e: nat, c: Block)
    requires layout.Valid() && Sane(layout) && OnGrid(layout, s) && OnGrid(layout, e) && s < e <= layout.Total()
    requires Permitted(layout, c) && c.start == s && s + c.size <= e
    ensures c.size <= Step(layout, s, e - s).size
  {
    var k := layout.At(s);
    StepWindow(layout, s, e);
    var i :| i in layout.regions[k].mask && ValidSize(layout, k, i, c.size)
      && Aligned(layout, k, s, c.size) && s + c.size <= End(layout.regions, k);
    assert Fits(layout, k, s, StepLimit(layout, s, e - s), i);
  }

  lemma RunCons(layout: Layout, s: nat, e: nat, b: Block)
    requires Sane(layout) && s < e && s < layout.Total() && Step(layout, s, e - s) == b && b.size > 0
    ensures Run(layout, s, e) == [b] + Run(layout, s + b.size, e)
  {
    hide Plans, Sane, Step, Layout.Total, Layout.At;
    SanePlans(layout, s);
  }

  /** The erase loop erases exactly [s, e): it never runs out of erase types and its cursor ends on e. */
  lemma {:induction false} RunTiles(layout: Layout, s: nat, e: nat)
    requires layout.Valid() && Sane(layout) && OnGrid(layout, s) && OnGrid(layout, e) && s <= e <= layout.Total()
    ensures Tiles(layout, s, e, Run(layout, s, e))
    ensures Cursor(s, Run(layout, s, e)) == e
    decreases e - s
  {
    hide Step, OnGrid, Permitted, Sane, Plans;
    if s < e {
      SanePlans(layout, s);
      StepAdvances(layout, s, e);
      var b := Step(layout, s, e - s);
      RunTiles(layout, s + b.size, e);
      assert Run(layout, s, e) == [b] + Run(layout, s + b.size, e);
      assert Run(layout, s, e)[1..] == Run(layout, s + b.size, e);
    }
  }

  /** The end of a request is rounded up to the grid of its region, or down if the grain is not a power of two. */
  lemma RangeEndAligns(layout: Layout, k: nat, x: nat)
    requires layout.Valid() && Sane(layout) && k < |layout.regions|
    requires Base(layout.regions, k) < x <= End(layout.regions, k)
    ensures var r, n, base := RangeEnd(layout, k, x), layout.Grain(k), Base(layout.regions, k);
      && (if IsPow2(n) then x <= r < x + n else r == GridBelow(layout, k, x))
      && base <= r <= End(layout.regions, k) && (r - base) % n == 0
      && GridBelow(layout, k, x) <= r
  {
    var r, n, base := RangeEnd(layout, k, x), layout.Grain(k), Base(layout.regions, k);
    EndOnGrid(layout, k);
    if IsPow2(n) {
      ModSub(base, r, n);
      if End(layout.regions, k) < r {
        GridApart(layout, k, End(layout.regions, k), r);
      }
    }
    GridApart(layout, k, GridBelow(layout, k, x), End(layout.regions, k));
  }

  /** With every region sane a request inside the part gets a range. */
  lemma RangeIs(layout: Layout, addr: nat, len: nat)
    requires layout.Valid() && Sane(layout) && len > 0 && addr + len <= layout.Total()
    ensures var k, k2 := layout.At(addr), layout.At(addr + len - 1);
      && InRegion(layout.regions, k, addr) && Base(layout.regions, k) <= addr < End(layout.regions, k)
      && Base(layout.regions, k2) <= addr + len - 1 < End(layout.regions, k2)
      && EraseRange(layout, layout.Total(), addr, len)
           == Range(RoundDown(layout, k, addr), RangeEnd(layout, k2, addr + len))
  {
    hide RoundDown, RangeEnd, Layout.Valid;
  }

  lemma StartOnGrid(layout: Layout, k: nat, x: nat)
    requires layout.Valid() && Sane(layout) && k < |layout.regions| && InRegion(layout.regions, k, x)
    ensures var r := RoundDown(layout, k, x);
      r == GridBelow(layout, k, x) && Base(layout.regions, k) <= r <= layout.Total() && OnGrid(layout, r)
  {
    hide OnGrid, RoundDown, Sane, Layout.Valid;
    RoundDownAligns(layout, k, x);
    WithinRegionOnGrid(layout, k, RoundDown(layout, k, x));
  }

  lemma RangeEndOnGrid(layout: Layout, k: nat, x: nat)
    requires layout.Valid() && Sane(layout) && k < |layout.regions|
    requires Base(layout.regions, k) < x <= End(layout.regions, k)
    ensures var r := RangeEnd(layout, k, x);
      && GridBelow(layout, k, x) <= r && Base(layout.regions, k) <= r <= layout.Total() && OnGrid(layout, r)
  {
    hide OnGrid, RangeEnd, GridBelow, Sane, Layout.Valid;
    RangeEndAligns(layout, k, x);
    WithinRegionOnGrid(layout, k, RangeEnd(layout, k, x));
  }

  /** The widened range is a pair of grid addresses in order, for every request inside the part. */
  lemma EraseRangeOnGrid(layout: Layout, addr: nat, len: nat)
    requires layout.Valid() && Sane(layout) && len > 0 && addr + len <= layout.Total()
    ensures var r := EraseRange(layout, layout.Total(), addr, len);
      && r.Range? && r.start <= addr && r.start <= r.end <= layout.Total()
      && OnGrid(layout, r.start) && OnGrid(layout, r.end)
  {
    hide *;
    RangeIs(layout, addr, len);
    var k, k2 := layout.At(addr), layout.At(addr + len - 1);
    StartOnGrid(layout, k, addr);
    RangeEndOnGrid(layout, k2, addr + len);
    if k2 < k {
      EndsBefore(layout.regions, k2, k);
    } else if k < k2 {
      EndsBefore(layout.regions, k, k2);
    } else {
      SameGrainIff(layout, k, addr, addr + len);
    }
  }

  lemma EndsBefore(regions: seq<Region>, j: nat, k: nat)
    requires j < k < |regions|
    ensures End(regions, j) <= Base(regions, k)
  {
    BaseMonotone(regions, j + 1, k);
  }

  /** The widened range covers the request if and only if the smallest erase size where the request ends
      is a power of two, or the request happens to end whole multiples of it into its region. */
  lemma EraseRangeCovers(layout: Layout, addr: nat, len: nat)
    requires layout.Valid() && Sane(layout) && len > 0 && addr + len <= layout.Total()
    ensures var r := EraseRange(layout, layout.Total(), addr, len);
      var k := layout.At(addr + len - 1);
      && r.Range? && r.start <= addr
      && (addr + len <= r.end <==> IsPow2(layout.Grain(k)) || (addr + len - Base(layout.regions, k)) % layout.Grain(k) == 0)
  {
    hide RoundDown, RangeEnd, OnGrid, GridBelow, EraseRange, Sane, Layout.Valid, Layout.Grain;
    RangeIs(layout, addr, len);
    EraseRangeOnGrid(layout, addr, len);
    var k2 := layout.At(addr + len - 1);
    RangeEndAligns(layout, k2, addr + len);
    GridBelowSame(layout, k2, addr + len);
  }

  lemma GridBelowSame(layout: Layout, k: nat, x: nat)
    requires layout.Valid() && k < |layout.regions| && Base(layout.regions, k) <= x
    ensures GridBelow(layout, k, x) <= x
    ensures GridBelow(layout, k, x) == x <==> (x - Base(layout.regions, k)) % layout.Grain(k) == 0
  {
    if (x - Base(layout.regions, k)) % layout.Grain(k) == 0 {
      GridApart(layout, k, GridBelow(layout, k, x), x);
    }
  }

  /** Rounding down two addresses of a region gives the same if and only if they share a grain. */
  lemma SameGrainIff(layout: Layout, k: nat, x: nat, y: nat)
    requires layout.Valid() && k < |layout.regions| && Base(layout.regions, k) <= x <= y
    ensures GridBelow(layout, k, x) <= GridBelow(layout, k, y)
    ensures GridBelow(layout, k, x) == GridBelow(layout, k, y) <==> y < GridBelow(layout, k, x) + layout.Grain(k)
  {
    var low, high, n := GridBelow(layout, k, x), GridBelow(layout, k, y), layout.Grain(k);
    hide GridBelow;
    GridApart(layout, k, high, low);
    GridApart(layout, k, low, high);
  }

  /** The range is empty, so that nothing is erased, if and only if the smallest erase size is not a power of two
      and the request lies inside one grain of it and does not reach the grain's end. */
  lemma EraseRangeEmptyIff(layout: Layout, addr: nat, len: nat)
    requires layout.Valid() && Sane(layout) && len > 0 && addr + len <= layout.Total()
    ensures var r, k := EraseRange(layout, layout.Total(), addr, len), layout.At(addr);
      r.Range? && (r.start == r.end <==> !IsPow2(layout.Grain(k)) && addr + len < GridBelow(layout, k, addr) + layout.Grain(k))
  {
    hide RoundDown, RangeEnd, OnGrid, GridBelow, EraseRange, Sane, Layout.Valid, Layout.Grain;
    RangeIs(layout, addr, len);
    EraseRangeOnGrid(layout, addr, len);
    var k, k2 := layout.At(addr), layout.At(addr + len - 1);
    RoundDownAligns(layout, k, addr);
    RangeEndAligns(layout, k2, addr + len);
    GrainInRegion(layout, k, addr);
    if addr + len <= End(layout.regions, k) {
      AtIs(layout, k, addr + len - 1);
      SameGrainIff(layout, k, addr, addr + len);
    } else if k2 < k {
      BaseMonotone(layout.regions, k2 + 1, k);
    } else if k < k2 {
      BaseMonotone(layout.regions, k + 1, k2);
    }
  }

  lemma GrainInRegion(layout: Layout, k: nat, x: nat)
    requires layout.Valid() && k < |layout.regions| && InRegion(layout.regions, k, x)
    ensures GridBelow(layout, k, x) + layout.Grain(k) <= End(layout.regions, k)
  {
    hide GridBelow;
    EndOnGrid(layout, k);
    GridApart(layout, k, GridBelow(layout, k, x), End(layout.regions, k));
  }

  lemma StartIsTight(layout: Layout, addr: nat, lo: nat)
    requires layout.Valid() && Sane(layout) && lo <= addr < layout.Total() && OnGrid(layout, lo)
    ensures lo <= RoundDown(layout, layout.At(addr), addr)
  {
    hide RoundDown, GridBelow, OnGrid;
    var k := layout.At(addr);
    RoundDownAligns(layout, k, addr);
    if Base(layout.regions, k) < lo {
      AtIs(layout, k, lo);
      AtOnGrid(layout, lo);
      GridApart(layout, k, GridBelow(layout, k, addr), lo);
    }
  }

  lemma EndIsTight(layout: Layout, k: nat, x: nat, hi: nat)
    requires layout.Valid() && Sane(layout) && k < |layout.regions| && OnGrid(layout, hi)
    requires Base(layout.regions, k) < x <= hi <= layout.Total() && x <= End(layout.regions, k)
    ensures RangeEnd(layout, k, x) <= hi
  {
    hide RangeEnd, GridBelow, OnGrid;
    RangeEndAligns(layout, k, x);
    GridInRegion(layout, k, hi);
    GridApart(layout, k, Min(hi, End(layout.regions, k)), RangeEnd(layout, k, x));
  }

  /** The range never reaches beyond any grid range around the request. */
  lemma EraseRangeIsTight(layout: Layout, addr: nat, len: nat, lo: nat, hi: nat)
    requires layout.Valid() && Sane(layout) && len > 0 && addr + len <= layout.Total()
    requires lo <= addr && addr + len <= hi <= layout.Total() && OnGrid(layout, lo) && OnGrid(layout, hi)
    ensures var r := EraseRange(layout, layout.Total(), addr, len); r.Range? && lo <= r.start && r.end <= hi
  {
    hide RoundDown, RangeEnd, OnGrid;
    EraseRangeOnGrid(layout, addr, len);
    StartIsTight(layout, addr, lo);
    EndIsTight(layout, layout.At(addr + len - 1), addr + len, hi);
  }

  /** Any tiling whose blocks never straddle p splits at p. */
  lemma {:induction false} SplitTiling(layout: Layout, s: nat, x: nat, p: nat, e: nat, tiling: seq<Block>) returns (n: nat)
    requires layout.Valid() && layout.PowerOfTwoTypes()
    requires s <= x < p <= e && s < layout.Total() && Tiles(layout, x, e, tiling)
    requires Permitted(layout, Block(s, p - s))
    requires forall b | Permitted(layout, b) && b.start == s && s + b.size <= e :: b.size <= p - s
    ensures 0 < n <= |tiling| && Tiles(layout, p, e, tiling[n..])
    decreases |tiling|
  {
    var b := tiling[0];
    BlockInside(layout, s, p, e, b);
    if b.start + b.size == p {
      n := 1;
    } else {
      n := SplitTiling(layout, s, b.start + b.size, p, e, tiling[1..]);
      assert tiling[1..][n..] == tiling[n + 1..];
      n := n + 1;
    }
  }

  /** A permitted block is a power of two on a multiple of itself, or the whole of its region. */
  lemma BlockKinds(layout: Layout, b: Block)
    requires layout.Valid() && layout.PowerOfTwoTypes() && Permitted(layout, b)
    ensures var k := layout.At(b.start);
      if IsPow2(b.size) then b.start % b.size == 0
      else b.start == Base(layout.regions, k) && b.start + b.size == End(layout.regions, k)
  {
    var k := layout.At(b.start);
    var i :| i in layout.regions[k].mask && ValidSize(layout, k, i, b.size) && Aligned(layout, k, b.start, b.size)
      && b.start + b.size <= End(layout.regions, k);
    assert IsPow2(layout.sizes[i]);
  }

  /** A permitted block that starts inside the largest block at s ends inside it. */
  lemma BlockInside(layout: Layout, s: nat, p: nat, e: nat, b: Block)
    requires layout.Valid() && layout.PowerOfTwoTypes()
    requires s < layout.Total() && s <= b.start < p && b.start + b.size <= e
    requires Permitted(layout, Block(s, p - s)) && Permitted(layout, b)
    requires forall c | Permitted(layout, c) && c.start == s && s + c.size <= e :: c.size <= p - s
    ensures b.start + b.size <= p
  {
    var k := layout.At(s);
    var g := p - s;
    RegionAtExact(layout.regions, b.start);
    assert InRegion(layout.regions, k, b.start);
    assert layout.At(b.start) == k;
    assert b.size > 0 && b.start + b.size <= End(layout.regions, k);
    BlockKinds(layout, Block(s, g));
    BlockKinds(layout, b);
    if s < b.start && IsPow2(g) {
      assert IsPow2(b.size);
      Pow2Apart(s, g, b.start, b.size);
    }
  }

  /** Aligned powers of two are nested or apart. */
  lemma Pow2Apart(s: nat, g: nat, t: nat, n: nat)
    requires IsPow2(g) && IsPow2(n) && s % g == 0 && t % n == 0 && s < t < s + g
    ensures t + n <= s + g
  {
    if n <= g {
      Pow2Divides(n, g);
      DivModUnique(g, g, 1, 0);
      ModAdd(s, g, g);
      ModTransitive(s + g, g, n);
      MultiplesApart(t, s + g, n);
    } else {
      Pow2Divides(g, n);
      ModTransitive(t, n, g);
      MultiplesApart(s, t, g);
    }
  }

  /** Greedy is optimal: with power-of-two erase types no tiling of the range by erasable blocks,
      over any mixture of regions, uses fewer erase commands than the erase loop. */
  lemma {:induction false} RunIsOptimal(layout: Layout, s: nat, e: nat, tiling: seq<Block>)
    requires layout.Valid() && Sane(layout) && layout.PowerOfTwoTypes()
    requires OnGrid(layout, s) && OnGrid(layout, e) && s <= e <= layout.Total()
    requires Tiles(layout, s, e, tiling)
    ensures |Run(layout, s, e)| <= |tiling|
    decreases e - s
  {
    hide Step, OnGrid, Permitted, Sane, Plans;
    if s < e {
      SanePlans(layout, s);
      StepAdvances(layout, s, e);
      var b := Step(layout, s, e - s);
      forall c | Permitted(layout, c) && c.start == s && s + c.size <= e ensures c.size <= b.size {
        StepIsLargest(layout, s, e, c);
      }
      var n := SplitTiling(layout, s, s, s + b.size, e, tiling);
      RunIsOptimal(layout, s + b.size, e, tiling[n..]);
    }
  }

  // ---- exactly the layouts whose requests are all erased exactly ----

  /** The loop erases exactly the range a request is widened to. */
  predicate Exact(layout: Layout, addr: nat, len: nat)
    requires Masked(layout)
  {
    var r := EraseRange(layout, layout.Total(), addr, len);
    r.Range? && Tiles(layout, r.start, r.end, Run(layout, r.start, r.end))
  }

  lemma SaneIsFull(layout: Layout, k: nat)
    requires layout.Filled() && Sane(layout) && k < |layout.regions|
    ensures layout.regions[k].size > 0 && layout.regions[k].mask != {}
  {
    TypedIff(layout, k);
  }

  /** A region of a filled table has a smallest erase size if and only if it is not empty and has an erase type. */
  lemma TypedIff(layout: Layout, k: nat)
    requires layout.Filled() && k < |layout.regions|
    ensures layout.regions[k].minErase > 0 <==> layout.regions[k].size > 0 && layout.regions[k].mask != {}
  {
    var r := layout.regions[k];
    if r.mask != {} {
      var i :| i in r.mask && Capped(layout.sizes, i, r.size) == r.minErase;
      assert layout.sizes[i] > 0;
    }
  }

  lemma SaneIff(layout: Layout)
    requires layout.Filled()
    ensures Sane(layout) <==> forall k | 0 <= k < |layout.regions| :: layout.regions[k].size > 0 && layout.regions[k].mask != {}
  {
    forall k | 0 <= k < |layout.regions|
      ensures layout.regions[k].minErase > 0 <==> layout.regions[k].size > 0 && layout.regions[k].mask != {}
    {
      TypedIff(layout, k);
    }
  }

  // ---- exactly the layouts whose planning never divides by zero ----

  /** The erase loop from s towards e comes to an address at which planning divides by zero. */
  predicate RunDivides(layout: Layout, s: nat, e: nat)
    requires Masked(layout)
    decreases e - s
  {
    s < e && s < layout.Total() &&
    if !Plans(layout, s) then true
    else
      var b := Step(layout, s, e - s);
      b.size > 0 && RunDivides(layout, s + b.size, e)
  }

  /** That is where the blocks of the run lead: to an address short of the end that cannot be planned at. */
  lemma {:induction false} RunDividesIff(layout: Layout, s: nat, e: nat)
    requires Masked(layout)
    ensures RunDivides(layout, s, e) <==>
      var c := Cursor(s, Run(layout, s, e)); c < e && c < layout.Total() && !Plans(layout, c)
    decreases e - s
  {
    hide Step, Plans, Masked, Layout.Total;
    if s < e && Plans(layout, s) {
      var b := Step(layout, s, e - s);
      if b.size > 0 {
        assert Run(layout, s, e) == [b] + Run(layout, s + b.size, e);
        assert Run(layout, s, e)[1..] == Run(layout, s + b.size, e);
        RunDividesIff(layout, s + b.size, e);
      }
    }
  }

  /** An erase request divides by zero: when the range is computed, or in the loop over it. */
  predicate Divides(layout: Layout, addr: nat, len: nat)
    requires Masked(layout)
  {
    match EraseRange(layout, layout.Total(), addr, len)
    case DivideByZero => true
    case Range(s, e) => RunDivides(layout, s, e)
    case _ => false
  }

  /** Region k holds addresses of the part and has no erase type. */
  predicate Typeless(layout: Layout, k: nat) {
    k < |layout.regions| && layout.regions[k].size > 0 && layout.regions[k].mask == {}
  }

  /** An address whose planning divides by zero is in a region without an erase type. */
  lemma UnplannedIff(layout: Layout, addr: nat)
    requires layout.Filled() && addr < layout.Total()
    ensures Masked(layout) && (Plans(layout, addr) <==> !Typeless(layout, layout.At(addr)))
  {
    TypedIff(layout, layout.At(addr));
  }

  lemma {:induction false} RunDividesAt(layout: Layout, s: nat, e: nat) returns (k: nat)
    requires layout.Filled() && Masked(layout) && RunDivides(layout, s, e)
    ensures Typeless(layout, k)
    decreases e - s
  {
    hide Step;
    UnplannedIff(layout, s);
    if Plans(layout, s) {
      k := RunDividesAt(layout, s + Step(layout, s, e - s).size, e);
    } else {
      k := layout.At(s);
    }
  }

  lemma RangeDividesAt(layout: Layout, addr: nat, len: nat) returns (k: nat)
    requires layout.Filled() && Masked(layout) && EraseRange(layout, layout.Total(), addr, len).DivideByZero?
    ensures Typeless(layout, k)
  {
    hide RoundDown, RangeEnd;
    UnplannedIff(layout, addr);
    k := layout.At(addr);
    if Plans(layout, addr) {
      k := RegionAt(layout.regions, addr + len - 1).value;
      TypedIff(layout, k);
      if |layout.regions| > 1 {
        assert InRegion(layout.regions, k, addr + len - 1);
      }
    }
  }

  /** Some erase request inside the part divides by zero if and only if some region of the part has no erase type. */
  lemma DividesIff(layout: Layout)
    requires layout.Filled() && Masked(layout)
    ensures (exists addr: nat, len: nat :: len > 0 && addr + len <= layout.Total() && Divides(layout, addr, len))
      <==> exists k: nat :: Typeless(layout, k)
  {
    hide EraseRange, RunDivides, Typeless;
    if addr: nat, len: nat :| len > 0 && addr + len <= layout.Total() && Divides(layout, addr, len) {
      var k: nat;
      if EraseRange(layout, layout.Total(), addr, len).DivideByZero? {
        k := RangeDividesAt(layout, addr, len);
      } else {
        var r := EraseRange(layout, layout.Total(), addr, len);
        k := RunDividesAt(layout, r.start, r.end);
      }
    }
    if k: nat :| Typeless(layout, k) {
      TypelessDivides(layout, k);
    }
  }

  /** Erasing the first byte of such a region is enough. */
  lemma TypelessDivides(layout: Layout, k: nat)
    requires layout.Filled() && Masked(layout) && Typeless(layout, k)
    ensures var addr := Base(layout.regions, k);
      && addr < layout.Total() && EraseRange(layout, layout.Total(), addr, 1).DivideByZero?
      && Divides(layout, addr, 1) && !Exact(layout, addr, 1)
  {
    AtIs(layout, k, Base(layout.regions, k));
    TypedIff(layout, k);
  }

  lemma StepStartsBelow(layout: Layout, k: nat, s: nat, e: nat)
    requires Sane(layout) && k < |layout.regions| && s == Base(layout.regions, k) < e && layout.regions[k].size > 0
    requires IsPow2(layout.regions[k].minErase) && s % layout.regions[k].minErase != 0
    ensures s < layout.Total() && Step(layout, s, e - s).start != s
  {
    hide Largest, StepLimit;
    AtIs(layout, k, s);
  }

  /** A run that comes to a region which does not start on a multiple of its smallest erase size steps back there. */
  lemma {:induction false} StepsBack(layout: Layout, k: nat, s: nat, e: nat)
    requires Sane(layout) && k < |layout.regions| && s <= Base(layout.regions, k) < e && layout.regions[k].size > 0
    requires IsPow2(layout.regions[k].minErase) && Base(layout.regions, k) % layout.regions[k].minErase != 0
    ensures !Tiles(layout, s, e, Run(layout, s, e))
    decreases Base(layout.regions, k) - s
  {
    hide Permitted, Step, Sane, Plans;
    AtIs(layout, k, Base(layout.regions, k));
    var run := Run(layout, s, e);
    if Tiles(layout, s, e, run) {
      var b := Step(layout, s, e - s);
      assert run == [b] + Run(layout, s + b.size, e) && run[1..] == Run(layout, s + b.size, e);
      if s < Base(layout.regions, k) {
        StaysInRegion(layout, b, k);
        StepsBack(layout, k, s + b.size, e);
      } else {
        StepStartsBelow(layout, k, s, e);
      }
    }
  }

  /** A permitted block in front of a region ends in front of it. */
  lemma StaysInRegion(layout: Layout, b: Block, k: nat)
    requires Permitted(layout, b) && k < |layout.regions| && b.start < Base(layout.regions, k)
    ensures b.size > 0 && b.start + b.size <= Base(layout.regions, k)
  {
    var j := layout.At(b.start);
    if k <= j {
      BaseMonotone(layout.regions, k, j);
    } else {
      BaseMonotone(layout.regions, j + 1, k);
    }
  }

  /** At the ragged end of a region that is no multiple of its smallest erase size no erase type fits. */
  lemma StuckAtRaggedEnd(layout: Layout, k: nat, a: nat, e: nat)
    requires layout.Filled() && Sane(layout) && layout.PowerOfTwoTypes() && k < |layout.regions|
    requires Base(layout.regions, k) <= a < End(layout.regions, k) < a + layout.regions[k].minErase && a < e
    requires IsPow2(layout.regions[k].minErase) && a % layout.regions[k].minErase == 0
    ensures Run(layout, a, e) == []
  {
    AtIs(layout, k, a);
    SaneIsFull(layout, k);
    SmallestType(layout, k);
    AlignDownUnique(a, layout.regions[k].minErase, a);
    var limit := StepLimit(layout, a, e - a);
    forall i | 0 <= i < MAX_ERASE_INFO ensures !Fits(layout, k, a, limit, i) {
    }
    assert Step(layout, a, e - a).size == 0;
  }

  /** With power-of-two erase types every request is erased exactly if and only if every region whose smallest
      erase size is a power of two starts and ends on a multiple of it. */
  lemma ExactIff(layout: Layout)
    requires layout.Filled() && Masked(layout) && layout.PowerOfTwoTypes() && |layout.regions| > 0
    requires forall k | 0 <= k < |layout.regions| :: layout.regions[k].size > 0
    ensures (forall k | 0 <= k < |layout.regions| :: layout.Regular(k))
      <==> forall addr: nat, len: nat | len > 0 && addr + len <= layout.Total() :: Exact(layout, addr, len)
  {
    hide Exact;
    ValidIff(layout);
    SaneIff(layout);
    if layout.Valid() {
      ValidIsSane(layout);
      forall addr: nat, len: nat | len > 0 && addr + len <= layout.Total() ensures Exact(layout, addr, len) {
        ValidIsExact(layout, addr, len);
      }
    } else {
      var k :| 0 <= k < |layout.regions| && !layout.Regular(k);
      var addr: nat;
      if Sane(layout) {
        addr := IrregularFails(layout, k);
      } else {
        k :| 0 <= k < |layout.regions| && layout.regions[k].mask == {};
        TypelessDivides(layout, k);
        addr := Base(layout.regions, k);
      }
      assert !Exact(layout, addr, 1);
    }
  }

  lemma ValidIsExact(layout: Layout, addr: nat, len: nat)
    requires layout.Valid() && Sane(layout) && len > 0 && addr + len <= layout.Total()
    ensures Exact(layout, addr, len)
  {
    hide EraseRange, Tiles, Run, OnGrid;
    EraseRangeOnGrid(layout, addr, len);
    var r := EraseRange(layout, layout.Total(), addr, len);
    RunTiles(layout, r.start, r.end);
  }

  /** One byte at the edge of an irregular region shows the failure. */
  lemma IrregularFails(layout: Layout, k: nat) returns (addr: nat)
    requires layout.Filled() && Sane(layout) && layout.PowerOfTwoTypes() && k < |layout.regions| && !layout.Regular(k)
    ensures addr + 1 <= layout.Total() && !Exact(layout, addr, 1)
  {
    hide Tiles, Run;
    SaneIsFull(layout, k);
    var n, base, end := layout.regions[k].minErase, Base(layout.regions, k), End(layout.regions, k);
    if base % n != 0 {
      addr := base;
      AtIs(layout, k, addr);
      StepsBack(layout, k, AlignDown(addr, n), AlignUp(addr + 1, n));
    } else {
      addr := end - 1;
      AtIs(layout, k, addr);
      var a := AlignDown(addr, n);
      AlignDownLargest(addr, n, base);
      ModAdd(base, layout.regions[k].size, n);
      DivModUnique(n, n, 1, 0);
      ModAdd(a, n, n);
      StuckAtRaggedEnd(layout, k, a, AlignUp(end, n));
      EmptyTilesNothing(layout, a, AlignUp(end, n));
    }
  }

  lemma EmptyTilesNothing(layout: Layout, s: nat, e: nat)
    requires s < e
    ensures !Tiles(layout, s, e, [])
  {
  }
}
