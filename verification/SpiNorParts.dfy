/** Parts: that the driver's assumptions can be met for every valid erase layout, by small parts with three address bytes
    and larger ones with an extended-address register, with or without a four-line bus mode; and two layouts of
    power-of-two erase types on which an erase does less than it was asked to. */
module SpiNorParts {
  import opened PowerOfTwo
  import opened EraseRegions
  import opened ErasePlan
  import opened FlashMemory
  import opened NorChip
  import opened SpiNor
  import opened SpiNorRuns

  function UniformLayout(size: nat): Layout {
    Layout([0x1000, 0x8000, 0x1_0000, 0], [Region(size, 0x1000, 0x1_0000, {0, 1, 2})])
  }

  function PartChip(layout: Layout, qpi: bool): Chip {
    var size := layout.Total();
    Chip(size, 0x100, false, layout, size, if size > THREE_BYTES then ExtendedAddress else NoHighByte, false,
         if qpi then 4 else 1, false, 0, {(1, 0), (4, 1)})
  }

  function PartConfig(layout: Layout, qpi: bool): Config {
    var size, width := layout.Total(), if qpi then 4 else 1;
    Config(size, 0x100, false, layout, size, 3, 3, width, width, width,
           if size > THREE_BYTES then ExtendedAddress else NoHighByte,
           false, false, false, false, qpi, qpi, true, false)
  }

  lemma Powers()
    ensures IsPow2(0x100) && IsPow2(0x800) && IsPow2(0x1000) && IsPow2(0x8000) && IsPow2(0x1_0000) && IsPow2(0x4_0000)
  {
    assert IsPow2(0x10);
    assert IsPow2(0x100);
    assert IsPow2(0x1000);
    assert IsPow2(0x1_0000);
  }

  lemma UniformLayoutValid(size: nat)
    requires size > 0 && size % 0x1_0000 == 0
    ensures UniformLayout(size).Valid() && UniformLayout(size).Total() == size
  {
    hide IsPow2;
    var layout := UniformLayout(size);
    var r := layout.regions[0];
    assert Base(layout.regions, 1) == Base(layout.regions, 0) + r.size;
    assert Capped(layout.sizes, 0, r.size) == 0x1000 && Capped(layout.sizes, 2, r.size) == 0x1_0000;
    assert 0 in r.mask && 2 in r.mask;
    assert size % 0x1000 == 0;
    forall i | i in r.mask ensures Capped(layout.sizes, i, r.size) % r.minErase == 0 {
      assert i == 0 || i == 1 || i == 2;
    }
    assert layout.ValidRegion(0);
  }

  /** The driver's assumptions can be met for every valid erase layout. */
  lemma PartSuits(layout: Layout, qpi: bool)
    requires layout.Valid() && layout.Total() <= FOUR_BYTES
    ensures Suits(PartConfig(layout, qpi), PartChip(layout, qpi))
  {
    Powers();
  }

  lemma UniformSuits(size: nat, qpi: bool)
    requires 0 < size <= FOUR_BYTES && size % 0x1_0000 == 0
    ensures UniformLayout(size).PowerOfTwoTypes()
    ensures Suits(PartConfig(UniformLayout(size), qpi), PartChip(UniformLayout(size), qpi))
  {
    UniformLayoutValid(size);
    Powers();
    var layout := UniformLayout(size);
    forall i | i in layout.regions[0].mask && i < |layout.sizes| ensures IsPow2(layout.sizes[i]) {
      assert i == 0 || i == 1 || i == 2;
    }
    PartSuits(layout, qpi);
  }

  // ---- parts on which a shadow or a switch goes wrong ----

  /** A part with its own four-byte opcodes that starts in four-byte mode and has no command to choose the mode:
      the driver can work with it, and in every run the addressing-mode shadow differs from the chip's mode. */
  lemma ModeShadowWrong(layout: Layout, four: bool, a4bMode: bool)
    requires layout.Valid() && layout.Total() <= FOUR_BYTES
    ensures var cfg := PartConfig(layout, false).(naddr := 4, highByte := NoHighByte);
      var chip := PartChip(layout, false).(fourByteOps := true, bootFour := true, highByte := NoHighByte);
      Suits(cfg, chip) && (ModeMatches(cfg, chip, four, a4bMode) <==> four && !a4bMode)
  {
    hide Layout.Valid, Layout.Total;
    PartSuits(layout, false);
  }

  /** A part with a command to enter four-line mode and none to leave it suits the driver while it stays on one line;
      asked for four lines and then for one, the chip remains on four. */
  lemma SwitchStays(layout: Layout)
    requires layout.Valid() && layout.Total() <= FOUR_BYTES
    ensures var cfg := PartConfig(layout, false).(hasQpiEn := true);
      Suits(cfg, PartChip(layout, false)) && WidthAfter(cfg, 1, 4) == 4 && WidthAfter(cfg, 4, 1) == 4
  {
    hide Layout.Valid, Layout.Total;
    PartSuits(layout, false);
  }

  // ---- parts with a sector map ----

  /** Parameter sectors in front of large ones: 32 KiB of 4 KiB sectors, the 224 KiB left of the first 256 KiB sector,
      and a whole 256 KiB sector. */
  predicate Hybrid(layout: Layout) {
    && layout.sizes == [0x1000, 0x4_0000, 0, 0]
    && layout.regions == [Region(0x8000, 0x1000, 0x1000, {0}), Region(0x3_8000, 0x3_8000, 0x3_8000, {1}),
                          Region(0x4_0000, 0x4_0000, 0x4_0000, {1})]
  }

  lemma HybridBases(layout: Layout)
    requires Hybrid(layout)
    ensures Base(layout.regions, 0) == 0 && Base(layout.regions, 1) == 0x8000
    ensures Base(layout.regions, 2) == 0x4_0000 && Base(layout.regions, 3) == layout.Total() == 0x8_0000
  {
    assert Base(layout.regions, 1) == Base(layout.regions, 0) + layout.regions[0].size;
    assert Base(layout.regions, 2) == Base(layout.regions, 1) + layout.regions[1].size;
    assert Base(layout.regions, 3) == Base(layout.regions, 2) + layout.regions[2].size;
  }

  lemma HybridFilled(layout: Layout)
    requires Hybrid(layout)
    ensures layout.Filled() && layout.PowerOfTwoTypes()
  {
    hide Extremes, UsableMask, IsPow2;
    Powers();
    FilledByOne(layout.sizes, 0, 0x8000);
    FilledByOne(layout.sizes, 1, 0x3_8000);
    FilledByOne(layout.sizes, 1, 0x4_0000);
    forall k | 0 <= k < |layout.regions|
      ensures UsableMask(layout.sizes, layout.regions[k].mask)
      ensures var r := layout.regions[k]; Extremes(layout.sizes, r.mask, r.size, r.minErase, r.maxErase)
      ensures forall i | i in layout.regions[k].mask && i < |layout.sizes| :: IsPow2(layout.sizes[i])
    {
      assert k == 0 || k == 1 || k == 2;
    }
  }

  /** The sizes of a region with a single erase type. */
  lemma FilledByOne(sizes: seq<nat>, i: nat, size: nat)
    requires |sizes| == MAX_ERASE_INFO && i < MAX_ERASE_INFO && sizes[i] > 0
    ensures UsableMask(sizes, {i}) && Extremes(sizes, {i}, size, Capped(sizes, i, size), Capped(sizes, i, size))
  {
    assert i in {i};
  }

  lemma NotPow2()
    ensures !IsPow2(0x3_8000)
  {
    assert !IsPow2(7) && !IsPow2(0xe) && !IsPow2(0x1c);
    assert !IsPow2(0x38) && !IsPow2(0x70) && !IsPow2(0xe0) && !IsPow2(0x1c0);
    assert !IsPow2(0x380) && !IsPow2(0x700) && !IsPow2(0xe00) && !IsPow2(0x1c00);
    assert !IsPow2(0x3800) && !IsPow2(0x7000) && !IsPow2(0xe000) && !IsPow2(0x1_c000);
  }

  lemma HybridValid(layout: Layout)
    requires Hybrid(layout)
    ensures layout.Valid() && layout.PowerOfTwoTypes() && layout.Total() == 0x8_0000
  {
    hide IsPow2;
    HybridBases(layout);
    HybridFilled(layout);
    NotPow2();
    assert layout.Regular(0) && layout.Regular(1) && layout.Regular(2);
    ValidIff(layout);
  }

  /** Erasing the first 4 KiB of the cut sector reports success and erases nothing. */
  lemma ErasesNothing(g: Geometry, mem: seq<bv8>)
    requires Hybrid(g.layout) && |mem| == 0x8_0000
    ensures g.Valid() && g.Size() == |mem| && Serve(g, mem, EraseReq(0x8000, 0x1000)) == (mem, Done)
  {
    hide EraseRange, IsPow2, GridBelow;
    HybridValid(g.layout);
    HybridBases(g.layout);
    ValidIsSane(g.layout);
    AtIs(g.layout, 1, 0x8000);
    NotPow2();
    EraseRangeEmptyIff(g.layout, 0x8000, 0x1000);
    EraseRangeOnGrid(g.layout, 0x8000, 0x1000);
    var r := EraseRange(g.layout, g.layout.Total(), 0x8000, 0x1000);
    ErasedNothing(mem, r.start);
  }

  /** A 6 KiB region of 4 KiB sectors, and 2 KiB more. */
  predicate Ragged(layout: Layout) {
    && layout.sizes == [0x1000, 0, 0, 0]
    && layout.regions == [Region(0x1800, 0x1000, 0x1000, {0}), Region(0x800, 0x800, 0x800, {0})]
  }

  /** Erasing a byte of the region's last 2 KiB stops at once: the range is not empty, and no erase type fits. */
  lemma ErasesNoFurther(layout: Layout)
    requires Ragged(layout)
    ensures layout.Filled() && layout.PowerOfTwoTypes() && Sane(layout) && layout.Total() == 0x2000
    ensures EraseRange(layout, 0x2000, 0x1000, 1) == Range(0x1000, 0x2000) && Run(layout, 0x1000, 0x2000) == []
  {
    hide IsPow2;
    assert Base(layout.regions, 1) == Base(layout.regions, 0) + layout.regions[0].size;
    assert Base(layout.regions, 2) == Base(layout.regions, 1) + layout.regions[1].size;
    Powers();
    FilledByOne(layout.sizes, 0, 0x1800);
    FilledByOne(layout.sizes, 0, 0x800);
    SaneIff(layout);
    AtIs(layout, 0, 0x1000);
    AlignDownUnique(0x1000, 0x1000, 0x1000);
    AlignDownUnique(0x2000, 0x1000, 0x2000);
    AlignDownUnique(0x1001 + 0x1000 - 1, 0x1000, 0x2000);
    StuckAtRaggedEnd(layout, 0, 0x1000, 0x2000);
  }
}
