/** The SFDP Sector Map Parameter Table (section 6.5 of JESD216B): detection commands select a configuration,
    a walk over the maps finds it, and its entries become the erase regions of the part. */
module SectorMap {
  import opened EraseRegions
  import opened Wrappers

  // ---- fields of a DWORD ----

  predicate IsMap(dw: nat) { dw / 2 % 2 == 1 }

  predicate IsLast(dw: nat) { dw % 2 == 1 }

  function ConfigId(dw: nat): nat { dw / 0x100 % 0x100 }

  function RegionCount(dw: nat): nat { dw / 0x1_0000 % 0x100 + 1 }

  function RegionSize(dw: nat): nat { (dw / 0x100 + 1) * 0x100 }

  predicate HasType(dw: nat, i: nat)
    requires i < MAX_ERASE_INFO
  {
    (if i == 0 then dw else if i == 1 then dw / 2 else if i == 2 then dw / 4 else dw / 8) % 2 == 1
  }

  /** The erase types of a region entry, less those the part does not have. */
  function UsableTypes(dw: nat, sizes: seq<nat>): (r: set<nat>)
    requires |sizes| == MAX_ERASE_INFO
    ensures UsableMask(sizes, r)
  {
    set i | 0 <= i < MAX_ERASE_INFO && HasType(dw, i) && sizes[i] > 0
  }

  /** dw holds the table's DWORDs; past is whatever lies in memory behind them. */
  datatype Table = Table(dw: seq<nat>, past: nat) {
    /** The header gives the table's length in eight bits. */
    predicate Valid() { |dw| <= 0xff }

    /** sfdp_dw, which counts from one and checks nothing. */
    function Dw(i: nat): nat
      requires 1 <= i <= |dw| + 1
    {
      if i <= |dw| then dw[i - 1] else past
    }
  }

  // ---- detection commands ----

  /** The addressing and dummy cycles the part is set up for. */
  datatype Defaults = Defaults(naddr: nat, ndummy: nat)

  datatype DetectOp = DetectOp(opcode: nat, addr: nat, naddr: nat, ndummy: nat)

  datatype Reply = NotSupported | TransferFailed | Data(val: bv8)

  /** spi_nor_smpt_get_naddr */
  function AddrBytes(kind: nat, defaults: Defaults): nat {
    if kind == 0 then 0 else if kind == 1 then 3 else if kind == 2 then 4 else defaults.naddr
  }

  /** The operation a command descriptor asks for; fifteen dummy cycles stand for the part's own number. */
  function OpAt(dw: nat, addr: nat, defaults: Defaults): DetectOp {
    var dummies := dw / 0x1_0000 % 0x10;
    DetectOp(dw / 0x100 % 0x100, addr, AddrBytes(dw / 0x40_0000 % 4, defaults),
             if dummies == 0xf then defaults.ndummy else dummies)
  }

  predicate Selected(val: bv8, dw: nat) { val & ((dw / 0x100_0000 % 0x100) as bv8) != 0 }

  /** Maps: the descriptor index at which the maps start, and the configuration detected. */
  datatype Detected = Maps(at: nat, cid: nat) | Undetectable | Failed

  /** The command loop from descriptor i on. */
  function Detect(t: Table, defaults: Defaults, probe: DetectOp -> Reply, i: nat, cid: nat): (r: Detected)
    requires 1 <= i <= |t.dw| + 2
    ensures r.Maps? ==> i <= r.at <= |t.dw| + 2
    decreases |t.dw| + 2 - i
  {
    if i > |t.dw| || IsMap(t.Dw(i)) then Maps(i, cid)
    else
      match probe(OpAt(t.Dw(i), t.Dw(i + 1), defaults))
      case NotSupported => Undetectable
      case TransferFailed => Failed
      case Data(val) => Detect(t, defaults, probe, i + 2, (2 * cid + if Selected(val, t.Dw(i)) then 1 else 0) % 0x100)
  }

  // ---- the walk over the maps ----

  /** The first map from index i on with this configuration. */
  function Search(t: Table, i: nat, cid: nat): (r: Option<nat>)
    requires i >= 1
    ensures r.Some? ==> i <= r.value <= |t.dw| && ConfigId(t.Dw(r.value)) == cid
    decreases |t.dw| + 1 - i
  {
    if i > |t.dw| then None
    else if ConfigId(t.Dw(i)) == cid then Some(i)
    else if IsLast(t.Dw(i)) then None
    else Search(t, i + RegionCount(t.Dw(i)) + 1, cid)
  }

  /** The length check: the entries of the map at index at seem to be inside the table. */
  predicate LengthOk(t: Table, at: nat)
    requires 1 <= at <= |t.dw|
  {
    |t.dw| - at + 1 >= RegionCount(t.Dw(at))
  }

  /** Where region entry k of the map at index at stands. */
  function EntryIndex(at: nat, k: nat): nat { at + 1 + k }

  // ---- the whole parse ----

  /** Keep: detection is impossible, and the error code returned for it reads as true. */
  datatype Parsed = Keep | Reject | Map(at: nat)

  function Parse(t: Table, defaults: Defaults, probe: DetectOp -> Reply): (r: Parsed)
    ensures r.Map? ==> 1 <= r.at <= |t.dw| && LengthOk(t, r.at)
  {
    match Detect(t, defaults, probe, 1, 0)
    case Undetectable => Keep
    case Failed => Reject
    case Maps(i, cid) =>
      var found := Search(t, i, cid);
      if found.None? || !LengthOk(t, found.value) then Reject else Map(found.value)
  }

  // ---- how the command loop ends ----

  /** Command descriptor j stands inside the table and is no map. */
  predicate CommandAt(t: Table, j: nat) { 2 * j + 1 <= |t.dw| && !IsMap(t.Dw(2 * j + 1)) }

  /** The operation of command j. */
  function OpOf(t: Table, defaults: Defaults, j: nat): DetectOp
    requires CommandAt(t, j)
  {
    OpAt(t.Dw(2 * j + 1), t.Dw(2 * j + 2), defaults)
  }

  /** The part answers the first j commands. */
  predicate Answered(t: Table, defaults: Defaults, probe: DetectOp -> Reply, j: nat) {
    forall i: nat | i < j :: CommandAt(t, i) && probe(OpOf(t, defaults, i)).Data?
  }

  /** The loop issues command j. */
  predicate Issued(t: Table, defaults: Defaults, probe: DetectOp -> Reply, j: nat) {
    Answered(t, defaults, probe, j) && CommandAt(t, j)
  }

  predicate Refused(t: Table, defaults: Defaults, probe: DetectOp -> Reply, j: nat) {
    Issued(t, defaults, probe, j) && probe(OpOf(t, defaults, j)).NotSupported?
  }

  predicate Lost(t: Table, defaults: Defaults, probe: DetectOp -> Reply, j: nat) {
    Issued(t, defaults, probe, j) && probe(OpOf(t, defaults, j)).TransferFailed?
  }

  lemma {:induction false} DetectFrom(t: Table, defaults: Defaults, probe: DetectOp -> Reply, j: nat, cid: nat)
    requires Answered(t, defaults, probe, j) && 2 * j <= |t.dw| + 1
    ensures Detect(t, defaults, probe, 2 * j + 1, cid).Undetectable? <==> exists k :: j <= k && Refused(t, defaults, probe, k)
    ensures Detect(t, defaults, probe, 2 * j + 1, cid).Failed? <==> exists k :: j <= k && Lost(t, defaults, probe, k)
    decreases |t.dw| + 1 - 2 * j
  {
    hide OpAt, IsMap, Selected;
    if Issued(t, defaults, probe, j) {
      match probe(OpOf(t, defaults, j)) {
        case NotSupported => assert Refused(t, defaults, probe, j);
        case TransferFailed => assert Lost(t, defaults, probe, j);
        case Data(val) =>
          var bit := if Selected(val, t.Dw(2 * j + 1)) then 1 else 0;
          DetectFrom(t, defaults, probe, j + 1, (2 * cid + bit) % 0x100);
      }
    }
  }

  /** Detection is impossible if and only if the controller refuses the first command the part does not answer, and fails
      if and only if the transfer of that command fails; the first of these is taken for success. */
  lemma DetectEndsIff(t: Table, defaults: Defaults, probe: DetectOp -> Reply)
    ensures Parse(t, defaults, probe).Keep? <==> exists k: nat :: Refused(t, defaults, probe, k)
    ensures Detect(t, defaults, probe, 1, 0).Failed? <==> exists k: nat :: Lost(t, defaults, probe, k)
  {
    hide Refused, Lost, Detect;
    DetectFrom(t, defaults, probe, 0, 0);
  }

  // ---- what the parse reads ----

  /** The descriptor, and the address in the DWORD behind it, of every command issued. */
  function DetectReads(t: Table, defaults: Defaults, probe: DetectOp -> Reply, i: nat): set<nat>
    requires 1 <= i <= |t.dw| + 2
    decreases |t.dw| + 2 - i
  {
    if i > |t.dw| then {}
    else if IsMap(t.Dw(i)) then {i}
    else {i, i + 1} + if probe(OpAt(t.Dw(i), t.Dw(i + 1), defaults)).Data? then DetectReads(t, defaults, probe, i + 2) else {}
  }

  /** The headers the map search looks at. */
  function SearchReads(t: Table, i: nat, cid: nat): (r: set<nat>)
    requires i >= 1
    ensures forall k | k in r :: i <= k <= |t.dw|
    decreases |t.dw| + 1 - i
  {
    if i > |t.dw| then {}
    else if ConfigId(t.Dw(i)) == cid || IsLast(t.Dw(i)) then {i}
    else {i} + SearchReads(t, i + RegionCount(t.Dw(i)) + 1, cid)
  }

  lemma {:induction false} FoundRead(t: Table, i: nat, cid: nat)
    requires i >= 1 && Search(t, i, cid).Some?
    ensures Search(t, i, cid).value in SearchReads(t, i, cid)
    decreases |t.dw| + 1 - i
  {
    hide ConfigId, IsLast, RegionCount;
    if ConfigId(t.Dw(i)) != cid {
      FoundRead(t, i + RegionCount(t.Dw(i)) + 1, cid);
    }
  }

  /** The region entries of a map. */
  function EntryReads(t: Table, at: nat): set<nat>
    requires 1 <= at <= |t.dw|
  {
    FirstEntries(at, RegionCount(t.Dw(at)))
  }

  function FirstEntries(at: nat, n: nat): set<nat> { set k: nat | k < n :: EntryIndex(at, k) }

  function ParseReads(t: Table, defaults: Defaults, probe: DetectOp -> Reply): set<nat> {
    var d, p := Detect(t, defaults, probe, 1, 0), Parse(t, defaults, probe);
    DetectReads(t, defaults, probe, 1)
      + (if d.Maps? then SearchReads(t, d.at, d.cid) else {})
      + (if p.Map? then EntryReads(t, p.at) else {})
  }

  /** Nothing is read in front of the table, and at most one DWORD behind it. */
  predicate Near(t: Table, indices: set<nat>) { forall i | i in indices :: 1 <= i <= |t.dw| + 1 }

  predicate Behind(t: Table, indices: set<nat>) { exists i | i in indices :: i > |t.dw| }

  lemma {:induction false} DetectReadsBehind(t: Table, defaults: Defaults, probe: DetectOp -> Reply, j: nat)
    requires Answered(t, defaults, probe, j) && 2 * j <= |t.dw| + 1
    ensures Near(t, DetectReads(t, defaults, probe, 2 * j + 1))
    ensures Behind(t, DetectReads(t, defaults, probe, 2 * j + 1))
      <==> exists k :: j <= k && Issued(t, defaults, probe, k) && 2 * k + 1 == |t.dw|
    decreases |t.dw| + 1 - 2 * j
  {
    hide OpAt, IsMap;
    if Issued(t, defaults, probe, j) {
      var rest := if probe(OpOf(t, defaults, j)).Data? then DetectReads(t, defaults, probe, 2 * j + 3) else {};
      assert DetectReads(t, defaults, probe, 2 * j + 1) == {2 * j + 1, 2 * j + 2} + rest;
      if probe(OpOf(t, defaults, j)).Data? {
        DetectReadsBehind(t, defaults, probe, j + 1);
      }
      if 2 * j + 1 == |t.dw| {
        assert 2 * j + 2 in DetectReads(t, defaults, probe, 2 * j + 1);
      }
    }
  }

  /** The entries of an accepted map leave the table if and only if they end one DWORD behind it. */
  lemma EntriesBehind(t: Table, at: nat)
    requires 1 <= at <= |t.dw| && LengthOk(t, at)
    ensures Near(t, EntryReads(t, at))
    ensures Behind(t, EntryReads(t, at)) <==> at + RegionCount(t.Dw(at)) == |t.dw| + 1
  {
    if at + RegionCount(t.Dw(at)) == |t.dw| + 1 {
      assert EntryIndex(at, RegionCount(t.Dw(at)) - 1) in EntryReads(t, at);
    }
  }

  /** The parse reads behind its table, and then one DWORD, if and only if it issues a command whose descriptor is the last
      DWORD of the table, or accepts a map that ends one DWORD behind it. */
  lemma OverreadIff(t: Table, defaults: Defaults, probe: DetectOp -> Reply)
    ensures Near(t, ParseReads(t, defaults, probe))
    ensures Behind(t, ParseReads(t, defaults, probe)) <==>
      || (exists k: nat :: Issued(t, defaults, probe, k) && 2 * k + 1 == |t.dw|)
      || (var p := Parse(t, defaults, probe); p.Map? && p.at + RegionCount(t.Dw(p.at)) == |t.dw| + 1)
  {
    hide DetectReads, SearchReads, EntryReads, RegionCount, Issued, Detect, LengthOk;
    DetectReadsBehind(t, defaults, probe, 0);
    var d, p := Detect(t, defaults, probe, 1, 0), Parse(t, defaults, probe);
    if p.Map? {
      EntriesBehind(t, p.at);
    }
    if i :| i in DetectReads(t, defaults, probe, 1) && i > |t.dw| {
      assert i in ParseReads(t, defaults, probe);
    }
    if p.Map? {
      if i :| i in EntryReads(t, p.at) && i > |t.dw| {
        assert i in ParseReads(t, defaults, probe);
      }
    }
  }

  /** The map with one region entry is accepted in a table that ends right behind its header. */
  lemma MapOverread(past: nat, defaults: Defaults, probe: DetectOp -> Reply)
    ensures var t := Table([3], past);
      Parse(t, defaults, probe) == Map(1) && 2 in ParseReads(t, defaults, probe) && t.Dw(2) == past
  {
    var t := Table([3], past);
    assert Detect(t, defaults, probe, 1, 0) == Maps(1, 0);
    assert Search(t, 1, 0) == Some(1);
    assert EntryIndex(1, 0) in EntryReads(t, 1);
  }

  /** A single descriptor makes the parser send an address from behind the table before it finds no map. */
  lemma CommandOverread(past: nat, defaults: Defaults, probe: DetectOp -> Reply)
    requires probe(OpAt(0x100, past, defaults)).Data?
    ensures var t := Table([0x100], past);
      Parse(t, defaults, probe) == Reject && 2 in ParseReads(t, defaults, probe) && t.Dw(2) == past
  {
    hide OpAt, Selected;
    var t := Table([0x100], past);
    assert !IsMap(t.Dw(1));
    assert Detect(t, defaults, probe, 1, 0).Maps? && Detect(t, defaults, probe, 1, 0).at == 3;
  }

  /** The map of the detected configuration is there, but the table is too short for its entries. */
  predicate CutShort(t: Table, defaults: Defaults, probe: DetectOp -> Reply) {
    var d := Detect(t, defaults, probe, 1, 0);
    d.Maps? && var found := Search(t, d.at, d.cid); found.Some? && RegionCount(t.Dw(found.value)) > |t.dw| - found.value + 1
  }

  /** The erase region of one entry. */
  predicate Decodes(dw: nat, sizes: seq<nat>, r: Region)
    requires |sizes| == MAX_ERASE_INFO
  {
    && r.size == RegionSize(dw) && r.mask == UsableTypes(dw, sizes)
    && Extremes(sizes, r.mask, r.size, r.minErase, r.maxErase)
    && (r.mask != {} ==> r.minErase <= r.maxErase <= r.size)
  }

  /** The regions are those of the first n entries of the map at index at. */
  predicate Decoded(t: Table, sizes: seq<nat>, at: nat, n: nat, regions: seq<Region>)
    requires |sizes| == MAX_ERASE_INFO
  {
    && 1 <= at && at + n <= |t.dw| + 1
    && |regions| == n && forall k | 0 <= k < n :: Decodes(t.Dw(EntryIndex(at, k)), sizes, regions[k])
  }

  predicate Ordered(regions: seq<Region>) {
    forall k | 0 <= k < |regions| && regions[k].mask != {} :: regions[k].minErase <= regions[k].maxErase <= regions[k].size
  }

  /** Every address of the part is in exactly one region, and no region's erase sizes exceed it. */
  predicate Partition(regions: seq<Region>, size: nat) {
    && TotalSize(regions) == size
    && (forall a: nat | a < size :: RegionAt(regions, a).Some? && InRegion(regions, RegionAt(regions, a).value, a)
          && forall j | 0 <= j < |regions| :: InRegion(regions, j, a) ==> j == RegionAt(regions, a).value)
    && Ordered(regions)
  }

  lemma DecodesIntro(dw: nat, sizes: seq<nat>, r: Region)
    requires |sizes| == MAX_ERASE_INFO && r.size == RegionSize(dw) && r.mask == UsableTypes(dw, sizes)
    requires Extremes(sizes, r.mask, r.size, r.minErase, r.maxErase)
    requires r.mask != {} ==> r.minErase <= r.maxErase <= r.size
    ensures Decodes(dw, sizes, r) && r.size == RegionSize(dw)
  {
  }

  lemma {:induction false} BasePrefix(a: seq<Region>, b: seq<Region>, k: nat)
    requires k <= |a|
    ensures Base(a + b, k) == Base(a, k)
  {
    if k > 0 {
      BasePrefix(a, b, k - 1);
    }
  }

  lemma TotalSnoc(regions: seq<Region>, r: Region)
    ensures TotalSize(regions + [r]) == TotalSize(regions) + r.size
  {
    BasePrefix(regions, [r], |regions|);
  }

  /** What the first n entries of the map at index at add up to. */
  function EntriesTotal(t: Table, at: nat, n: nat): nat
    requires 1 <= at && at + n <= |t.dw| + 1
  {
    if n == 0 then 0 else EntriesTotal(t, at, n - 1) + RegionSize(t.Dw(EntryIndex(at, n - 1)))
  }

  /** The entries of a map fix where its regions start. */
  lemma {:induction false} DecodedBases(t: Table, sizes: seq<nat>, at: nat, n: nat, regions: seq<Region>, k: nat)
    requires |sizes| == MAX_ERASE_INFO && k <= n && Decoded(t, sizes, at, n, regions)
    ensures Base(regions, k) == EntriesTotal(t, at, k)
  {
    hide RegionSize;
    if k > 0 {
      DecodedBases(t, sizes, at, n, regions, k - 1);
      assert Decodes(t.Dw(EntryIndex(at, k - 1)), sizes, regions[k - 1]);
    }
  }

  lemma DecodedOrdered(t: Table, sizes: seq<nat>, at: nat, regions: seq<Region>)
    requires |sizes| == MAX_ERASE_INFO
    requires Decoded(t, sizes, at, |regions|, regions)
    ensures Ordered(regions)
  {
    forall k | 0 <= k < |regions| && regions[k].mask != {}
      ensures regions[k].minErase <= regions[k].maxErase <= regions[k].size
    {
      assert Decodes(t.Dw(EntryIndex(at, k)), sizes, regions[k]);
    }
  }

  lemma DecodedFilled(t: Table, sizes: seq<nat>, at: nat, regions: seq<Region>)
    requires |sizes| == MAX_ERASE_INFO
    requires Decoded(t, sizes, at, |regions|, regions)
    ensures Layout(sizes, regions).Filled()
  {
    hide Extremes, UsableMask, RegionSize;
    forall k | 0 <= k < |regions|
      ensures UsableMask(sizes, regions[k].mask)
      ensures Extremes(sizes, regions[k].mask, regions[k].size, regions[k].minErase, regions[k].maxErase)
    {
      assert Decodes(t.Dw(EntryIndex(at, k)), sizes, regions[k]);
    }
  }

  lemma IsPartition(regions: seq<Region>)
    requires Ordered(regions)
    ensures Partition(regions, TotalSize(regions))
  {
    forall a: nat | a < TotalSize(regions)
      ensures RegionAt(regions, a).Some? && InRegion(regions, RegionAt(regions, a).value, a)
      ensures forall j | 0 <= j < |regions| :: InRegion(regions, j, a) ==> j == RegionAt(regions, a).value
    {
      RegionAtExact(regions, a);
    }
  }

  class Part {
    /** The sizes of the erase types, zero for none. */
    const sizes: seq<nat>
    const size: nat
    const defaults: Defaults
    const probe: DetectOp -> Reply
    var numRegions: nat
    var regions: seq<Region>
    /** The indices sfdp_dw has been called with. */
    ghost var fetched: set<nat>

    constructor (sizes: seq<nat>, size: nat, defaults: Defaults, probe: DetectOp -> Reply, regions: seq<Region>)
      ensures this.sizes == sizes && this.size == size && this.defaults == defaults && this.probe == probe
      ensures this.regions == regions && numRegions == |regions| && fetched == {}
    {
      this.sizes, this.size, this.defaults, this.probe := sizes, size, defaults, probe;
      this.regions, numRegions := regions, |regions|;
      fetched := {};
    }

    /** sfdp_dw */
    method Fetch(t: Table, i: nat) returns (dw: nat)
      requires 1 <= i <= |t.dw| + 1
      modifies this`fetched
      ensures dw == t.Dw(i) && fetched == old(fetched) + {i}
    {
      dw := t.Dw(i);
      fetched := fetched + {i};
    }

    /** The command loop of spi_nor_parse_sfdp_smpt. */
    method RunDetection(t: Table) returns (r: Detected)
      modifies this`fetched
      ensures r == Detect(t, defaults, probe, 1, 0)
      ensures fetched == old(fetched) + DetectReads(t, defaults, probe, 1)
    {
      hide OpAt, Selected, IsMap;
      var i, cid: nat := 1, 0;
      while i <= |t.dw|
        invariant 1 <= i <= |t.dw| + 2
        invariant Detect(t, defaults, probe, i, cid) == Detect(t, defaults, probe, 1, 0)
        invariant fetched + DetectReads(t, defaults, probe, i) == old(fetched) + DetectReads(t, defaults, probe, 1)
        decreases |t.dw| + 2 - i
      {
        var dw := Fetch(t, i);
        if IsMap(dw) {
          return Maps(i, cid);
        }
        var addr := Fetch(t, i + 1);
        match probe(OpAt(dw, addr, defaults)) {
          case NotSupported => return Undetectable;
          case TransferFailed => return Failed;
          case Data(val) =>
            cid := (2 * cid + if Selected(val, dw) then 1 else 0) % 0x100;
        }
        i := i + 2;
      }
      r := Maps(i, cid);
    }

    /** The map search of spi_nor_parse_sfdp_smpt. */
    method FindMap(t: Table, start: nat, cid: nat) returns (r: Option<nat>)
      requires start >= 1
      modifies this`fetched
      ensures r == Search(t, start, cid) && fetched == old(fetched) + SearchReads(t, start, cid)
    {
      hide ConfigId, RegionCount, IsLast;
      var i := start;
      while i <= |t.dw|
        invariant i >= start
        invariant Search(t, i, cid) == Search(t, start, cid)
        invariant fetched + SearchReads(t, i, cid) == old(fetched) + SearchReads(t, start, cid)
        decreases |t.dw| + 1 - i
      {
        var dw := Fetch(t, i);
        if ConfigId(dw) == cid {
          return Some(i);
        }
        if IsLast(dw) {
          return None;
        }
        i := i + RegionCount(dw) + 1;
      }
      r := None;
    }

    /** The region loop: its eight-bit counter does not wrap, since an accepted map has fewer than 256 regions. */
    method FillRegions(t: Table, at: nat) returns (total: nat)
      requires t.Valid() && |sizes| == MAX_ERASE_INFO && 1 <= at <= |t.dw| && LengthOk(t, at)
      requires numRegions == RegionCount(t.Dw(at))
      modifies this`regions, this`fetched
      ensures Decoded(t, sizes, at, numRegions, regions) && total == TotalSize(regions)
      ensures fetched == old(fetched) + EntryReads(t, at)
    {
      hide RegionSize, Decodes;
      var idx, i := 0, at + 1;
      regions, total := [], 0;
      while idx < numRegions
        invariant 0 <= idx <= numRegions < 0x100 && i == EntryIndex(at, idx)
        invariant Decoded(t, sizes, at, idx, regions) && total == TotalSize(regions)
        invariant fetched == old(fetched) + FirstEntries(at, idx)
        decreases numRegions - idx
      {
        var dw := Fetch(t, i);
        var r := FillEraseSizes(sizes, UsableTypes(dw, sizes), RegionSize(dw));
        DecodesIntro(dw, sizes, r);
        TotalSnoc(regions, r);
        regions := regions + [r];
        total := total + RegionSize(dw);
        idx := (idx + 1) % 0x100;
        i := i + 1;
      }
    }

    /** spi_nor_parse_sfdp_smpt on a part with a sector map. */
    method ParseSmpt(t: Table) returns (ok: bool)
      requires t.Valid() && |sizes| == MAX_ERASE_INFO
      modifies this
      ensures match Parse(t, defaults, probe)
        case Keep => ok && regions == old(regions) && numRegions == old(numRegions)
        case Reject =>
          !ok && regions == old(regions) && numRegions == if CutShort(t, defaults, probe) then 0 else old(numRegions)
        case Map(at) =>
          if ok then numRegions == RegionCount(t.Dw(at)) && Decoded(t, sizes, at, numRegions, regions)
                     && TotalSize(regions) == size
          else regions == [] && numRegions == 0
      ensures Parse(t, defaults, probe).Map? ==>
        var at := Parse(t, defaults, probe).at; ok <==> EntriesTotal(t, at, RegionCount(t.Dw(at))) == size
      ensures fetched == old(fetched) + ParseReads(t, defaults, probe)
    {
      hide RegionCount, Search, Detect, DetectReads, SearchReads, FirstEntries;
      var detected := RunDetection(t);
      match detected {
        case Undetectable => return true;
        case Failed => return false;
        case Maps(i, cid) =>
          var found := FindMap(t, i, cid);
          if found.None? {
            return false;
          }
          var at := found.value;
          var dw := Fetch(t, at);
          FoundRead(t, i, cid);
          numRegions := RegionCount(dw);
          if |t.dw| - at + 1 < numRegions {
            numRegions := 0;
            return false;
          }
          var total := FillRegions(t, at);
          DecodedBases(t, sizes, at, numRegions, regions, numRegions);
          if total != size {
            regions, numRegions := [], 0;
            return false;
          }
          ok := true;
      }
    }

    /** The erase table a part without regions of its own ends up with is a partition of the part. */
    method SetupRegions(table: Option<Table>) returns (ok: bool)
      requires |sizes| == MAX_ERASE_INFO && regions == [] && numRegions == 0
      requires table.Some? ==> table.value.Valid()
      modifies this
      ensures ok ==> numRegions == |regions| > 0 && Partition(regions, size) && Layout(sizes, regions).Filled()
      ensures table.None? || Parse(table.value, defaults, probe).Keep? ==>
        && ok && |regions| == 1 && regions[0].size == size
        && forall i | 0 <= i < MAX_ERASE_INFO :: i in regions[0].mask <==> sizes[i] > 0
      ensures !ok ==> regions == []
      ensures table.Some? && Parse(table.value, defaults, probe).Reject? ==> !ok
      ensures table.Some? && Parse(table.value, defaults, probe).Map? ==>
        var at := Parse(table.value, defaults, probe).at;
        && (ok <==> EntriesTotal(table.value, at, RegionCount(table.value.Dw(at))) == size)
        && (ok ==> |regions| == RegionCount(table.value.Dw(at)) && Decoded(table.value, sizes, at, |regions|, regions))
    {
      hide Parse, ParseReads, Decodes, Extremes;
      ok := true;
      if table.Some? {
        ok := ParseSmpt(table.value);
        if !ok {
          return false;
        }
        if regions != [] {
          DecodedOrdered(table.value, sizes, Parse(table.value, defaults, probe).at, regions);
          DecodedFilled(table.value, sizes, Parse(table.value, defaults, probe).at, regions);
          IsPartition(regions);
        }
      }
      if regions == [] {
        regions := UniformRegions(sizes, size);
        numRegions := 1;
        IsPartition(regions);
      }
    }
  }
}
