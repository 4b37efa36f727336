/** The layout section 6.5 of JESD216B gives a Sector Map Parameter Table, and what the parser makes of such a table. */
module SectorMapFormat {
  import opened BitString
  import opened ErasePlan
  import opened EraseRegions
  import opened PowerOfTwo
  import opened SectorMap
  import opened Wrappers

  /** A configuration detection command descriptor: two DWORDs. */
  datatype Command = Command(opcode: nat, dummies: nat, kind: nat, mask: nat, addr: nat, last: bool) {
    predicate Valid() { opcode < 0x100 && dummies < 0x10 && kind < 4 && mask < 0x100 }

    function Dw1(): nat {
      (if last then 1 else 0) + opcode * 0x100 + dummies * 0x1_0000 + kind * 0x40_0000 + mask * 0x100_0000
    }

    function Op(defaults: Defaults): DetectOp {
      DetectOp(opcode, addr, if kind < 3 then [0, 3, 4][kind] else defaults.naddr,
               if dummies == 0xf then defaults.ndummy else dummies)
    }

    /** The bit the part answers: whether any bit under the mask is set. */
    predicate Answer(defaults: Defaults, probe: DetectOp -> Reply)
      requires Valid() && probe(Op(defaults)).Data?
    {
      probe(Op(defaults)).val & (mask as bv8) != 0
    }
  }

  /** A region: its size in units of 256 bytes less one, and the erase types it allows. */
  datatype Entry = Entry(units: nat, types: set<nat>) {
    predicate Valid() { units < 0x100_0000 && forall i | i in types :: i < MAX_ERASE_INFO }

    function Dw(): nat {
      units * 0x100 + (if 3 in types then 8 else 0) + (if 2 in types then 4 else 0) + (if 1 in types then 2 else 0)
        + (if 0 in types then 1 else 0)
    }
  }

  /** A configuration map: a header DWORD and one DWORD for each region. */
  datatype SectorLayout = SectorLayout(cid: nat, entries: seq<Entry>) {
    predicate Valid() { cid < 0x100 && 1 <= |entries| <= 0x100 && forall e | e in entries :: e.Valid() }

    function Header(last: bool): nat
      requires |entries| > 0
    {
      (if last then 3 else 2) + cid * 0x100 + (|entries| - 1) * 0x1_0000
    }

    function Encode(last: bool): (r: seq<nat>)
      requires Valid()
      ensures |r| == 1 + |entries|
    {
      [Header(last)] + seq(|entries|, j requires 0 <= j < |entries| => entries[j].Dw())
    }
  }

  predicate ValidCommands(cmds: seq<Command>) { forall c | c in cmds :: c.Valid() }

  predicate ValidMaps(maps: seq<SectorLayout>) { forall m | m in maps :: m.Valid() }

  function EncodeCommands(cmds: seq<Command>): (r: seq<nat>)
    ensures |r| == 2 * |cmds|
  {
    if cmds == [] then [] else [cmds[0].Dw1(), cmds[0].addr] + EncodeCommands(cmds[1..])
  }

  /** Only the last map carries the end mark. */
  function EncodeMaps(maps: seq<SectorLayout>): seq<nat>
    requires ValidMaps(maps)
  {
    if maps == [] then [] else maps[0].Encode(|maps| == 1) + EncodeMaps(maps[1..])
  }

  /** DWORDs in front of map k. */
  function Offset(maps: seq<SectorLayout>, k: nat): nat
    requires k <= |maps|
  {
    if k == 0 then 0 else 1 + |maps[0].entries| + Offset(maps[1..], k - 1)
  }

  // ---- fields ----

  lemma CommandFields(c: Command, defaults: Defaults)
    requires c.Valid()
    ensures !IsMap(c.Dw1()) && OpAt(c.Dw1(), c.addr, defaults) == c.Op(defaults)
    ensures c.Dw1() / 0x100_0000 % 0x100 == c.mask
  {
    var dw := c.Dw1();
    Fields(if c.last then 1 else 0, c.opcode, c.dummies + c.kind * 0x40, c.mask, dw);
    KindField(dw, c.dummies, c.kind, c.mask);
  }

  lemma KindField(dw: nat, dummies: nat, kind: nat, mask: nat)
    requires dummies < 0x10 && kind < 4 && dw / 0x1_0000 == dummies + kind * 0x40 + mask * 0x100
    ensures dw / 0x1_0000 % 0x10 == dummies && dw / 0x40_0000 % 4 == kind
  {
    var high := dw / 0x1_0000;
    DivModUnique(dw, 0x40_0000, kind + mask * 4, dummies * 0x1_0000 + dw % 0x1_0000);
    DivModUnique(kind + mask * 4, 4, mask, kind);
    DivModUnique(high, 0x10, kind * 4 + mask * 0x10, dummies);
  }

  /** Four bytes of a DWORD. */
  lemma Fields(b0: nat, b1: nat, b2: nat, b3: nat, dw: nat)
    requires b0 < 0x100 && b1 < 0x100 && b2 < 0x100 && dw == b0 + b1 * 0x100 + b2 * 0x1_0000 + b3 * 0x100_0000
    ensures dw / 0x100 % 0x100 == b1 && dw / 0x1_0000 == b2 + b3 * 0x100 && dw / 0x1_0000 % 0x100 == b2 && dw / 0x100_0000 == b3
    ensures dw % 2 == b0 % 2 && dw / 2 % 2 == b0 / 2 % 2
  {
    var high := b2 + b3 * 0x100;
    DivModUnique(dw, 0x1_0000, high, b0 + b1 * 0x100);
    DivModUnique(high, 0x100, b3, b2);
    DivModUnique(dw, 0x100_0000, b3, b0 + b1 * 0x100 + b2 * 0x1_0000);
    DivModUnique(dw, 0x100, b1 + high * 0x100, b0);
    DivModUnique(b1 + high * 0x100, 0x100, high, b1);
    Halve(dw, b0 / 2 + (b1 + high * 0x100) * 0x80, b0 % 2);
    Halve(b0 / 2 + (b1 + high * 0x100) * 0x80, b0 / 4 + (b1 + high * 0x100) * 0x40, b0 / 2 % 2);
  }

  /** The fields of any map header, whatever its reserved bits. */
  lemma HeaderBytes(b0: nat, b1: nat, b2: nat, b3: nat)
    requires b0 < 0x100 && b1 < 0x100 && b2 < 0x100 && b3 < 0x100
    ensures var dw := b0 + b1 * 0x100 + b2 * 0x1_0000 + b3 * 0x100_0000;
      && IsLast(dw) == (b0 % 2 == 1) && IsMap(dw) == (b0 / 2 % 2 == 1)
      && ConfigId(dw) == b1 && RegionCount(dw) == b2 + 1
  {
    Fields(b0, b1, b2, b3, b0 + b1 * 0x100 + b2 * 0x1_0000 + b3 * 0x100_0000);
  }

  lemma HeaderFields(m: SectorLayout, last: bool)
    requires m.Valid()
    ensures var h := m.Header(last);
      IsMap(h) && IsLast(h) == last && ConfigId(h) == m.cid && RegionCount(h) == |m.entries|
  {
    Fields(if last then 3 else 2, m.cid, |m.entries| - 1, 0, m.Header(last));
  }

  lemma Halve(x: nat, u: nat, b: nat)
    requires b < 2 && x == 2 * u + b
    ensures x / 2 == u && x % 2 == b
  {
  }

  /** The low four bits of a number. */
  lemma LowBits(u: nat, b3: nat, b2: nat, b1: nat, b0: nat, dw: nat)
    requires b3 < 2 && b2 < 2 && b1 < 2 && b0 < 2 && dw == u * 0x100 + 8 * b3 + 4 * b2 + 2 * b1 + b0
    ensures dw / 0x100 == u && dw % 2 == b0 && dw / 2 % 2 == b1 && dw / 4 % 2 == b2 && dw / 8 % 2 == b3
  {
    var d1: nat, d2: nat, d3: nat := u * 0x80 + 4 * b3 + 2 * b2 + b1, u * 0x40 + 2 * b3 + b2, u * 0x20 + b3;
    Halve(dw, d1, b0);
    Halve(d1, d2, b1);
    Halve(d2, d3, b2);
    Halve(d3, u * 0x10, b3);
    assert dw / 4 == d2 && dw / 8 == d3;
  }

  lemma EntryFields(e: Entry)
    requires e.Valid()
    ensures RegionSize(e.Dw()) == (e.units + 1) * 0x100
    ensures forall i: nat | i < MAX_ERASE_INFO :: HasType(e.Dw(), i) <==> i in e.types
  {
    LowBits(e.units, if 3 in e.types then 1 else 0, if 2 in e.types then 1 else 0, if 1 in e.types then 1 else 0,
            if 0 in e.types then 1 else 0, e.Dw());
    forall i: nat | i < MAX_ERASE_INFO ensures HasType(e.Dw(), i) <==> i in e.types {
      assert i == 0 || i == 1 || i == 2 || i == 3;
    }
  }

  /** Nothing a table can hold is outside the format: every DWORD without the map bit is read as some command,
      and every DWORD of 32 bits as some region entry. */
  lemma EveryCommand(dw: nat, addr: nat, defaults: Defaults) returns (c: Command)
    ensures c.Valid() && OpAt(dw, addr, defaults) == c.Op(defaults) && dw / 0x100_0000 % 0x100 == c.mask
  {
    c := Command(dw / 0x100 % 0x100, dw / 0x1_0000 % 0x10, dw / 0x40_0000 % 4, dw / 0x100_0000 % 0x100, addr, IsLast(dw));
  }

  lemma EveryEntry(dw: nat) returns (e: Entry)
    requires dw < 0x1_0000_0000
    ensures e.Valid() && RegionSize(dw) == (e.units + 1) * 0x100
    ensures forall i: nat | i < 4 :: HasType(dw, i) <==> i in e.types
  {
    e := Entry(dw / 0x100, set i: nat | i < 4 && HasType(dw, i));
  }

  // ---- detection ----

  function Answers(cmds: seq<Command>, defaults: Defaults, probe: DetectOp -> Reply): (r: Word)
    requires ValidCommands(cmds) && forall c | c in cmds :: probe(c.Op(defaults)).Data?
    ensures |r| == |cmds|
  {
    if cmds == [] then [] else [cmds[0].Answer(defaults, probe)] + Answers(cmds[1..], defaults, probe)
  }

  lemma DetectEnds(t: Table, defaults: Defaults, probe: DetectOp -> Reply, i: nat, cid: nat)
    requires 1 <= i <= |t.dw| + 1 && (i > |t.dw| || IsMap(t.Dw(i)))
    ensures Detect(t, defaults, probe, i, cid) == Maps(i, cid)
  {
  }

  lemma DetectStep(t: Table, defaults: Defaults, probe: DetectOp -> Reply, i: nat, cid: nat, c: Command)
    requires c.Valid() && probe(c.Op(defaults)).Data?
    requires 1 <= i < |t.dw| && t.Dw(i) == c.Dw1() && t.Dw(i + 1) == c.addr
    ensures Detect(t, defaults, probe, i, cid)
         == Detect(t, defaults, probe, i + 2, (2 * cid + if c.Answer(defaults, probe) then 1 else 0) % 0x100)
  {
    hide IsMap, OpAt, Command.Dw1, Command.Op;
    CommandFields(c, defaults);
  }

  /** The command loop reads exactly the commands in front of the maps, and the configuration it detects is
      the number its answers spell, first answer highest, in eight bits. */
  lemma {:induction false} DetectEncoded(t: Table, pre: seq<nat>, cmds: seq<Command>, maps: seq<nat>,
                                         defaults: Defaults, probe: DetectOp -> Reply, done: Word)
    requires ValidCommands(cmds) && forall c | c in cmds :: probe(c.Op(defaults)).Data?
    requires t.dw == pre + EncodeCommands(cmds) + maps && (maps == [] || IsMap(maps[0]))
    ensures Detect(t, defaults, probe, |pre| + 1, Value(done) % 0x100)
         == Maps(|pre| + 2 * |cmds| + 1, Value(done + Answers(cmds, defaults, probe)) % 0x100)
    decreases |cmds|
  {
    hide IsMap, OpAt, Command.Dw1, Command.Op, Command.Answer, Selected, Detect, Value;
    if cmds == [] {
      assert done + [] == done;
      assert maps != [] ==> t.Dw(|pre| + 1) == maps[0];
      DetectEnds(t, defaults, probe, |pre| + 1, Value(done) % 0x100);
    } else {
      var c := cmds[0];
      var i := |pre| + 1;
      assert EncodeCommands(cmds) == [c.Dw1(), c.addr] + EncodeCommands(cmds[1..]);
      assert t.Dw(i) == c.Dw1() && t.Dw(i + 1) == c.addr;
      CommandFields(c, defaults);
      var b := c.Answer(defaults, probe);
      assert t.dw == (pre + [c.Dw1(), c.addr]) + EncodeCommands(cmds[1..]) + maps;
      NextId(done, b);
      DetectStep(t, defaults, probe, i, Value(done) % 0x100, c);
      DetectEncoded(t, pre + [c.Dw1(), c.addr], cmds[1..], maps, defaults, probe, done + [b]);
      assert (done + [b]) + Answers(cmds[1..], defaults, probe) == done + Answers(cmds, defaults, probe);
    }
  }

  lemma NextId(done: Word, b: bool)
    ensures (2 * (Value(done) % 0x100) + if b then 1 else 0) % 0x100 == Value(done + [b]) % 0x100
  {
    assert (done + [b])[..|done|] == done;
    NextRemainder(Value(done), if b then 1 else 0);
  }

  lemma NextRemainder(v: nat, b: nat)
    ensures (2 * (v % 0x100) + b) % 0x100 == (2 * v + b) % 0x100
  {
    var q, r := v / 0x100, v % 0x100;
    assert 2 * v + b == 0x200 * q + (2 * r + b);
    ModAdd(0x200 * q, 2 * r + b, 0x100);
  }

  // ---- the walk ----

  /** Map k is the first with this configuration. */
  predicate FirstWith(maps: seq<SectorLayout>, cid: nat, k: nat) {
    k < |maps| && maps[k].cid == cid && forall j | 0 <= j < k :: maps[j].cid != cid
  }

  lemma EncodedHead(t: Table, pre: seq<nat>, maps: seq<SectorLayout>)
    requires ValidMaps(maps) && maps != [] && t.dw == pre + EncodeMaps(maps)
    ensures t.Dw(|pre| + 1) == maps[0].Header(|maps| == 1)
    ensures t.dw == (pre + maps[0].Encode(|maps| == 1)) + EncodeMaps(maps[1..])
  {
  }

  lemma {:induction false} SearchHits(t: Table, pre: seq<nat>, maps: seq<SectorLayout>, cid: nat, k: nat)
    requires ValidMaps(maps) && t.dw == pre + EncodeMaps(maps) && FirstWith(maps, cid, k)
    ensures Search(t, |pre| + 1, cid) == Some(|pre| + 1 + Offset(maps, k))
    decreases |maps|
  {
    hide ConfigId, IsLast, RegionCount, IsMap;
    EncodedHead(t, pre, maps);
    HeaderFields(maps[0], |maps| == 1);
    if k > 0 {
      assert maps[0].cid != cid;
      SearchHits(t, pre + maps[0].Encode(|maps| == 1), maps[1..], cid, k - 1);
    }
  }

  lemma {:induction false} SearchMisses(t: Table, pre: seq<nat>, maps: seq<SectorLayout>, cid: nat)
    requires ValidMaps(maps) && t.dw == pre + EncodeMaps(maps) && forall m | m in maps :: m.cid != cid
    ensures Search(t, |pre| + 1, cid) == None
    decreases |maps|
  {
    hide ConfigId, IsLast, RegionCount, IsMap;
    if maps != [] {
      EncodedHead(t, pre, maps);
      HeaderFields(maps[0], |maps| == 1);
      if |maps| > 1 {
        SearchMisses(t, pre + maps[0].Encode(false), maps[1..], cid);
      }
    }
  }

  /** Where the DWORDs of map k stand. */
  lemma {:induction false} EncodedMapAt(t: Table, pre: seq<nat>, maps: seq<SectorLayout>, k: nat)
    requires ValidMaps(maps) && t.dw == pre + EncodeMaps(maps) && k < |maps|
    ensures var at := |pre| + 1 + Offset(maps, k);
      && maps[k].Valid() && at + |maps[k].entries| <= |t.dw| && t.Dw(at) == maps[k].Header(k == |maps| - 1)
      && forall j | 0 <= j < |maps[k].entries| :: t.Dw(EntryIndex(at, j)) == maps[k].entries[j].Dw()
    decreases k
  {
    EncodedHead(t, pre, maps);
    if k == 0 {
      forall j | 0 <= j < |maps[0].entries|
        ensures t.Dw(EntryIndex(|pre| + 1, j)) == maps[0].entries[j].Dw()
      {
        assert t.dw[|pre| + 1 + j] == maps[0].Encode(|maps| == 1)[1 + j];
      }
    } else {
      EncodedMapAt(t, pre + maps[0].Encode(|maps| == 1), maps[1..], k - 1);
    }
  }

  // ---- the table as a whole ----

  function Encoded(cmds: seq<Command>, maps: seq<SectorLayout>, past: nat): Table
    requires ValidMaps(maps)
  {
    Table(EncodeCommands(cmds) + EncodeMaps(maps), past)
  }

  lemma NoBits()
    ensures Value([]) == 0
  {
  }

  lemma DetectWhole(cmds: seq<Command>, maps: seq<SectorLayout>, past: nat, defaults: Defaults, probe: DetectOp -> Reply)
    requires ValidCommands(cmds) && ValidMaps(maps) && forall c | c in cmds :: probe(c.Op(defaults)).Data?
    ensures Detect(Encoded(cmds, maps, past), defaults, probe, 1, 0)
         == Maps(2 * |cmds| + 1, Value(Answers(cmds, defaults, probe)) % 0x100)
  {
    hide IsMap, Detect, Value, Answers, EncodeCommands, Command.Op, ConfigId, RegionCount;
    var t := Encoded(cmds, maps, past);
    var none: Word, empty: seq<nat> := [], [];
    assert none + Answers(cmds, defaults, probe) == Answers(cmds, defaults, probe);
    assert t.dw == empty + EncodeCommands(cmds) + EncodeMaps(maps);
    if maps != [] {
      HeaderFields(maps[0], |maps| == 1);
    }
    NoBits();
    DetectEncoded(t, empty, cmds, EncodeMaps(maps), defaults, probe, none);
  }

  /** A well-formed table is parsed to the first map with the detected configuration, and rejected without one. */
  lemma ParseEncoded(cmds: seq<Command>, maps: seq<SectorLayout>, past: nat, defaults: Defaults, probe: DetectOp -> Reply)
    requires ValidCommands(cmds) && ValidMaps(maps) && forall c | c in cmds :: probe(c.Op(defaults)).Data?
    ensures var t, cid := Encoded(cmds, maps, past), Value(Answers(cmds, defaults, probe)) % 0x100;
      && (forall k: nat | FirstWith(maps, cid, k) :: Parse(t, defaults, probe) == Map(2 * |cmds| + 1 + Offset(maps, k)))
      && ((forall m | m in maps :: m.cid != cid) ==> Parse(t, defaults, probe) == Reject)
  {
    hide IsMap, IsLast, Detect, Search, ConfigId, RegionCount, Value, Answers, EncodeMaps, EncodeCommands, Command.Op, Offset;
    var t, pre := Encoded(cmds, maps, past), EncodeCommands(cmds);
    DetectWhole(cmds, maps, past, defaults, probe);
    var cid := Value(Answers(cmds, defaults, probe)) % 0x100;
    forall k: nat | FirstWith(maps, cid, k)
      ensures Parse(t, defaults, probe) == Map(2 * |cmds| + 1 + Offset(maps, k))
    {
      SearchHits(t, pre, maps, cid, k);
      EncodedMapAt(t, pre, maps, k);
      HeaderFields(maps[k], k == |maps| - 1);
    }
    if forall m | m in maps :: m.cid != cid {
      SearchMisses(t, pre, maps, cid);
    }
  }

  /** The region has the size and the erase types of the entry. */
  predicate MatchesEntry(e: Entry, sizes: seq<nat>, r: Region)
    requires |sizes| == MAX_ERASE_INFO
  {
    r.size == (e.units + 1) * 0x100 && forall i: nat | i < MAX_ERASE_INFO :: i in r.mask <==> i in e.types && sizes[i] > 0
  }

  lemma DecodeEntry(e: Entry, sizes: seq<nat>, r: Region)
    requires e.Valid() && |sizes| == MAX_ERASE_INFO && Decodes(e.Dw(), sizes, r)
    ensures MatchesEntry(e, sizes, r)
  {
    hide RegionSize, HasType, Entry.Dw, Extremes;
    EntryFields(e);
  }

  /** Decoding gives back the regions that were encoded, in their order. */
  lemma DecodeEncoded(cmds: seq<Command>, maps: seq<SectorLayout>, past: nat, k: nat, sizes: seq<nat>, regions: seq<Region>)
    requires ValidMaps(maps) && k < |maps| && |sizes| == MAX_ERASE_INFO
    requires var at := 2 * |cmds| + 1 + Offset(maps, k);
      && at <= |Encoded(cmds, maps, past).dw|
      && Decoded(Encoded(cmds, maps, past), sizes, at, RegionCount(Encoded(cmds, maps, past).Dw(at)), regions)
    ensures |regions| == |maps[k].entries|
    ensures forall j | 0 <= j < |regions| :: MatchesEntry(maps[k].entries[j], sizes, regions[j])
  {
    hide RegionCount, ConfigId, IsMap, IsLast, EncodeMaps, EncodeCommands, Offset, Decodes, MatchesEntry;
    hide Entry.Dw, SectorLayout.Header;
    var t, at := Encoded(cmds, maps, past), 2 * |cmds| + 1 + Offset(maps, k);
    EncodedMapAt(t, EncodeCommands(cmds), maps, k);
    HeaderFields(maps[k], k == |maps| - 1);
    forall j | 0 <= j < |regions| ensures MatchesEntry(maps[k].entries[j], sizes, regions[j]) {
      assert Decodes(t.Dw(EntryIndex(at, j)), sizes, regions[j]);
      DecodeEntry(maps[k].entries[j], sizes, regions[j]);
    }
  }

  // ---- which maps the erase planner can use ----

  function EntrySize(e: Entry): nat { (e.units + 1) * 0x100 }

  /** Where the region of entry j starts. */
  function EntryStart(m: SectorLayout, j: nat): nat
    requires j <= |m.entries|
  {
    if j == 0 then 0 else EntryStart(m, j - 1) + EntrySize(m.entries[j - 1])
  }

  /** The sizes the setup compares with the flash size are those of the entries. */
  lemma {:induction false} EncodedTotal(cmds: seq<Command>, maps: seq<SectorLayout>, past: nat, k: nat, n: nat)
    requires ValidMaps(maps) && k < |maps| && n <= |maps[k].entries|
    ensures var t, at := Encoded(cmds, maps, past), 2 * |cmds| + 1 + Offset(maps, k);
      && at + |maps[k].entries| <= |t.dw| && RegionCount(t.Dw(at)) == |maps[k].entries|
      && EntriesTotal(t, at, n) == EntryStart(maps[k], n)
    decreases n
  {
    hide Encoded, Offset, RegionCount, ConfigId, IsMap, IsLast, RegionSize, HasType, Entry.Dw, SectorLayout.Header;
    EncodedWholeMapAt(cmds, maps, past, k);
    HeaderFields(maps[k], k == |maps| - 1);
    if n > 0 {
      EncodedTotal(cmds, maps, past, k, n - 1);
      EntryFields(maps[k].entries[n - 1]);
    }
  }

  lemma EncodedWholeMapAt(cmds: seq<Command>, maps: seq<SectorLayout>, past: nat, k: nat)
    requires ValidMaps(maps) && k < |maps|
    ensures var t, at := Encoded(cmds, maps, past), 2 * |cmds| + 1 + Offset(maps, k);
      && maps[k].Valid() && at + |maps[k].entries| <= |t.dw| && t.Dw(at) == maps[k].Header(k == |maps| - 1)
      && forall j | 0 <= j < |maps[k].entries| :: t.Dw(EntryIndex(at, j)) == maps[k].entries[j].Dw()
  {
    hide EncodeMaps, EncodeCommands, Offset, Entry.Dw, SectorLayout.Header;
    EncodedMapAt(Encoded(cmds, maps, past), EncodeCommands(cmds), maps, k);
  }

  /** The entry allows this erase type and the part has it. */
  predicate Usable(e: Entry, sizes: seq<nat>, i: nat) { i in e.types && i < |sizes| && sizes[i] > 0 }

  /** n is the smallest erase size of the entry's region. */
  ghost predicate Smallest(e: Entry, sizes: seq<nat>, n: nat) {
    && (exists i: nat :: Usable(e, sizes, i) && Min(sizes[i], EntrySize(e)) == n)
    && forall i: nat :: Usable(e, sizes, i) ==> n <= Min(sizes[i], EntrySize(e))
  }

  /** The entry has a usable erase type, and if its smallest erase size is a power of two its region starts and ends
      on a multiple of it. */
  ghost predicate EntryFits(m: SectorLayout, j: nat, sizes: seq<nat>)
    requires j < |m.entries|
  {
    exists n: nat :: Smallest(m.entries[j], sizes, n)
      && (IsPow2(n) ==> EntryStart(m, j) % n == 0 && EntrySize(m.entries[j]) % n == 0)
  }

  /** The regions are those of the map. */
  predicate MatchesMap(m: SectorLayout, sizes: seq<nat>, regions: seq<Region>)
    requires |sizes| == MAX_ERASE_INFO
  {
    |regions| == |m.entries| && forall j | 0 <= j < |regions| :: MatchesEntry(m.entries[j], sizes, regions[j])
  }

  lemma {:induction false} SameStarts(m: SectorLayout, sizes: seq<nat>, regions: seq<Region>, j: nat)
    requires |sizes| == MAX_ERASE_INFO && MatchesMap(m, sizes, regions) && j <= |regions|
    ensures Base(regions, j) == EntryStart(m, j)
  {
    if j > 0 {
      SameStarts(m, sizes, regions, j - 1);
      assert MatchesEntry(m.entries[j - 1], sizes, regions[j - 1]);
    }
  }

  lemma UsableIsMasked(e: Entry, sizes: seq<nat>, r: Region)
    requires e.Valid() && |sizes| == MAX_ERASE_INFO && MatchesEntry(e, sizes, r) && UsableMask(sizes, r.mask)
    ensures forall i: nat :: Usable(e, sizes, i) <==> i in r.mask
  {
  }

  /** Entry j fits if and only if its region is regular. */
  lemma EntryFitsIff(m: SectorLayout, sizes: seq<nat>, regions: seq<Region>, j: nat)
    requires m.Valid() && |sizes| == MAX_ERASE_INFO && MatchesMap(m, sizes, regions) && j < |regions|
    requires Layout(sizes, regions).Filled()
    ensures EntryFits(m, j, sizes) <==> Layout(sizes, regions).Regular(j)
  {
    hide IsPow2, MatchesEntry;
    var e, r := m.entries[j], regions[j];
    assert MatchesEntry(e, sizes, r);
    EntrySizeIs(e, sizes, r);
    UsableIsMasked(e, sizes, r);
    SameStarts(m, sizes, regions, j);
    if r.mask != {} {
      SmallestIs(e, sizes, r);
    } else {
      forall n: nat ensures !Smallest(e, sizes, n) {
      }
    }
  }

  lemma EntrySizeIs(e: Entry, sizes: seq<nat>, r: Region)
    requires |sizes| == MAX_ERASE_INFO && MatchesEntry(e, sizes, r)
    ensures r.size == EntrySize(e) > 0
  {
  }

  lemma SmallestIs(e: Entry, sizes: seq<nat>, r: Region)
    requires |sizes| == MAX_ERASE_INFO && r.size == EntrySize(e) && r.mask != {} && UsableMask(sizes, r.mask)
    requires forall i: nat :: Usable(e, sizes, i) <==> i in r.mask
    requires Extremes(sizes, r.mask, r.size, r.minErase, r.maxErase)
    ensures forall n: nat :: Smallest(e, sizes, n) <==> n == r.minErase
  {
    var m :| m in r.mask && Capped(sizes, m, r.size) == r.minErase;
    assert Usable(e, sizes, m) && Min(sizes[m], EntrySize(e)) == r.minErase;
    assert Smallest(e, sizes, r.minErase);
    forall n: nat | Smallest(e, sizes, n) ensures n == r.minErase {
      var i: nat :| Usable(e, sizes, i) && Min(sizes[i], EntrySize(e)) == n;
      assert Capped(sizes, i, r.size) == n;
    }
  }

  /** For power-of-two erase types, the regions of a map make a layout the planner can use, and every request is erased
      exactly, if and only if every entry of the map fits. */
  lemma MapExactIff(m: SectorLayout, sizes: seq<nat>, regions: seq<Region>)
    requires m.Valid() && |sizes| == MAX_ERASE_INFO && MatchesMap(m, sizes, regions) && Layout(sizes, regions).Filled()
    requires forall i | 0 <= i < |sizes| && sizes[i] > 0 :: IsPow2(sizes[i])
    ensures var layout := Layout(sizes, regions);
      && (layout.Valid() <==> forall j | 0 <= j < |m.entries| :: EntryFits(m, j, sizes))
      && Masked(layout)
      && (layout.Valid() <==> forall addr: nat, len: nat | len > 0 && addr + len <= layout.Total() :: Exact(layout, addr, len))
  {
    var layout := Layout(sizes, regions);
    AllTypesPow2(layout);
    ValidIff(layout);
    forall j | 0 <= j < |m.entries| ensures EntryFits(m, j, sizes) <==> layout.Regular(j) {
      EntryFitsIff(m, sizes, regions, j);
    }
    forall j | 0 <= j < |regions| ensures regions[j].size > 0 {
      EntrySizeIs(m.entries[j], sizes, regions[j]);
    }
    ExactIff(layout);
  }

  /** So it is for what the parser makes of a well-formed table. */
  lemma EncodedExactIff(cmds: seq<Command>, maps: seq<SectorLayout>, past: nat, k: nat, sizes: seq<nat>, regions: seq<Region>)
    requires ValidMaps(maps) && k < |maps| && |sizes| == MAX_ERASE_INFO
    requires forall i | 0 <= i < |sizes| && sizes[i] > 0 :: IsPow2(sizes[i])
    requires var at := 2 * |cmds| + 1 + Offset(maps, k);
      && at <= |Encoded(cmds, maps, past).dw|
      && Decoded(Encoded(cmds, maps, past), sizes, at, RegionCount(Encoded(cmds, maps, past).Dw(at)), regions)
    ensures Layout(sizes, regions).Valid() <==> forall j | 0 <= j < |maps[k].entries| :: EntryFits(maps[k], j, sizes)
  {
    hide EntryFits, MatchesEntry, Exact, IsPow2, RegionCount, Offset, Encoded, Decodes;
    DecodeEncoded(cmds, maps, past, k, sizes, regions);
    DecodedFilled(Encoded(cmds, maps, past), sizes, 2 * |cmds| + 1 + Offset(maps, k), regions);
    MapExactIff(maps[k], sizes, regions);
  }

  lemma AllTypesPow2(layout: Layout)
    requires layout.Filled() && forall i | 0 <= i < |layout.sizes| && layout.sizes[i] > 0 :: IsPow2(layout.sizes[i])
    ensures layout.PowerOfTwoTypes()
  {
  }

  /** No erase type of the entry is one the part has. */
  ghost predicate Unusable(e: Entry, sizes: seq<nat>) { forall i: nat :: !Usable(e, sizes, i) }

  lemma TypelessEntry(m: SectorLayout, sizes: seq<nat>, regions: seq<Region>, j: nat)
    requires m.Valid() && |sizes| == MAX_ERASE_INFO && MatchesMap(m, sizes, regions) && Layout(sizes, regions).Filled()
    requires j < |regions|
    ensures Typeless(Layout(sizes, regions), j) <==> Unusable(m.entries[j], sizes)
  {
    hide MatchesEntry, Extremes;
    var e, r := m.entries[j], regions[j];
    assert MatchesEntry(e, sizes, r);
    EntrySizeIs(e, sizes, r);
    UsableIsMasked(e, sizes, r);
    if i :| i in r.mask {
      assert Usable(e, sizes, i);
    }
  }

  /** Whatever the erase types, some erase request inside the part divides by zero if and only if an entry of the map
      has no erase type the part has. */
  lemma EncodedDividesIff(m: SectorLayout, sizes: seq<nat>, regions: seq<Region>)
    requires m.Valid() && |sizes| == MAX_ERASE_INFO && MatchesMap(m, sizes, regions) && Layout(sizes, regions).Filled()
    ensures var layout := Layout(sizes, regions);
      && Masked(layout)
      && ((exists addr: nat, len: nat :: len > 0 && addr + len <= layout.Total() && Divides(layout, addr, len))
          <==> exists j | 0 <= j < |m.entries| :: Unusable(m.entries[j], sizes))
  {
    var layout := Layout(sizes, regions);
    DividesIff(layout);
    hide Masked, MatchesEntry, Unusable, Typeless, Divides;
    forall j: nat | j < |regions| ensures Typeless(layout, j) <==> Unusable(m.entries[j], sizes) {
      TypelessEntry(m, sizes, regions, j);
    }
    if k: nat :| Typeless(layout, k) {
      assert k < |regions|;
    }
  }

  // ---- maps that are accepted and should not be ----

  /** 64 KiB of 4 KiB sectors, and 64 KiB whose only erase type the part does not have. */
  function HalfTyped(): SectorLayout { SectorLayout(0, [Entry(0xff, {0}), Entry(0xff, {1})]) }

  /** Its table is accepted and covers the part, and erasing the first byte of the second half divides by zero. */
  lemma TypelessAccepted(past: nat, defaults: Defaults, probe: DetectOp -> Reply, sizes: seq<nat>, regions: seq<Region>)
    requires sizes == [0x1000, 0, 0, 0]
    ensures var t := Encoded([], [HalfTyped()], past);
      && Parse(t, defaults, probe) == Map(1) && t.Valid()
      && EntriesTotal(t, 1, RegionCount(t.Dw(1))) == 0x2_0000
      && (Decoded(t, sizes, 1, RegionCount(t.Dw(1)), regions) ==>
            && TotalSize(regions) == 0x2_0000 && Masked(Layout(sizes, regions))
            && Divides(Layout(sizes, regions), 0x1_0000, 1))
  {
    hide Parse, Divides, Decodes, Entry.Dw, RegionCount;
    var none: seq<Command>, m := [], HalfTyped();
    var t := Encoded(none, [m], past);
    NoBits();
    assert Answers(none, defaults, probe) == [];
    assert FirstWith([m], Value(Answers(none, defaults, probe)) % 0x100, 0);
    ParseEncoded(none, [m], past, defaults, probe);
    EncodedTotal(none, [m], past, 0, 2);
    assert EntryStart(m, 1) == EntrySize(m.entries[0]) && EntryStart(m, 2) == EntryStart(m, 1) + EntrySize(m.entries[1]);
    if Decoded(t, sizes, 1, RegionCount(t.Dw(1)), regions) {
      var layout := Layout(sizes, regions);
      DecodeEncoded(none, [m], past, 0, sizes, regions);
      DecodedFilled(t, sizes, 1, regions);
      SameStarts(m, sizes, regions, 1);
      SameStarts(m, sizes, regions, 2);
      TypelessEntry(m, sizes, regions, 1);
      TypelessDivides(layout, 1);
    }
  }

  // ---- detection that does not come to its end ----

  /** The part answers the first j commands. */
  predicate AnsweredFirst(cmds: seq<Command>, defaults: Defaults, probe: DetectOp -> Reply, j: nat) {
    j <= |cmds| && forall i | 0 <= i < j :: probe(cmds[i].Op(defaults)).Data?
  }

  predicate FirstRefused(cmds: seq<Command>, defaults: Defaults, probe: DetectOp -> Reply, j: nat) {
    j < |cmds| && AnsweredFirst(cmds, defaults, probe, j) && probe(cmds[j].Op(defaults)).NotSupported?
  }

  predicate FirstLost(cmds: seq<Command>, defaults: Defaults, probe: DetectOp -> Reply, j: nat) {
    j < |cmds| && AnsweredFirst(cmds, defaults, probe, j) && probe(cmds[j].Op(defaults)).TransferFailed?
  }

  /** Where the DWORDs of command j stand. */
  lemma {:induction false} EncodedCommandAt(pre: seq<nat>, cmds: seq<Command>, rest: seq<nat>, j: nat)
    requires j < |cmds|
    ensures var dw := pre + EncodeCommands(cmds) + rest;
      |pre| + 2 * j + 1 < |dw| && dw[|pre| + 2 * j] == cmds[j].Dw1() && dw[|pre| + 2 * j + 1] == cmds[j].addr
    decreases j
  {
    hide Command.Dw1;
    var head := [cmds[0].Dw1(), cmds[0].addr];
    assert EncodeCommands(cmds) == head + EncodeCommands(cmds[1..]);
    if j > 0 {
      EncodedCommandAt(pre + head, cmds[1..], rest, j - 1);
      assert pre + head + EncodeCommands(cmds[1..]) + rest == pre + EncodeCommands(cmds) + rest;
    }
  }

  lemma EncodedOp(cmds: seq<Command>, maps: seq<SectorLayout>, past: nat, defaults: Defaults, j: nat)
    requires ValidCommands(cmds) && ValidMaps(maps) && j < |cmds|
    ensures var t := Encoded(cmds, maps, past);
      CommandAt(t, j) && OpOf(t, defaults, j) == cmds[j].Op(defaults)
  {
    hide IsMap, OpAt, Command.Dw1, Command.Op;
    var none: seq<nat> := [];
    EncodedCommandAt(none, cmds, EncodeMaps(maps), j);
    assert none + EncodeCommands(cmds) + EncodeMaps(maps) == Encoded(cmds, maps, past).dw;
    CommandFields(cmds[j], defaults);
  }

  lemma NoMoreCommands(cmds: seq<Command>, maps: seq<SectorLayout>, past: nat)
    requires ValidMaps(maps)
    ensures !CommandAt(Encoded(cmds, maps, past), |cmds|)
  {
    hide IsMap, ConfigId, IsLast, RegionCount;
    if maps != [] {
      EncodedHead(Encoded(cmds, maps, past), EncodeCommands(cmds), maps);
      HeaderFields(maps[0], |maps| == 1);
    }
  }

  lemma AnsweredEncoded(cmds: seq<Command>, maps: seq<SectorLayout>, past: nat,
                        defaults: Defaults, probe: DetectOp -> Reply, j: nat)
    requires ValidCommands(cmds) && ValidMaps(maps)
    ensures j <= |cmds| ==>
      (Answered(Encoded(cmds, maps, past), defaults, probe, j) <==> AnsweredFirst(cmds, defaults, probe, j))
    ensures j > |cmds| ==> !Answered(Encoded(cmds, maps, past), defaults, probe, j)
    ensures j == |cmds| ==> !Issued(Encoded(cmds, maps, past), defaults, probe, j)
  {
    hide CommandAt, OpOf, Encoded, Command.Op;
    NoMoreCommands(cmds, maps, past);
    forall i: nat | i < |cmds|
      ensures CommandAt(Encoded(cmds, maps, past), i) && OpOf(Encoded(cmds, maps, past), defaults, i) == cmds[i].Op(defaults)
    {
      EncodedOp(cmds, maps, past, defaults, i);
    }
  }

  /** A well-formed table is kept, for lack of a way to detect the configuration, if and only if the controller refuses
      the first command that the part does not answer; the detection fails if and only if that command's transfer fails. */
  lemma KeepEncodedIff(cmds: seq<Command>, maps: seq<SectorLayout>, past: nat, defaults: Defaults, probe: DetectOp -> Reply)
    requires ValidCommands(cmds) && ValidMaps(maps)
    ensures var t := Encoded(cmds, maps, past);
      && (Parse(t, defaults, probe).Keep? <==> exists j: nat :: FirstRefused(cmds, defaults, probe, j))
      && (Detect(t, defaults, probe, 1, 0).Failed? <==> exists j: nat :: FirstLost(cmds, defaults, probe, j))
  {
    hide Parse, Detect, Answered, AnsweredFirst, Encoded, Command.Op;
    var t := Encoded(cmds, maps, past);
    DetectEndsIff(t, defaults, probe);
    forall j: nat
      ensures Refused(t, defaults, probe, j) <==> FirstRefused(cmds, defaults, probe, j)
      ensures Lost(t, defaults, probe, j) <==> FirstLost(cmds, defaults, probe, j)
    {
      AnsweredEncoded(cmds, maps, past, defaults, probe, j);
      if j < |cmds| {
        EncodedOp(cmds, maps, past, defaults, j);
      }
    }
  }

  /** The controller sends no command, or every command is answered by zero. */
  function NoneSent(op: DetectOp): Reply { NotSupported }

  function AllZero(op: DetectOp): Reply { Data(0) }

  /** One command asking for the configuration. */
  function OneCommand(): Command { Command(0x65, 0, 0, 1, 0, true) }

  function AskingTable(past: nat): Table { Encoded([OneCommand()], [HalfTyped()], past) }

  lemma AskingTableFields(past: nat)
    ensures |AskingTable(past).dw| == 5 && RegionCount(AskingTable(past).Dw(3)) == 2
  {
    hide RegionCount;
    EncodedMapAt(AskingTable(past), EncodeCommands([OneCommand()]), [HalfTyped()], 0);
    HeaderFields(HalfTyped(), true);
  }

  lemma ZeroDetected(defaults: Defaults)
    ensures Value(Answers([OneCommand()], defaults, AllZero)) == 0
  {
    var cmds, empty: Word := [OneCommand()], [];
    NoBits();
    assert cmds[1..] == [];
    assert Answers(cmds, defaults, AllZero) == empty + [false] && (empty + [false])[..0] == empty;
  }

  /** If the controller cannot send the command the table is kept as if there were none, and the setup succeeds with
      one region over the part; an answer would have brought up the two regions of the map. */
  lemma KeepHappens(past: nat, defaults: Defaults)
    ensures var t := AskingTable(past);
      && t.Valid() && Parse(t, defaults, NoneSent) == Keep
      && Parse(t, defaults, AllZero) == Map(3) && RegionCount(t.Dw(3)) == 2
  {
    hide Parse, RegionCount, Encoded, Value, Answers;
    var cmds, maps := [OneCommand()], [HalfTyped()];
    AskingTableFields(past);
    assert FirstRefused(cmds, defaults, NoneSent, 0);
    KeepEncodedIff(cmds, maps, past, defaults, NoneSent);
    ZeroDetected(defaults);
    assert FirstWith(maps, Value(Answers(cmds, defaults, AllZero)) % 0x100, 0);
    ParseEncoded(cmds, maps, past, defaults, AllZero);
  }
}
