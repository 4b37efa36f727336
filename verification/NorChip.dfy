/** A SPI-NOR chip as seen from the bus. It carries out a frame it understands when it is ready for it; a frame that
    finds it busy, write-protected, in another bus mode or in the middle of an AAI sequence sets misused.
    Only identification is tolerated in the wrong bus mode: the driver probes with it. */
module NorChip {
  import opened PowerOfTwo
  import opened EraseRegions
  import opened ErasePlan
  import opened FlashMemory
  import opened Wrappers

  /** How bits 31..24 of an address reach a chip that takes three address bytes. */
  datatype HighByteRegister = NoHighByte | ExtendedAddress | Bank

  /** What never changes about a chip; the boot values are its state after a reset. */
  datatype Chip = Chip(
    size: nat, pageSize: nat, noWren: bool, layout: Layout, readWrap: nat,
    highByte: HighByteRegister, fourByteOps: bool,
    bootWidth: nat, bootFour: bool, bootHigh: nat,
    idWays: set<(nat, nat)>)

  /** What has changed the array: page programs, words of AAI sequences, erased blocks. */
  datatype Mutation = Program(addr: nat, data: seq<bv8>) | Word(addr: nat, data: seq<bv8>) | EraseBlock(block: Block)

  datatype Dev = Dev(
    mem: seq<bv8>, wel: bool, busy: nat, width: nat, high: nat, four: bool, aai: Option<nat>,
    misused: bool, trace: seq<Mutation>)

  datatype Command =
    | ReadStatus
    | WriteEnable
    | WriteDisable
    | ReadArray(n: nat)
    | PageProgram(data: seq<bv8>)
    | AaiProgram(data: seq<bv8>)
    | EraseType(i: nat)
    | WriteHighByte(val: nat)
    | ReadHighByte
    | SwitchWidth(to: nat)
    | SwitchAddressing(four: bool)
    | SoftReset
    | ReadId(way: nat)

  /** One bus operation: lines used for the command byte, address bytes sent, address value. */
  datatype Frame = Frame(width: nat, cmd: Command, naddr: nat, addr: nat)

  datatype Reply = NoReply | Status(busy: bool, wel: bool) | Bytes(data: seq<bv8>) | Register(val: nat) | Id(known: bool)

  function AddressBytes(chip: Chip, d: Dev): nat { if d.four || chip.fourByteOps then 4 else 3 }

  /** The array address a frame ends up at: only the address bytes sent count. */
  function Landing(d: Dev, f: Frame): nat {
    if f.naddr >= 4 then f.addr % 0x1_0000_0000 else d.high * 0x100_0000 + f.addr % 0x100_0000
  }

  function Misuse(d: Dev): Dev { d.(misused := true) }

  function MayWrite(chip: Chip, d: Dev): bool { d.wel || chip.noWren }

  /** A program or erase operation is under way for dur more status reads; the latch clears as it completes. */
  function Start(d: Dev, dur: nat, keepLatch: bool): Dev {
    d.(busy := dur, wel := if dur == 0 && !keepLatch then false else d.wel)
  }

  /** A page program runs on inside its page: past the last byte it continues at the first. */
  function ProgramInPage(mem: seq<bv8>, page: nat, a: nat, data: seq<bv8>): (r: seq<bv8>)
    requires page > 0
    ensures |r| == |mem|
  {
    seq(|mem|, i requires 0 <= i < |mem| =>
      if i / page == a / page && (i - a) % page < |data| then mem[i] & data[(i - a) % page] else mem[i])
  }

  lemma NoWrapInPage(mem: seq<bv8>, page: nat, a: nat, data: seq<bv8>)
    requires page > 0 && a % page + |data| <= page && a + |data| <= |mem|
    ensures ProgramInPage(mem, page, a, data) == Programmed(mem, a, data)
  {
    var base := a - a % page;
    forall i | 0 <= i < |mem|
      ensures ProgramInPage(mem, page, a, data)[i] == Programmed(mem, a, data)[i]
    {
      PageOffset(page, a, i);
    }
  }

  lemma PageOffset(page: nat, a: nat, i: nat)
    requires page > 0
    ensures var base := a - a % page;
      && (i / page == a / page <==> base <= i < base + page)
      && (a <= i < base + page ==> (i - a) % page == i - a)
      && (base <= i < a ==> (i - a) % page == i - a + page)
  {
    var q := a / page;
    var base := q * page;
    assert a == base + a % page;
    assert i == i / page * page + i % page;
    if base <= i < base + page {
      DivModUnique(i, page, q, i - base);
      if a <= i {
        DivModUnique(i - a, page, 0, i - a);
      } else {
        DivModUnique(i - a, page, -1, i - a + page);
      }
    }
  }

  /** The block an erase command for type i at address a erases. */
  function ErasedBlock(layout: Layout, k: nat, i: nat, a: nat): Block
    requires k < |layout.regions| && i < |layout.sizes| && Base(layout.regions, k) <= a
    requires Capped(layout.sizes, i, layout.regions[k].size) > 0
  {
    var n, base := Capped(layout.sizes, i, layout.regions[k].size), Base(layout.regions, k);
    Block(if IsPow2(n) then AlignDown(a, n) else base + AlignDown(a - base, n), n)
  }

  /** The data bytes that go with a command, where that may be several. */
  function DataLen(c: Command): nat {
    match c
    case ReadArray(n) => n
    case PageProgram(data) => |data|
    case AaiProgram(data) => |data|
    case _ => 0
  }

  /** Commands that carry address bytes. */
  predicate HasAddress(c: Command) { c.ReadArray? || c.PageProgram? || c.AaiProgram? || c.EraseType? }

  /** The frame finds the chip listening on the same lines, and carries no address bytes the command does not take. */
  predicate Understood(d: Dev, f: Frame) { f.width == d.width && (!HasAddress(f.cmd) ==> f.naddr == 0) }

  /** Commands the chip still takes while an operation is under way. */
  predicate TakenWhileBusy(c: Command) { c.ReadStatus? }

  /** Commands the chip takes between the first AAI word and the write disable. */
  predicate TakenDuringAai(c: Command) { c.ReadStatus? || c.AaiProgram? || c.WriteDisable? }

  predicate Ready(d: Dev, f: Frame) {
    && Understood(d, f)
    && (d.busy > 0 ==> TakenWhileBusy(f.cmd))
    && (d.aai.Some? ==> TakenDuringAai(f.cmd))
  }

  predicate Addressed(chip: Chip, d: Dev, f: Frame) {
    f.naddr == AddressBytes(chip, d) && Landing(d, f) < |d.mem|
  }

  function Receive(chip: Chip, d: Dev, f: Frame, dur: nat): (r: Dev)
    requires chip.pageSize > 0 && chip.layout.Total() == |d.mem|
    ensures |r.mem| == |d.mem|
  {
    if f.cmd.ReadId? && d.busy == 0 && d.aai.None? then d
    else if !Ready(d, f) then Misuse(d)
    else
      match f.cmd
      case ReadStatus =>
        if d.busy == 0 then d
        else d.(busy := d.busy - 1, wel := if d.busy == 1 && d.aai.None? then false else d.wel)
      case WriteEnable => d.(wel := true)
      case WriteDisable => d.(wel := false, aai := None)
      case ReadArray(n) =>
        if Addressed(chip, d, f) && Landing(d, f) + n <= |d.mem| then d else Misuse(d)
      case PageProgram(data) =>
        if MayWrite(chip, d) && 0 < |data| <= chip.pageSize && Addressed(chip, d, f) then
          Start(d.(mem := ProgramInPage(d.mem, chip.pageSize, Landing(d, f), data),
                   trace := d.trace + [Program(Landing(d, f), data)]), dur, false)
        else Misuse(d)
      case AaiProgram(data) =>
        if |data| != 2 then Misuse(d)
        else if d.aai.None? then
          if MayWrite(chip, d) && Addressed(chip, d, f) && Landing(d, f) % 2 == 0 && Landing(d, f) + 2 <= |d.mem| then
            AaiWord(d, Landing(d, f), data, dur)
          else Misuse(d)
        else if f.naddr == 0 && d.aai.value + 2 <= |d.mem| then AaiWord(d, d.aai.value, data, dur)
        else Misuse(d)
      case EraseType(i) =>
        if MayWrite(chip, d) && Addressed(chip, d, f) && i < |chip.layout.sizes| then
          var k := chip.layout.At(Landing(d, f));
          if i in chip.layout.regions[k].mask && Capped(chip.layout.sizes, i, chip.layout.regions[k].size) > 0 then
            var b := ErasedBlock(chip.layout, k, i, Landing(d, f));
            Start(d.(mem := Erased(d.mem, b.start, b.start + b.size), trace := d.trace + [EraseBlock(b)]), dur, false)
          else Misuse(d)
        else Misuse(d)
      case WriteHighByte(val) =>
        if chip.highByte.NoHighByte? || val >= 256 || (chip.highByte.ExtendedAddress? && !MayWrite(chip, d)) then Misuse(d)
        else d.(high := val)
      case ReadHighByte => d
      case ReadId(_) => d
      case SwitchWidth(to) => d.(width := to)
      case SwitchAddressing(four) => d.(four := four)
      case SoftReset =>
        d.(wel := false, width := chip.bootWidth, four := chip.bootFour, high := chip.bootHigh)
  }

  /** One word of an AAI sequence: programmed at the pointer, which moves on; the latch stays set. */
  function AaiWord(d: Dev, a: nat, data: seq<bv8>, dur: nat): Dev
    requires |data| == 2 && a + 2 <= |d.mem|
  {
    Start(d.(mem := Programmed(d.mem, a, data), aai := Some(a + 2), trace := d.trace + [Word(a, data)]), dur, true)
  }

  /** The array address of byte j of a read at a: the counter wraps inside blocks of readWrap bytes, if that is set. */
  function ReadAddress(chip: Chip, a: nat, j: nat): nat {
    if chip.readWrap == 0 then a + j else a - a % chip.readWrap + (a % chip.readWrap + j) % chip.readWrap
  }

  /** What the chip puts on the bus for a frame. */
  function Answer(chip: Chip, d: Dev, f: Frame): Reply
  {
    match f.cmd
    case ReadStatus => Status(d.busy > 0, d.wel)
    case ReadArray(n) =>
      Bytes(seq(n, j requires 0 <= j < n =>
        if ReadAddress(chip, Landing(d, f), j) < |d.mem| then d.mem[ReadAddress(chip, Landing(d, f), j)] else 0))
    case ReadHighByte => Register(d.high)
    case ReadId(way) => Id(Understood(d, f) && (f.width, way) in chip.idWays)
    case _ => NoReply
  }

  /** What a chip that was never misused tells about every frame it has seen: the flag never clears, and a frame
      that leaves it clear was sent in the chip's mode; programs, first AAI words and erases found the chip idle
      and write-enabled; in an AAI sequence only words, status reads and write disables came. */
  lemma NeverMisused(chip: Chip, d: Dev, f: Frame, dur: nat)
    requires chip.pageSize > 0 && chip.layout.Total() == |d.mem| && !Receive(chip, d, f, dur).misused
    ensures !d.misused
    ensures f.cmd.ReadId? || (f.width == d.width && (!HasAddress(f.cmd) ==> f.naddr == 0))
    ensures d.busy > 0 ==> f.cmd.ReadStatus?
    ensures f.cmd.PageProgram? || f.cmd.EraseType? || (f.cmd.AaiProgram? && d.aai.None?) ==>
              d.busy == 0 && d.aai.None? && MayWrite(chip, d) && f.naddr == AddressBytes(chip, d) && Landing(d, f) < |d.mem|
    ensures d.aai.Some? ==> f.cmd.AaiProgram? || f.cmd.ReadStatus? || f.cmd.WriteDisable?
  {
  }

  /** The array changes only through those commands, and only where the frame's address says. */
  lemma OnlyWritesChangeArray(chip: Chip, d: Dev, f: Frame, dur: nat)
    requires chip.pageSize > 0 && chip.layout.Total() == |d.mem|
    ensures Receive(chip, d, f, dur).mem != d.mem ==>
              (f.cmd.PageProgram? || f.cmd.AaiProgram? || f.cmd.EraseType?) && d.busy == 0 && (d.aai.Some? || MayWrite(chip, d))
  {
  }

  /** A block whose start is aligned for its size is the block the chip erases there. */
  lemma AlignedEraseBlock(layout: Layout, k: nat, i: nat, a: nat)
    requires layout.Valid() && k < |layout.regions| && i in layout.regions[k].mask && i < |layout.sizes|
    requires Base(layout.regions, k) <= a
    requires var n := Capped(layout.sizes, i, layout.regions[k].size); n > 0 && Aligned(layout, k, a, n)
    ensures ErasedBlock(layout, k, i, a) == Block(a, Capped(layout.sizes, i, layout.regions[k].size))
  {
    var n, base := Capped(layout.sizes, i, layout.regions[k].size), Base(layout.regions, k);
    if IsPow2(n) {
      AlignDownUnique(a, n, a);
    } else {
      AlignDownUnique(a - base, n, a - base);
    }
  }

  /** A page program that reaches a ready, write-enabled chip and stays inside its page programs the plain range. */
  lemma ProgramReceived(chip: Chip, d: Dev, f: Frame, addr: nat, data: seq<bv8>, dur: nat)
    requires chip.pageSize > 0 && chip.layout.Total() == |d.mem|
    requires f.cmd == PageProgram(data) && Ready(d, f) && MayWrite(chip, d)
    requires f.naddr == AddressBytes(chip, d) && Landing(d, f) == addr
    requires 0 < |data| && addr % chip.pageSize + |data| <= chip.pageSize && addr + |data| <= |d.mem|
    ensures Receive(chip, d, f, dur)
         == Start(d.(mem := Programmed(d.mem, addr, data), trace := d.trace + [Program(addr, data)]), dur, false)
  {
    NoWrapInPage(d.mem, chip.pageSize, addr, data);
  }

  /** The first word of an AAI sequence goes to the frame's address, each further word to the pointer. */
  lemma AaiReceived(chip: Chip, d: Dev, f: Frame, addr: nat, data: seq<bv8>, dur: nat)
    requires chip.pageSize > 0 && chip.layout.Total() == |d.mem|
    requires f.cmd == AaiProgram(data) && |data| == 2 && Ready(d, f) && addr + 2 <= |d.mem|
    requires if d.aai.None? then
               MayWrite(chip, d) && f.naddr == AddressBytes(chip, d) && Landing(d, f) == addr && addr % 2 == 0
             else d.aai == Some(addr) && f.naddr == 0
    ensures Receive(chip, d, f, dur) == AaiWord(d, addr, data, dur)
  {
  }

  /** An erase command at the aligned start of a permitted block erases that block. */
  lemma EraseReceived(chip: Chip, d: Dev, f: Frame, addr: nat, i: nat, dur: nat)
    requires chip.pageSize > 0 && chip.layout.Valid() && chip.layout.Total() == |d.mem|
    requires f.cmd == EraseType(i) && Ready(d, f) && MayWrite(chip, d)
    requires f.naddr == AddressBytes(chip, d) && Landing(d, f) == addr < |d.mem|
    requires var k := chip.layout.At(addr);
      && i < |chip.layout.sizes| && i in chip.layout.regions[k].mask
      && Capped(chip.layout.sizes, i, chip.layout.regions[k].size) > 0
      && Aligned(chip.layout, k, addr, Capped(chip.layout.sizes, i, chip.layout.regions[k].size))
    ensures var b := Block(addr, Capped(chip.layout.sizes, i, chip.layout.regions[chip.layout.At(addr)].size));
      Receive(chip, d, f, dur)
        == Start(d.(mem := Erased(d.mem, addr, addr + b.size), trace := d.trace + [EraseBlock(b)]), dur, false)
  {
    hide Erased;
    AlignedEraseBlock(chip.layout, chip.layout.At(addr), i, addr);
  }

  /** A read that stays inside a wrap block sees consecutive addresses. */
  lemma ReadIsLinear(chip: Chip, a: nat, n: nat, j: nat)
    requires j < n && (chip.readWrap > 0 ==> n <= chip.readWrap - a % chip.readWrap)
    ensures ReadAddress(chip, a, j) == a + j
  {
    if chip.readWrap > 0 {
      DivModUnique(a % chip.readWrap + j, chip.readWrap, 0, a % chip.readWrap + j);
    }
  }

  /** A read that stays inside the array and inside a wrap block returns the plain range and changes nothing. */
  lemma ReadReceived(chip: Chip, d: Dev, f: Frame, addr: nat, n: nat)
    requires chip.pageSize > 0 && chip.layout.Total() == |d.mem|
    requires f.cmd == ReadArray(n) && Ready(d, f) && n > 0
    requires f.naddr == AddressBytes(chip, d) && Landing(d, f) == addr && addr + n <= |d.mem|
    requires chip.readWrap > 0 ==> n <= chip.readWrap - addr % chip.readWrap
    ensures Receive(chip, d, f, 0) == d && Answer(chip, d, f) == Bytes(d.mem[addr..addr + n])
    ensures forall dur: nat :: Receive(chip, d, f, dur) == d
  {
    forall j | 0 <= j < n ensures ReadAddress(chip, addr, j) == addr + j {
      ReadIsLinear(chip, addr, n, j);
    }
    assert Answer(chip, d, f).data == d.mem[addr..addr + n];
  }

  /** With three address bytes and no high-byte register every address lands where it should
      if and only if the chip is no larger than the three bytes reach. */
  lemma ThreeBytesReach(d: Dev, width: nat, cmd: Command)
    requires d.high == 0
    ensures (forall a: nat | a < |d.mem| :: Landing(d, Frame(width, cmd, 3, a)) == a) <==> |d.mem| <= 0x100_0000
  {
    if |d.mem| > 0x100_0000 {
      var a: nat := 0x100_0000;
      assert Landing(d, Frame(width, cmd, 3, a)) == 0 != a;
    } else {
      forall a: nat | a < |d.mem| ensures Landing(d, Frame(width, cmd, 3, a)) == a {
        DivModUnique(a, 0x100_0000, 0, a);
      }
    }
  }

  /** The high byte in the register and three bytes on the bus make up the full address. */
  lemma HighByteLanding(d: Dev, width: nat, cmd: Command, addr: nat)
    requires addr < 0x1_0000_0000 && d.high == addr / 0x100_0000 % 256
    ensures Landing(d, Frame(width, cmd, 3, addr % 0x100_0000)) == addr
    ensures Landing(d, Frame(width, cmd, 3, addr)) == addr
  {
    assert addr / 0x100_0000 < 256;
  }
}
