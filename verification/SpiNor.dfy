/** The SPI-NOR driver: it keeps shadow copies of the chip's bus mode, high address byte and addressing mode,
    plans erases, splits writes, and runs the write-enable / command / poll protocol over a bus. */
module SpiNor {
  import opened PowerOfTwo
  import opened EraseRegions
  import opened ErasePlan
  import opened FlashMemory
  import opened NorChip
  import opened Wrappers

  const THREE_BYTES := 0x100_0000
  const FOUR_BYTES := 0x1_0000_0000

  datatype Status = Ok | Fail | Timeout | IoError | InvalidParameter | OutOfRange | NotSupported

  /** Reliable: every transfer reaches the chip and the chip finishes in time. Unplugged: none does.
      Flaky: any transfer may fail, before or after it reached the chip. */
  datatype Link = Reliable | Unplugged | Flaky

  /** What probing a part has settled. */
  datatype Config = Config(
    size: nat, pageSize: nat, noWren: bool, layout: Layout, dieGran: nat,
    partAddrBytes: nat, naddr: nat, cmdWidth: nat, readWidth: nat, ppWidth: nat,
    highByte: HighByteRegister,
    hasA4bEn: bool, hasA4bDis: bool, hasDpiEn: bool, hasDpiDis: bool, hasQpiEn: bool, hasQpiDis: bool,
    hasSoftReset: bool, aai: bool)

  /** The driver can put the chip in this bus mode and take it out again. */
  predicate Switchable(cfg: Config, width: nat) {
    || width == 1
    || (width == 2 && cfg.hasDpiEn && cfg.hasDpiDis)
    || (width == 4 && cfg.hasQpiEn && cfg.hasQpiDis)
  }

  /** The part has a command to leave this bus mode. */
  predicate CanLeave(cfg: Config, width: nat) { (width == 2 && cfg.hasDpiDis) || (width == 4 && cfg.hasQpiDis) }

  /** The part has a command to enter this bus mode from plain SPI. */
  predicate CanEnter(cfg: Config, width: nat) { (width == 2 && cfg.hasDpiEn) || (width == 4 && cfg.hasQpiEn) }

  /** The bus mode a switch from one mode to another leaves the chip in. */
  function WidthAfter(cfg: Config, from: nat, to: nat): nat {
    if from == to || CanEnter(cfg, to) then to else if CanLeave(cfg, from) then 1 else from
  }

  /** The switch sends a command: to leave the one mode or to enter the other. */
  predicate SwitchSends(cfg: Config, from: nat, to: nat) { from != to && (CanLeave(cfg, from) || CanEnter(cfg, to)) }

  lemma SwitchableReached(cfg: Config, from: nat, to: nat)
    requires Switchable(cfg, from) && Switchable(cfg, to)
    ensures WidthAfter(cfg, from, to) == to
  {
  }

  /** The switch works if and only if the mode to enter has an entry command; for plain SPI, if the mode to leave
      has an exit command. */
  lemma SwitchWorksIff(cfg: Config, from: nat, to: nat)
    requires from == 1 || from == 2 || from == 4
    ensures WidthAfter(cfg, from, to) == to <==>
      (from == to
       || (to == 1 && ((from == 2 && cfg.hasDpiDis) || (from == 4 && cfg.hasQpiDis)))
       || (to == 2 && cfg.hasDpiEn) || (to == 4 && cfg.hasQpiEn))
  {
  }

  /** The configuration fits the part: what the probing code arranges. */
  predicate Suits(cfg: Config, chip: Chip) {
    && chip.size == cfg.size && chip.pageSize == cfg.pageSize && IsPow2(cfg.pageSize)
    && chip.noWren == cfg.noWren && chip.layout == cfg.layout && chip.readWrap == cfg.dieGran
    && chip.highByte == cfg.highByte
    && cfg.layout.Valid() && cfg.layout.Total() == cfg.size
    // addressing
    && (cfg.naddr == 3 || cfg.naddr == 4) && cfg.size <= FOUR_BYTES
    && (cfg.naddr == 3 && cfg.highByte.NoHighByte? ==> cfg.size <= THREE_BYTES && chip.bootHigh == 0)
    && (!cfg.highByte.NoHighByte? ==> cfg.naddr == 3)
    && (cfg.naddr == 4 && !chip.fourByteOps ==> cfg.hasA4bEn && cfg.partAddrBytes > 3)
    && (cfg.naddr == 3 ==> !chip.fourByteOps && (chip.bootFour ==> cfg.hasA4bDis && cfg.partAddrBytes > 3))
    // bus modes
    && Switchable(cfg, cfg.cmdWidth) && Switchable(cfg, cfg.readWidth) && Switchable(cfg, cfg.ppWidth)
    && Switchable(cfg, chip.bootWidth) && IdTriesReach(chip)
    // AAI parts are plain single-I/O parts
    && (cfg.aai ==> cfg.ppWidth == 1 && !cfg.noWren && cfg.highByte.NoHighByte?)
  }

  /** How a part says it enters four-byte addressing. */
  datatype EnableType = EnEar | EnBank | EnOther

  /** The three-address-byte branch of the opcode setup: None when it is not taken, otherwise the register it uses
      for bits 31..24. Only the flags choose a register; the enable type alone selects the branch without one. */
  function SelectHighByte(flagEar: bool, flagBank: bool, en: EnableType): Option<HighByteRegister> {
    if flagEar || flagBank || en.EnEar? || en.EnBank? then
      Some(if flagEar then ExtendedAddress else if flagBank then Bank else NoHighByte)
    else None
  }

  /** Which flag selects which register; the extended-address register goes first. */
  lemma SelectedRegister(flagEar: bool, flagBank: bool, en: EnableType)
    ensures var r := SelectHighByte(flagEar, flagBank, en);
      && (r == Some(ExtendedAddress) <==> flagEar) && (r == Some(Bank) <==> flagBank && !flagEar)
      && (r == Some(NoHighByte) <==> !flagEar && !flagBank && (en.EnEar? || en.EnBank?))
  {
  }

  /** What the chip's register holds once spi_nor_setup_addr has run for addr. */
  function HighAfterSetup(reg: HighByteRegister, high: nat, addr: nat): nat {
    if reg.NoHighByte? then high else addr / THREE_BYTES % 256
  }

  /** In that branch every address of the part is reached if and only if the part fits three address bytes
      or one of the two flags is set. */
  lemma SelectionReachesIff(d: Dev, width: nat, cmd: Command, flagEar: bool, flagBank: bool, en: EnableType)
    requires SelectHighByte(flagEar, flagBank, en).Some? && d.high == 0 && |d.mem| <= FOUR_BYTES
    ensures var reg := SelectHighByte(flagEar, flagBank, en).value;
      (forall a: nat | a < |d.mem| ::
         Landing(d.(high := HighAfterSetup(reg, 0, a)),
                 Frame(width, cmd, 3, if reg.NoHighByte? then a else a % THREE_BYTES)) == a)
      <==> |d.mem| <= THREE_BYTES || flagEar || flagBank
  {
    var reg := SelectHighByte(flagEar, flagBank, en).value;
    if reg.NoHighByte? {
      assert d.(high := 0) == d;
      ThreeBytesReach(d, width, cmd);
      assert forall a: nat | a < |d.mem| ::
               Landing(d.(high := HighAfterSetup(reg, 0, a)), Frame(width, cmd, 3, a)) == Landing(d, Frame(width, cmd, 3, a));
    } else {
      forall a: nat | a < |d.mem|
        ensures Landing(d.(high := HighAfterSetup(reg, 0, a)), Frame(width, cmd, 3, a % THREE_BYTES)) == a
      {
        HighByteLanding(d.(high := HighAfterSetup(reg, 0, a)), width, cmd, a);
      }
    }
  }

  /** spi_nor_recheck_cmd_buswidth tries these bus widths and identification variants in turn. */
  const ID_TRIES: seq<(nat, nat)> := [(1, 0), (4, 0), (4, 1), (4, 2), (2, 0), (2, 2)]

  /** After a reset the chip identifies itself to one of the tries: to the plain command on one, two or four lines, or to
      the one for several lines without dummy byte or, on four lines, with one. */
  predicate IdTriesReach(chip: Chip) {
    || (chip.bootWidth == 1 && (1, 0) in chip.idWays)
    || (chip.bootWidth == 2 && ((2, 0) in chip.idWays || (2, 2) in chip.idWays))
    || (chip.bootWidth == 4 && ((4, 0) in chip.idWays || (4, 1) in chip.idWays || (4, 2) in chip.idWays))
  }

  lemma TriesReach(chip: Chip)
    requires IdTriesReach(chip)
    ensures exists k | 0 <= k < |ID_TRIES| :: ID_TRIES[k].0 == chip.bootWidth && ID_TRIES[k] in chip.idWays
  {
    var t := ID_TRIES;
    assert t[0] == (1, 0) && t[1] == (4, 0) && t[2] == (4, 1) && t[3] == (4, 2) && t[4] == (2, 0) && t[5] == (2, 2);
  }

  /** A chip state with the latch and the remaining busy time left out. */
  function Settled(d: Dev): Dev { d.(busy := 0, wel := false) }

  /** A status read at an operation under way; the latch clears as a program or erase operation completes. */
  function Poll(d: Dev): Dev {
    if d.busy == 0 then d else d.(busy := d.busy - 1, wel := d.wel && (d.busy > 1 || d.aai.Some?))
  }

  /** From d to d' the chip was only polled: the latch clears as a program or erase operation completes. */
  predicate Polled(d: Dev, d': Dev) {
    && Settled(d') == Settled(d) && d'.busy <= d.busy
    && d'.wel == (d.wel && (d.busy == 0 || d'.busy > 0 || d.aai.Some?))
  }

  class Bus {
    const chip: Chip
    const link: Link
    /** The controller can send two data bytes in one operation. */
    const pairs: bool
    var dev: Dev
    /** The length the controller last agreed to. */
    var granted: nat

    constructor (chip: Chip, link: Link, pairs: bool, dev: Dev)
      ensures this.chip == chip && this.link == link && this.pairs == pairs && this.dev == dev && granted == 0
    {
      this.chip, this.link, this.pairs, this.dev, granted := chip, link, pairs, dev, 0;
    }

    /** A single byte always goes through, more only as much as the controller agreed to. */
    predicate Grants(n: nat)
      reads this
    {
      n <= 1 || n <= granted
    }

    /** The chip's array has the size its tables say. */
    predicate Valid()
      reads this
    {
      chip.pageSize > 0 && chip.layout.Total() == |dev.mem|
    }

    /** ufprog_spi_mem_exec_op; dur is how many status reads the chip stays busy if the frame starts an operation. */
    method Transfer(f: Frame) returns (ok: bool, rx: Reply, ghost dur: nat)
      requires Valid() && Grants(DataLen(f.cmd))
      modifies this`dev
      ensures Valid() && |dev.mem| == |old(dev).mem|
      ensures link.Reliable? ==> ok && dev == Receive(chip, old(dev), f, dur) && rx == Answer(chip, old(dev), f)
      ensures link.Unplugged? ==> !ok && dev == old(dev)
    {
      hide Receive, Answer;
      rx, dur := NoReply, 0;
      if link.Unplugged? {
        return false, rx, dur;
      }
      var n: nat := *;
      dur := n;
      var lost: bool, failed: bool := *, *;
      if link.Flaky? && lost {
        return false, rx, dur;
      }
      rx := Answer(chip, dev, f);
      dev := Receive(chip, dev, f, n);
      return !(link.Flaky? && failed), rx, dur;
    }

    /** ufprog_spi_mem_adjust_op_size: the controller may shorten an operation as it likes, but not to nothing. */
    method AdjustOpSize(len: nat) returns (n: nat)
      requires len > 0
      modifies this`granted
      ensures 0 < n <= len && (pairs && len <= 2 ==> n == len) && granted == n
    {
      n :| 0 < n <= len && (pairs && len <= 2 ==> n == len);
      granted := n;
    }

    /** How many more polls fit before the deadline; on a reliable link the chip finishes by then, but the last of them
        may still find it busy. */
    method PollBudget() returns (n: nat)
      ensures link.Reliable? ==> n + 1 >= dev.busy
    {
      n :| link.Reliable? ==> n + 1 >= dev.busy;
    }
  }

  /** The chip setup sends a command that chooses the number of address bytes. */
  predicate SetsAddressing(cfg: Config) {
    cfg.partAddrBytes > 3 && if cfg.naddr > 3 then cfg.hasA4bEn else cfg.hasA4bDis
  }

  /** state.a4b_mode is the chip's addressing mode where the setup chooses that, and stays clear elsewhere. */
  predicate ModeMatches(cfg: Config, chip: Chip, four: bool, a4bMode: bool) {
    if SetsAddressing(cfg) then a4bMode == four == (cfg.naddr > 3) else !a4bMode && four == chip.bootFour
  }

  /** It is the chip's addressing mode if and only if the setup chooses that or the chip starts with three bytes. */
  lemma ModeShadowIff(cfg: Config, chip: Chip, four: bool, a4bMode: bool)
    requires ModeMatches(cfg, chip, four, a4bMode)
    ensures a4bMode == four <==> SetsAddressing(cfg) || !chip.bootFour
  {
  }

  /** The address a frame must carry, and does carry after spi_nor_setup_addr. */
  function SentAddress(cfg: Config, addr: nat): nat {
    if cfg.highByte.NoHighByte? then addr else addr % THREE_BYTES
  }

  /** The array and its history are as before. */
  predicate SameArray(d: Dev, d': Dev) { d'.mem == d.mem && d'.trace == d.trace }

  /** A write latch that was clear is clear again. */
  predicate LatchKept(d: Dev, d': Dev) { !d.wel ==> !d'.wel }

  /** A program entry that stays inside its page. */
  predicate InPage(pageSize: nat, m: Mutation) {
    m.Program? ==> pageSize > 0 && m.addr % pageSize + |m.data| <= pageSize
  }

  /** The history grew by entries that stay inside their pages. */
  predicate GrewInPages(pageSize: nat, t: seq<Mutation>, t': seq<Mutation>) {
    && |t| <= |t'| && t'[..|t|] == t
    && forall k | |t| <= k < |t'| :: InPage(pageSize, t'[k])
  }

  function EraseMutations(run: seq<Block>): (r: seq<Mutation>)
    ensures |r| == |run|
  {
    seq(|run|, i requires 0 <= i < |run| => EraseBlock(run[i]))
  }

  lemma GrewFurther(pageSize: nat, t: seq<Mutation>, t': seq<Mutation>, t'': seq<Mutation>)
    requires GrewInPages(pageSize, t, t') && GrewInPages(pageSize, t', t'')
    ensures GrewInPages(pageSize, t, t'')
  {
    assert t''[..|t|] == t''[..|t'|][..|t|];
    forall k | |t| <= k < |t''| ensures InPage(pageSize, t''[k]) {
      if k < |t'| {
        assert t''[k] == t''[..|t'|][k] == t'[k];
      }
    }
  }

  /** From d0 to d the first done bytes of the data were programmed at addr. */
  predicate Wrote(pageSize: nat, d0: Dev, d: Dev, addr: nat, data: seq<bv8>, done: nat) {
    && done <= |data| && addr + |data| <= |d0.mem|
    && d.mem == Programmed(d0.mem, addr, data[..done]) && GrewInPages(pageSize, d0.trace, d.trace)
  }

  lemma WroteNothing(pageSize: nat, d: Dev, addr: nat, data: seq<bv8>)
    requires addr + |data| <= |d.mem|
    ensures Wrote(pageSize, d, d, addr, data, 0)
  {
    ProgrammedNothing(d.mem, addr);
    assert data[..0] == [];
  }

  lemma WroteMore(pageSize: nat, d0: Dev, d1: Dev, d2: Dev, addr: nat, data: seq<bv8>, done: nat, n: nat)
    requires Wrote(pageSize, d0, d1, addr, data, done) && done + n <= |data|
    requires d2.mem == Programmed(d1.mem, addr + done, data[done..|data|][..n]) && GrewInPages(pageSize, d1.trace, d2.trace)
    ensures Wrote(pageSize, d0, d2, addr, data, done + n)
  {
    hide Programmed, GrewInPages;
    ProgrammedNext(d0.mem, addr, data, done, |data|, n);
    GrewFurther(pageSize, d0.trace, d1.trace, d2.trace);
  }

  lemma WroteByte(pageSize: nat, d0: Dev, d1: Dev, d2: Dev, addr: nat, data: seq<bv8>, done: nat)
    requires Wrote(pageSize, d0, d1, addr, data, done) && done < |data|
    requires d2.mem == Programmed(d1.mem, addr + done, [data[done]]) && GrewInPages(pageSize, d1.trace, d2.trace)
    ensures Wrote(pageSize, d0, d2, addr, data, done + 1)
  {
    hide Programmed, GrewInPages, Wrote;
    assert data[done..|data|][..1] == [data[done]];
    WroteMore(pageSize, d0, d1, d2, addr, data, done, 1);
  }

  lemma WroteSame(pageSize: nat, d0: Dev, d: Dev, d': Dev, addr: nat, data: seq<bv8>, done: nat)
    requires Wrote(pageSize, d0, d, addr, data, done) && SameArray(d, d')
    ensures Wrote(pageSize, d0, d', addr, data, done)
  {
  }

  lemma WroteAll(pageSize: nat, d0: Dev, d: Dev, addr: nat, data: seq<bv8>, done: nat)
    requires Wrote(pageSize, d0, d, addr, data, done)
    ensures done <= |data| && d.mem == Programmed(d0.mem, addr, data[..done])
    ensures done == |data| ==> data[..done] == data
    ensures GrewInPages(pageSize, d0.trace, d.trace)
  {
  }

  lemma GrewByWord(pageSize: nat, t: seq<Mutation>, addr: nat, data: seq<bv8>)
    ensures GrewInPages(pageSize, t, t + [Word(addr, data)])
  {
  }

  lemma GrewByErases(pageSize: nat, t: seq<Mutation>, run: seq<Block>)
    ensures GrewInPages(pageSize, t, t + EraseMutations(run))
  {
  }

  lemma GrewByNone(pageSize: nat, t: seq<Mutation>)
    ensures GrewInPages(pageSize, t, t)
  {
  }

  lemma GrewByOne(pageSize: nat, t: seq<Mutation>, t': seq<Mutation>, addr: nat, data: seq<bv8>)
    requires GrewInPages(pageSize, t, t') && pageSize > 0 && addr % pageSize + |data| <= pageSize
    ensures GrewInPages(pageSize, t, t' + [Program(addr, data)])
  {
  }

  class Nor {
    const bus: Bus
    const cfg: Config
    /** state.cmd_buswidth_curr */
    var curr: nat
    /** state.curr_high_addr */
    var currHigh: nat
    /** state.a4b_mode */
    var a4bMode: bool

    constructor (bus: Bus, cfg: Config, curr: nat)
      ensures this.bus == bus && this.cfg == cfg && this.curr == curr && currHigh == 0 && !a4bMode
    {
      this.bus, this.cfg, this.curr, this.currHigh, this.a4bMode := bus, cfg, curr, 0, false;
    }

    ghost predicate Wired()
      reads bus
    {
      && Suits(cfg, bus.chip) && cfg.pageSize > 0 && cfg.layout.Valid() && cfg.layout.Total() == cfg.size
      && bus.Valid() && |bus.dev.mem| == cfg.size && (cfg.aai ==> bus.pairs)
    }

    /** The link works and the chip, idle and never misused, listens in the mode the driver believes. */
    ghost predicate Listening()
      reads this, bus
    {
      && bus.link.Reliable? && bus.dev.width == curr && bus.dev.busy == 0 && bus.dev.aai.None? && !bus.dev.misused
    }

    /** The chip's address state is the one the driver believes. */
    ghost predicate AddressInStep()
      reads this, bus
    {
      && AddressBytes(bus.chip, bus.dev) == cfg.naddr
      && (if cfg.highByte.NoHighByte? then cfg.naddr == 3 ==> bus.dev.high == 0 else bus.dev.high == currHigh)
      && ModeMatches(cfg, bus.chip, bus.dev.four, a4bMode)
    }

    /** The invariant of every run: the shadow state is the chip's state. */
    ghost predicate Ready()
      reads this, bus
    {
      Wired() && Listening() && AddressInStep() && Switchable(cfg, curr)
    }

    lemma WholeArray()
      requires Wired()
      ensures |bus.dev.mem| == cfg.size
    {
      hide Layout.Valid, Layout.Total;
    }

    /** spi_nor_issue_single_opcode, and register writes without an address */
    method Issue(cmd: Command) returns (st: Status)
      requires Wired()
      requires !HasAddress(cmd) && !cmd.ReadStatus?
      modifies bus
      ensures Wired()
      ensures bus.link.Reliable? ==>
                st == Ok && bus.dev == Receive(bus.chip, old(bus.dev), Frame(curr, cmd, 0, 0), 0)
      ensures bus.link.Unplugged? ==> st == IoError && bus.dev == old(bus.dev)
    {
      var ok, _, dur := bus.Transfer(Frame(curr, cmd, 0, 0));
      st := if ok then Ok else IoError;
    }

    /** spi_nor_read_sr: reports success even when the transfer failed, and then the value is arbitrary. */
    method ReadSr() returns (busy: bool, wel: bool)
      requires Wired()
      modifies bus
      ensures Wired()
      ensures bus.link.Reliable? ==>
                && bus.dev == Receive(bus.chip, old(bus.dev), Frame(curr, ReadStatus, 0, 0), 0)
                && busy == (old(bus.dev).busy > 0) && wel == old(bus.dev).wel && bus.dev.busy <= old(bus.dev).busy
                && (old(bus.dev).width == curr ==> bus.dev == Poll(old(bus.dev)))
      ensures bus.link.Unplugged? ==> bus.dev == old(bus.dev)
    {
      var ok, rx, dur := bus.Transfer(Frame(curr, ReadStatus, 0, 0));
      if ok && rx.Status? {
        return rx.busy, rx.wel;
      }
      busy, wel := *, *;
    }

    /** spi_nor_write_enable */
    method WriteEnable() returns (st: Status)
      requires Wired()
      modifies bus
      ensures Wired()
      ensures old(Listening()) ==>
                st == Ok && Listening() && MayWrite(bus.chip, bus.dev) && Settled(bus.dev) == Settled(old(bus.dev))
      ensures bus.link.Reliable? && old(bus.dev).busy == 0 && !cfg.noWren ==> (st == Ok <==> bus.dev.wel)
      ensures cfg.noWren ==> st == Ok && bus.dev == old(bus.dev)
      ensures bus.link.Unplugged? ==> bus.dev == old(bus.dev) && (!cfg.noWren ==> st != Ok)
    {
      if cfg.noWren {
        return Ok;
      }
      st := Issue(NorChip.WriteEnable);
      if st != Ok { return; }
      var busy, wel := ReadSr();
      st := if wel then Ok else Fail;
    }

    /** spi_nor_write_disable */
    method WriteDisable() returns (st: Status)
      requires Wired()
      modifies bus
      ensures Wired()
      ensures old(bus.link.Reliable? && bus.dev.width == curr && bus.dev.busy == 0 && !bus.dev.misused) && !cfg.noWren ==>
                st == Ok && Listening() && !bus.dev.wel && Settled(bus.dev) == Settled(old(bus.dev)).(aai := None)
      ensures old(Listening()) ==> st == Ok && Listening() && Settled(bus.dev) == Settled(old(bus.dev))
      ensures bus.link.Reliable? && old(bus.dev).busy == 0 && !cfg.noWren ==> (st == Ok <==> !bus.dev.wel)
      ensures cfg.noWren ==> st == Ok && bus.dev == old(bus.dev)
      ensures bus.link.Unplugged? ==> bus.dev == old(bus.dev)
    {
      if cfg.noWren {
        return Ok;
      }
      st := Issue(NorChip.WriteDisable);
      if st != Ok { return; }
      var busy, wel := ReadSr();
      st := if wel then Fail else Ok;
    }

    /** spi_nor_wait_busy: polls until idle or out of time, then looks once more. */
    method WaitBusy() returns (st: Status)
      requires Wired()
      modifies bus
      ensures Wired()
      ensures old(bus.link.Reliable? && bus.dev.width == curr && !bus.dev.misused) ==>
                st == Ok && bus.dev.busy == 0 && Settled(bus.dev) == Settled(old(bus.dev))
                && bus.dev.wel == (old(bus.dev).wel && (old(bus.dev).busy == 0 || old(bus.dev).aai.Some?))
      ensures bus.link.Reliable? && st == Ok ==> bus.dev.busy == 0
      ensures bus.link.Unplugged? ==> bus.dev == old(bus.dev)
    {
      hide Suits, Layout.Valid, Layout.Total, Receive;
      ghost var d0, good := bus.dev, bus.link.Reliable? && bus.dev.width == curr && !bus.dev.misused;
      var budget := bus.PollBudget();
      var busy, wel := ReadSr();
      while busy && budget > 0
        invariant Wired()
        invariant good ==> Polled(d0, bus.dev) && budget >= bus.dev.busy
        invariant bus.link.Reliable? && !busy ==> bus.dev.busy == 0
        invariant bus.link.Unplugged? ==> bus.dev == d0
        decreases budget
      {
        busy, wel := ReadSr();
        budget := budget - 1;
      }
      if busy {
        busy, wel := ReadSr();
      }
      st := if busy then Timeout else Ok;
    }

    /** spi_nor_dpi_control */
    method DpiControl(enable: bool) returns (st: Status)
      requires Wired()
      modifies this`curr, bus
      ensures Wired()
      ensures old(Listening()) ==>
        var to := if enable then 2 else 1;
        && st == Ok && Listening()
        && bus.dev == old(bus.dev).(width := if (if enable then cfg.hasDpiEn else cfg.hasDpiDis) then to else old(curr))
      ensures bus.link.Unplugged? ==>
        && bus.dev == old(bus.dev) && curr == old(curr)
        && st == if (if enable then cfg.hasDpiEn else cfg.hasDpiDis) then IoError else Ok
    {
      st := Ok;
      if enable && cfg.hasDpiEn {
        st := Issue(SwitchWidth(2));
        if st == Ok { curr := 2; }
      } else if !enable && cfg.hasDpiDis {
        st := Issue(SwitchWidth(1));
        if st == Ok { curr := 1; }
      }
    }

    /** spi_nor_qpi_control */
    method QpiControl(enable: bool) returns (st: Status)
      requires Wired()
      modifies this`curr, bus
      ensures Wired()
      ensures old(Listening()) ==>
        var to := if enable then 4 else 1;
        && st == Ok && Listening()
        && bus.dev == old(bus.dev).(width := if (if enable then cfg.hasQpiEn else cfg.hasQpiDis) then to else old(curr))
      ensures bus.link.Unplugged? ==>
        && bus.dev == old(bus.dev) && curr == old(curr)
        && st == if (if enable then cfg.hasQpiEn else cfg.hasQpiDis) then IoError else Ok
    {
      st := Ok;
      if enable && cfg.hasQpiEn {
        st := Issue(SwitchWidth(4));
        if st == Ok { curr := 4; }
      } else if !enable && cfg.hasQpiDis {
        st := Issue(SwitchWidth(1));
        if st == Ok { curr := 1; }
      }
    }

    /** First half of spi_nor_set_bus_width: back to plain SPI, where the part has a command for that. */
    method LeaveWidth() returns (st: Status)
      requires Wired()
      modifies this`curr, bus
      ensures Wired()
      ensures old(Listening()) ==>
        var left := if CanLeave(cfg, old(curr)) then 1 else old(curr);
        st == Ok && Listening() && curr == left && bus.dev == old(bus.dev).(width := left)
      ensures bus.link.Unplugged? ==>
        && bus.dev == old(bus.dev) && curr == old(curr)
        && st == if CanLeave(cfg, old(curr)) then IoError else Ok
    {
      st := Ok;
      if curr == 2 {
        st := DpiControl(false);
      } else if curr == 4 {
        st := QpiControl(false);
      }
    }

    /** Second half: into the requested mode, where the part has a command for that. */
    method EnterWidth(width: nat) returns (st: Status)
      requires Wired()
      modifies this`curr, bus
      ensures Wired()
      ensures old(Listening()) ==>
        var now := if CanEnter(cfg, width) then width else old(curr);
        st == Ok && Listening() && curr == now && bus.dev == old(bus.dev).(width := now)
      ensures bus.link.Unplugged? ==>
        && bus.dev == old(bus.dev) && curr == old(curr)
        && st == if CanEnter(cfg, width) then IoError else Ok
    {
      st := Ok;
      if width == 2 {
        st := DpiControl(true);
      } else if width == 4 {
        st := QpiControl(true);
      }
    }

    /** The address state does not depend on the bus mode. */
    twostate lemma StaysInStep(width: nat)
      requires old(AddressInStep()) && bus.dev == old(bus.dev).(width := width)
      requires currHigh == old(currHigh) && a4bMode == old(a4bMode)
      ensures AddressInStep()
    {
      hide ModeMatches;
    }

    /** spi_nor_set_bus_width: the tracked width always becomes the requested one;
        the chip follows only as far as it has commands for it. */
    method SetBusWidth(width: nat) returns (st: Status)
      requires Wired()
      modifies this`curr, bus
      ensures Wired()
      ensures old(Listening()) ==>
        && st == Ok && curr == width
        && bus.dev == old(bus.dev).(width := WidthAfter(cfg, old(curr), width))
        && (Listening() <==> WidthAfter(cfg, old(curr), width) == width)
      ensures old(Ready()) && Switchable(cfg, width) ==> Ready()
      ensures st == Ok ==> curr == width
      ensures width == old(curr) ==> st == Ok && bus.dev == old(bus.dev) && curr == old(curr)
      ensures bus.link.Unplugged? ==>
        && bus.dev == old(bus.dev)
        && st == (if SwitchSends(cfg, old(curr), width) then IoError else Ok)
        && curr == if st == Ok then width else old(curr)
    {
      hide Suits, Switchable, CanLeave, CanEnter, AddressInStep;
      if Switchable(cfg, curr) && Switchable(cfg, width) {
        SwitchableReached(cfg, curr, width);
      }
      st := Ok;
      if width != curr {
        st := LeaveWidth();
        if st != Ok { return; }
        st := EnterWidth(width);
        if st != Ok { return; }
        curr := width;
        if old(Listening()) && old(AddressInStep()) {
          StaysInStep(bus.dev.width);
        }
      }
    }

    /** Reads back the high-byte register; like every register read it reports success even if the transfer failed. */
    method ReadHigh() returns (val: nat)
      requires Wired()
      modifies bus
      ensures Wired()
      ensures bus.link.Reliable? ==>
                && bus.dev == Receive(bus.chip, old(bus.dev), Frame(curr, ReadHighByte, 0, 0), 0)
                && val == old(bus.dev).high
      ensures bus.link.Unplugged? ==> bus.dev == old(bus.dev)
    {
      var ok, rx, dur := bus.Transfer(Frame(curr, ReadHighByte, 0, 0));
      if ok && rx.Register? {
        return rx.val;
      }
      val := *;
    }

    /** spi_nor_write_addr_high_byte_ear and spi_nor_write_addr_high_byte_bank */
    method WriteAddrHighByte(b: nat) returns (st: Status)
      requires Wired() && b < 256 && !cfg.highByte.NoHighByte?
      modifies bus
      ensures Wired()
      ensures old(Listening()) ==>
                st == Ok && Listening() && Settled(bus.dev) == Settled(old(bus.dev)).(high := b)
                && bus.dev.wel == (old(bus.dev).wel && (cfg.noWren || cfg.highByte.Bank?))
      ensures bus.link.Reliable? && st == Ok ==> bus.dev.high == b
      ensures bus.link.Unplugged? ==> bus.dev == old(bus.dev) && st != Ok
    {
      if cfg.highByte.ExtendedAddress? {
        st := WriteEnable();
        if st != Ok { return; }
        st := Issue(WriteHighByte(b));
        var ignored := WriteDisable();
        if st != Ok { return; }
      } else {
        st := Issue(WriteHighByte(b));
        if st != Ok { return; }
      }
      var val := ReadHigh();
      st := if val != b then Fail else Ok;
    }

    /** spi_nor_setup_addr: moves bits 31..24 into the chip's register when they differ from the cached ones. */
    method SetupAddr(addr: nat) returns (st: Status, sent: nat)
      requires Wired() && addr < cfg.size
      modifies this`currHigh, bus
      ensures Wired()
      ensures old(Ready()) ==>
        && st == Ok && Ready() && sent == SentAddress(cfg, addr)
        && SameArray(old(bus.dev), bus.dev) && LatchKept(old(bus.dev), bus.dev)
        && (forall cmd | true :: Landing(bus.dev, Frame(curr, cmd, cfg.naddr, sent)) == addr)
      ensures bus.link.Unplugged? ==> bus.dev == old(bus.dev)
    {
      hide ModeMatches;
      st, sent := Ok, addr;
      var high := addr / THREE_BYTES % 256;
      if cfg.highByte.NoHighByte? {
        return;
      }
      if high != currHigh {
        st := WriteAddrHighByte(high);
        if st != Ok { return; }
        currHigh := high;
      }
      sent := addr % THREE_BYTES;
    }

    /** One turn of the loop of spi_nor_page_program; n is what the controller let through. */
    method ProgramChunk(addr: nat, data: seq<bv8>) returns (st: Status, n: nat)
      requires Wired() && 0 < |data| && addr + |data| <= cfg.size && addr % cfg.pageSize + |data| <= cfg.pageSize
      modifies this`currHigh, bus
      ensures Wired() && 0 < n <= |data|
      ensures old(Ready()) && curr == cfg.ppWidth ==>
        && st == Ok && Ready()
        && bus.dev.mem == Programmed(old(bus.dev).mem, addr, data[..n])
        && bus.dev.trace == old(bus.dev).trace + [Program(addr, data[..n])] && !bus.dev.wel
      ensures bus.link.Unplugged? ==> st != Ok && bus.dev == old(bus.dev)
    {
      hide Receive, Switchable, IsPow2, Layout.Valid, Layout.Total, ModeMatches;
      n := |data|;
      var sent;
      st, sent := SetupAddr(addr);
      if st != Ok { return; }
      st := WriteEnable();
      if st != Ok { return; }
      n := bus.AdjustOpSize(|data|);
      ghost var d := bus.dev;
      var f := Frame(cfg.ppWidth, PageProgram(data[..n]), cfg.naddr, sent);
      var ok, _, dur := bus.Transfer(f);
      if !ok { return IoError, n; }
      if old(Ready()) && curr == cfg.ppWidth {
        ProgramReceived(bus.chip, d, f, addr, data[..n], dur);
      }
      st := WaitBusy();
    }

    /** spi_nor_page_program: programs up to the end of the page. */
    method PageProgramWrite(addr: nat, data: seq<bv8>) returns (st: Status, retlen: nat)
      requires Wired() && 0 < |data| && addr + |data| <= cfg.size
      modifies this`currHigh, bus
      ensures Wired() && 0 < retlen <= |data|
      ensures retlen == Min(cfg.pageSize - addr % cfg.pageSize, |data|)
      ensures old(Ready()) && curr == cfg.ppWidth ==>
        && st == Ok && Ready()
        && bus.dev.mem == Programmed(old(bus.dev).mem, addr, data[..retlen])
        && GrewInPages(cfg.pageSize, old(bus.dev).trace, bus.dev.trace) && !bus.dev.wel
      ensures bus.link.Unplugged? ==> st != Ok && bus.dev == old(bus.dev)
    {
      hide Suits, Programmed, Receive, GrewInPages, InPage, AddressBytes, Switchable, IsPow2, Layout.Valid, Layout.Total, ModeMatches;
      var proglen: nat := cfg.pageSize - addr % cfg.pageSize;
      if proglen > |data| {
        proglen := |data|;
      }
      retlen := proglen;
      st := Ok;
      var a := addr;
      ghost var mem0, t0 := bus.dev.mem, bus.dev.trace;
      ghost var good := Ready() && curr == cfg.ppWidth;
      ProgrammedNothing(mem0, addr);
      assert data[..0] == [];
      GrewByNone(cfg.pageSize, t0);
      while proglen > 0
        invariant Wired() && proglen <= retlen && a == addr + (retlen - proglen)
        invariant good ==> st == Ok && Ready() && GrewInPages(cfg.pageSize, t0, bus.dev.trace)
        invariant good ==> bus.dev.mem == Programmed(mem0, addr, data[..retlen - proglen])
        invariant good && proglen < retlen ==> !bus.dev.wel
        invariant bus.link.Unplugged? ==> proglen == retlen && bus.dev == old(bus.dev)
        decreases proglen
      {
        ghost var done, t1 := retlen - proglen, bus.dev.trace;
        PageRest(cfg.pageSize, addr, done, retlen);
        var n;
        st, n := ProgramChunk(a, data[retlen - proglen..retlen]);
        if st != Ok { return; }
        ProgrammedNext(mem0, addr, data, done, retlen, n);
        if good {
          GrewByOne(cfg.pageSize, t0, t1, a, data[done..retlen][..n]);
        }
        a := a + n;
        proglen := proglen - n;
      }
    }

    /** spi_nor_byte_program */
    method ByteProgram(addr: nat, b: bv8) returns (st: Status)
      requires Wired() && addr < cfg.size
      modifies bus
      ensures Wired()
      ensures old(Ready()) && curr == 1 && cfg.highByte.NoHighByte? && MayWrite(bus.chip, old(bus.dev)) ==>
        && st == Ok && Ready() && bus.dev.mem == Programmed(old(bus.dev).mem, addr, [b])
        && bus.dev.trace == old(bus.dev).trace + [Program(addr, [b])] && !bus.dev.wel
      ensures bus.link.Unplugged? ==> st != Ok && bus.dev == old(bus.dev)
    {
      hide Receive, Switchable, IsPow2, Layout.Valid, Layout.Total, ModeMatches;
      ghost var d := bus.dev;
      var f := Frame(1, PageProgram([b]), cfg.naddr, addr);
      var ok, _, dur := bus.Transfer(f);
      if !ok { return IoError; }
      if old(Ready()) && curr == 1 && cfg.highByte.NoHighByte? && MayWrite(bus.chip, d) {
        OneByteInPage(cfg.pageSize, addr);
        ProgramReceived(bus.chip, d, f, addr, [b], dur);
      }
      st := WaitBusy();
    }

    /** In the middle of an AAI sequence, the pointer at a. */
    ghost predicate AaiAt(a: nat)
      reads this, bus
    {
      && Wired() && cfg.aai && cfg.highByte.NoHighByte? && bus.link.Reliable?
      && bus.dev.width == curr == 1 && bus.dev.busy == 0 && bus.dev.aai == Some(a) && !bus.dev.misused
      && AddressInStep()
    }

    /** Ready for an AAI word at a: the first of a sequence, or the next one. */
    ghost predicate AaiStart(a: nat, first: bool)
      reads this, bus
    {
      if first then Ready() && curr == 1 && cfg.aai && cfg.highByte.NoHighByte? && MayWrite(bus.chip, bus.dev) && a % 2 == 0
      else AaiAt(a)
    }

    lemma AaiGoesOn(a: nat)
      requires AaiAt(a)
      ensures AaiStart(a, false)
    {
    }

    /** What the frame of an AAI word does, however long the chip stays busy. */
    lemma AaiWordLands(addr: nat, piece: seq<bv8>, first: bool)
      requires AaiStart(addr, first) && |piece| == 2 && addr + 2 <= cfg.size
      ensures var f := Frame(1, AaiProgram(piece), if first then cfg.naddr else 0, addr);
        forall dur: nat :: Receive(bus.chip, bus.dev, f, dur) == AaiWord(bus.dev, addr, piece, dur)
      ensures AaiWordStarts()
    {
      hide Receive, Suits, Programmed, ModeMatches, Switchable;
      var f := Frame(1, AaiProgram(piece), if first then cfg.naddr else 0, addr);
      WholeArray();
      if first {
        PlainLanding(cfg, bus.chip, bus.dev, f, addr);
      }
      forall dur: nat ensures Receive(bus.chip, bus.dev, f, dur) == AaiWord(bus.dev, addr, piece, dur) {
        AaiReceived(bus.chip, bus.dev, f, addr, piece, dur);
      }
    }

    /** What stays as it is while a word is programmed. */
    ghost predicate AaiWordStarts()
      reads this, bus
    {
      && Wired() && cfg.aai && cfg.highByte.NoHighByte? && bus.link.Reliable?
      && bus.dev.width == curr == 1 && !bus.dev.misused && AddressInStep()
    }

    /** One turn of the loop of spi_nor_word_program. */
    method WordPiece(addr: nat, piece: seq<bv8>, first: bool) returns (st: Status)
      requires Wired() && 0 < |piece| <= 2 && addr + |piece| <= cfg.size && bus.Grants(|piece|)
      modifies bus
      ensures Wired()
      ensures old(AaiStart(addr, first)) && |piece| == 2 ==>
        && st == Ok && AaiAt(addr + 2) && bus.dev.mem == Programmed(old(bus.dev).mem, addr, piece)
        && bus.dev.trace == old(bus.dev).trace + [Word(addr, piece)]
      ensures bus.link.Unplugged? ==> st != Ok && bus.dev == old(bus.dev)
    {
      hide Receive, Suits, Programmed, ModeMatches, Switchable;
      ghost var d, good := bus.dev, AaiStart(addr, first) && |piece| == 2;
      if good {
        AaiWordLands(addr, piece, first);
      }
      hide AaiStart;
      var ok, _, dur := bus.Transfer(Frame(1, AaiProgram(piece), if first then cfg.naddr else 0, addr));
      assert good ==> bus.dev == AaiWord(d, addr, piece, dur);
      if !ok { return IoError; }
      st := WaitBusy();
    }

    /** spi_nor_word_program: the address bytes are sent with the first word only. */
    method WordProgram(addr: nat, data: seq<bv8>, first: bool) returns (st: Status)
      requires Wired() && |data| == 2 && addr + 2 <= cfg.size
      modifies bus
      ensures Wired()
      ensures old(AaiStart(addr, first)) ==>
        && st == Ok && AaiAt(addr + 2) && bus.dev.mem == Programmed(old(bus.dev).mem, addr, data)
        && bus.dev.trace == old(bus.dev).trace + [Word(addr, data)]
      ensures bus.link.Unplugged? ==> st != Ok && bus.dev == old(bus.dev)
    {
      assert AaiStart(addr, first) ==> bus.pairs;
      hide *;
      st := Ok;
      var len: nat := 2;
      ghost var good := AaiStart(addr, first);
      assert data[..2] == data;
      while len > 0
        invariant Wired() && len <= 2
        invariant good && len == 2 ==> bus.dev == old(bus.dev)
        invariant good && len < 2 ==>
            && len == 0 && AaiAt(addr + 2) && bus.dev.mem == Programmed(old(bus.dev).mem, addr, data)
            && bus.dev.trace == old(bus.dev).trace + [Word(addr, data)]
        invariant len < 2 ==> st == Ok
        invariant bus.link.Unplugged? ==> len == 2 && bus.dev == old(bus.dev)
        decreases len
      {
        var n := bus.AdjustOpSize(len);
        st := WordPiece(addr + (2 - len), data[2 - len..2 - len + n], first);
        if st != Ok { return; }
        len := len - n;
      }
    }

    /** The write enable in front of the word run of spi_nor_aai_write. */
    method AaiBegin(addr: nat) returns (st: Status)
      requires Wired() && addr % 2 == 0
      modifies bus
      ensures Wired()
      ensures old(Ready()) && curr == 1 && cfg.aai && cfg.highByte.NoHighByte? ==>
        st == Ok && AaiStart(addr, true) && SameArray(old(bus.dev), bus.dev)
      ensures bus.link.Unplugged? && !cfg.noWren ==> st != Ok && bus.dev == old(bus.dev)
    {
      hide Suits, Switchable, ModeMatches;
      st := WriteEnable();
    }

    /** The write disable and the wait behind it. */
    method AaiEnd(a: nat, first: bool) returns (st: Status)
      requires Wired()
      modifies bus
      ensures Wired()
      ensures old(AaiStart(a, first)) && cfg.aai && !cfg.noWren ==>
        st == Ok && Ready() && SameArray(old(bus.dev), bus.dev) && !bus.dev.wel
      ensures bus.link.Reliable? && st == Ok ==> bus.dev.busy == 0
    {
      hide Suits, ModeMatches;
      st := WriteDisable();
      if st != Ok { return; }
      st := WaitBusy();
    }

    /** The word run of spi_nor_aai_write, from the write enable to the write disable. */
    method AaiWords(addr: nat, data: seq<bv8>) returns (st: Status, done: nat)
      requires Wired() && 2 <= |data| && addr + |data| <= cfg.size && addr % 2 == 0
      modifies bus
      ensures Wired() && done <= |data| && (st == Ok ==> done == |data| - |data| % 2)
      ensures old(Ready()) && curr == 1 && cfg.aai && cfg.highByte.NoHighByte? && !cfg.noWren ==>
        && st == Ok && Ready() && bus.dev.mem == Programmed(old(bus.dev).mem, addr, data[..done])
        && GrewInPages(cfg.pageSize, old(bus.dev).trace, bus.dev.trace) && !bus.dev.wel
      ensures bus.link.Unplugged? && !cfg.noWren ==> st != Ok && bus.dev == old(bus.dev)
    {
      hide *;
      done := 0;
      ghost var d0 := bus.dev;
      ghost var good := Ready() && curr == 1 && cfg.aai && cfg.highByte.NoHighByte? && !cfg.noWren;
      WholeArray();
      WroteNothing(cfg.pageSize, d0, addr, data);
      st := AaiBegin(addr);
      if st != Ok { return; }
      if good {
        WroteSame(cfg.pageSize, d0, d0, bus.dev, addr, data, 0);
      }
      var first := true;
      while |data| - done >= 2
        invariant Wired() && done <= |data| && done % 2 == 0 && st == Ok
        invariant first <==> done == 0
        invariant good ==> AaiStart(addr + done, first) && Wrote(cfg.pageSize, d0, bus.dev, addr, data, done)
        invariant bus.link.Unplugged? && !cfg.noWren ==> false
        decreases |data| - done
      {
        ghost var d1 := bus.dev;
        st := WordProgram(addr + done, data[done..|data|][..2], first);
        if st != Ok { return; }
        if good {
          AaiGoesOn(addr + done + 2);
          GrewByWord(cfg.pageSize, d1.trace, addr + done, data[done..|data|][..2]);
          WroteMore(cfg.pageSize, d0, d1, bus.dev, addr, data, done, 2);
        }
        done := done + 2;
        first := false;
      }
      ghost var d1 := bus.dev;
      st := AaiEnd(addr + done, first);
      if good {
        WroteSame(cfg.pageSize, d0, d1, bus.dev, addr, data, done);
        WroteAll(cfg.pageSize, d0, bus.dev, addr, data, done);
      }
    }

    /** The head and the tail of spi_nor_aai_write: write enable, then one byte. */
    method AaiByte(addr: nat, b: bv8) returns (st: Status)
      requires Wired() && addr < cfg.size
      modifies bus
      ensures Wired()
      ensures old(Ready()) && curr == 1 && cfg.highByte.NoHighByte? ==>
        && st == Ok && Ready() && bus.dev.mem == Programmed(old(bus.dev).mem, addr, [b])
        && GrewInPages(cfg.pageSize, old(bus.dev).trace, bus.dev.trace) && !bus.dev.wel
      ensures bus.link.Unplugged? && !cfg.noWren ==> st != Ok && bus.dev == old(bus.dev)
    {
      hide Receive, Suits, Programmed, GrewInPages, ModeMatches;
      GrewByNone(cfg.pageSize, bus.dev.trace);
      OneByteInPage(cfg.pageSize, addr);
      GrewByOne(cfg.pageSize, bus.dev.trace, bus.dev.trace, addr, [b]);
      st := WriteEnable();
      if st != Ok { return; }
      st := ByteProgram(addr, b);
    }

    /** spi_nor_aai_write: an odd head byte, a run of words, a tail byte. */
    method AaiWrite(addr: nat, data: seq<bv8>) returns (st: Status, retlen: nat)
      requires Wired() && 0 < |data| && addr + |data| <= cfg.size
      modifies bus
      ensures Wired() && retlen == |data|
      ensures old(Ready()) && curr == 1 && cfg.aai && cfg.highByte.NoHighByte? && !cfg.noWren ==>
        && st == Ok && Ready() && bus.dev.mem == Programmed(old(bus.dev).mem, addr, data)
        && GrewInPages(cfg.pageSize, old(bus.dev).trace, bus.dev.trace) && !bus.dev.wel
      ensures bus.link.Unplugged? && !cfg.noWren ==> st != Ok && bus.dev == old(bus.dev)
    {
      hide *;
      retlen := |data|;
      st := Ok;
      var done: nat := 0;
      ghost var d0 := bus.dev;
      ghost var good := Ready() && curr == 1 && cfg.aai && cfg.highByte.NoHighByte? && !cfg.noWren;
      WholeArray();
      WroteNothing(cfg.pageSize, d0, addr, data);
      if addr % 2 != 0 {
        st := AaiByte(addr, data[0]);
        if st != Ok { return; }
        if good {
          WroteByte(cfg.pageSize, d0, d0, bus.dev, addr, data, 0);
        }
        done := 1;
      }
      if |data| - done >= 2 {
        ghost var d1 := bus.dev;
        var n;
        st, n := AaiWords(addr + done, data[done..|data|]);
        if st != Ok { return; }
        if good {
          WroteMore(cfg.pageSize, d0, d1, bus.dev, addr, data, done, n);
        }
        done := done + n;
      }
      if |data| - done > 0 {
        ghost var d1 := bus.dev;
        st := AaiByte(addr + done, data[done]);
        if good {
          WroteByte(cfg.pageSize, d0, d1, bus.dev, addr, data, done);
        }
        done := done + 1;
      }
      if good {
        WroteAll(cfg.pageSize, d0, bus.dev, addr, data, |data|);
      }
    }

    /** One turn of the loop of ufprog_spi_nor_read_no_check. */
    method ReadChunk(addr: nat, len: nat) returns (st: Status, data: seq<bv8>)
      requires Wired() && 0 < len && addr + len <= cfg.size
      modifies this`currHigh, bus
      ensures Wired() && 0 < |data| <= len
      ensures old(Ready()) && curr == cfg.readWidth ==>
        && st == Ok && Ready() && SameArray(old(bus.dev), bus.dev) && LatchKept(old(bus.dev), bus.dev)
        && data == bus.dev.mem[addr..addr + |data|]
      ensures bus.link.Unplugged? ==> st != Ok && bus.dev == old(bus.dev)
    {
      hide Receive, Answer, Switchable, IsPow2, Layout.Valid, Layout.Total, ModeMatches;
      data := [0];
      var chunk := len;
      if cfg.dieGran > 0 && chunk > cfg.dieGran - addr % cfg.dieGran {
        chunk := cfg.dieGran - addr % cfg.dieGran;
      }
      var sent;
      st, sent := SetupAddr(addr);
      if st != Ok { return; }
      var n := bus.AdjustOpSize(chunk);
      ghost var d := bus.dev;
      var f := Frame(cfg.readWidth, ReadArray(n), cfg.naddr, sent);
      var ok, rx, dur := bus.Transfer(f);
      if !ok { return IoError, data; }
      if old(Ready()) && curr == cfg.readWidth {
        ReadReceived(bus.chip, d, f, addr, n);
      }
      data := if rx.Bytes? && |rx.data| == n then rx.data else seq(n, _ => 0);
    }

    /** ufprog_spi_nor_read_no_check */
    method ReadNoCheck(addr: nat, len: nat) returns (st: Status, data: seq<bv8>)
      requires Wired() && addr + len <= cfg.size
      modifies this`currHigh, bus
      ensures Wired()
      ensures old(Ready()) && curr == cfg.readWidth ==>
        && st == Ok && Ready() && SameArray(old(bus.dev), bus.dev) && LatchKept(old(bus.dev), bus.dev)
        && data == bus.dev.mem[addr..addr + len]
    {
      hide Receive, Suits, AddressBytes, ModeMatches;
      st, data := Ok, [];
      ghost var d0 := bus.dev;
      ghost var good := Ready() && curr == cfg.readWidth;
      while |data| < len
        invariant Wired() && |data| <= len
        invariant good ==> st == Ok && Ready() && SameArray(d0, bus.dev) && LatchKept(d0, bus.dev)
        invariant good ==> data == d0.mem[addr..addr + |data|]
        decreases len - |data|
      {
        var more;
        st, more := ReadChunk(addr + |data|, len - |data|);
        if st != Ok { return; }
        data := data + more;
      }
    }

    /** The range check all calls share; like the rest of the model it is about ranges of the address space. */
    predicate InPart(addr: nat, len: nat) {
      addr < cfg.size && addr + len <= cfg.size
    }

    /** ufprog_spi_nor_read */
    method Read(addr: nat, len: nat) returns (st: Status, data: seq<bv8>)
      requires Wired()
      modifies this`curr, this`currHigh, bus
      ensures Wired()
      ensures !InPart(addr, len) ==> st == OutOfRange && bus.dev == old(bus.dev) && curr == old(curr) && currHigh == old(currHigh)
      ensures old(Ready()) && InPart(addr, len) ==>
        && st == Ok && Ready() && curr == cfg.cmdWidth
        && SameArray(old(bus.dev), bus.dev) && LatchKept(old(bus.dev), bus.dev) && data == bus.dev.mem[addr..addr + len]
      ensures st == Ok ==> curr == cfg.cmdWidth
    {
      hide Receive, ModeMatches;
      data := [];
      if addr >= cfg.size || addr + len > cfg.size {
        return OutOfRange, data;
      }
      st := SetBusWidth(cfg.readWidth);
      if st != Ok { return; }
      st, data := ReadNoCheck(addr, len);
      if st != Ok { return; }
      st := SetBusWidth(cfg.cmdWidth);
    }

    /** ext_param.write_page: the AAI writer for AAI parts, the page programmer otherwise. */
    method WritePage(addr: nat, data: seq<bv8>) returns (st: Status, retlen: nat)
      requires Wired() && 0 < |data| && addr + |data| <= cfg.size
      modifies this`currHigh, bus
      ensures Wired() && 0 < retlen <= |data|
      ensures old(Ready()) && curr == cfg.ppWidth ==>
        && st == Ok && Ready() && bus.dev.mem == Programmed(old(bus.dev).mem, addr, data[..retlen])
        && GrewInPages(cfg.pageSize, old(bus.dev).trace, bus.dev.trace) && !bus.dev.wel
      ensures bus.link.Unplugged? ==> st != Ok && bus.dev == old(bus.dev)
    {
      hide Receive, Programmed, GrewInPages, ModeMatches;
      if cfg.aai {
        st, retlen := AaiWrite(addr, data);
        assert data[..|data|] == data;
      } else {
        st, retlen := PageProgramWrite(addr, data);
      }
    }

    /** ufprog_spi_nor_write: stops at the first page that fails, and reports success all the same: on an unplugged link
        the call fails if and only if one of its two bus mode switches has a command to send. */
    method Write(addr: nat, data: seq<bv8>) returns (st: Status)
      requires Wired()
      modifies this`curr, this`currHigh, bus
      ensures Wired()
      ensures !InPart(addr, |data|) ==>
                st == OutOfRange && bus.dev == old(bus.dev) && curr == old(curr) && currHigh == old(currHigh)
      ensures old(Ready()) && InPart(addr, |data|) ==>
        && st == Ok && Ready() && curr == cfg.cmdWidth
        && bus.dev.mem == Programmed(old(bus.dev).mem, addr, data)
        && GrewInPages(cfg.pageSize, old(bus.dev).trace, bus.dev.trace)
        && bus.dev.wel == (old(bus.dev).wel && data == [])
      ensures st == Ok ==> curr == cfg.cmdWidth
      ensures bus.link.Unplugged? ==> bus.dev == old(bus.dev)
      ensures bus.link.Unplugged? && InPart(addr, |data|) ==>
                st == if SwitchSends(cfg, old(curr), cfg.ppWidth) || SwitchSends(cfg, cfg.ppWidth, cfg.cmdWidth)
                      then IoError else Ok
    {
      hide Receive, Programmed, AddressBytes, GrewInPages, ModeMatches;
      if addr >= cfg.size || addr + |data| > cfg.size {
        return OutOfRange;
      }
      ghost var mem0, t0 := bus.dev.mem, bus.dev.trace;
      GrewByNone(cfg.pageSize, t0);
      ghost var good := Ready();
      st := SetBusWidth(cfg.ppWidth);
      if st != Ok { return; }
      var done: nat := 0;
      ProgrammedNothing(mem0, addr);
      assert data[..0] == [] && data[..|data|] == data;
      while done < |data|
        invariant Wired() && done <= |data|
        invariant good ==> Ready() && curr == cfg.ppWidth && bus.dev.mem == Programmed(mem0, addr, data[..done])
        invariant good ==> GrewInPages(cfg.pageSize, t0, bus.dev.trace)
        invariant good ==> bus.dev.wel == (old(bus.dev).wel && done == 0)
        invariant bus.link.Unplugged? ==> bus.dev == old(bus.dev) && curr == cfg.ppWidth
        decreases |data| - done
      {
        ghost var t1 := bus.dev.trace;
        var pageSt, retlen := WritePage(addr + done, data[done..|data|]);
        if pageSt != Ok { break; }
        ProgrammedNext(mem0, addr, data, done, |data|, retlen);
        if good {
          GrewFurther(cfg.pageSize, t0, t1, bus.dev.trace);
        }
        done := done + retlen;
      }
      st := SetBusWidth(cfg.cmdWidth);
    }

    /** spi_nor_erase_block; erase type i sent for the aligned address addr. */
    method EraseOneBlock(addr: nat, i: nat) returns (st: Status)
      requires Wired() && addr < cfg.size && i < |cfg.layout.sizes|
      modifies this`currHigh, bus
      ensures Wired()
      ensures old(Ready()) && ErasableAt(cfg.layout, addr, i) ==>
        var b := Block(addr, Capped(cfg.layout.sizes, i, cfg.layout.regions[cfg.layout.At(addr)].size));
        && st == Ok && Ready()
        && bus.dev.mem == Erased(old(bus.dev).mem, addr, addr + b.size)
        && bus.dev.trace == old(bus.dev).trace + [EraseBlock(b)] && !bus.dev.wel
      ensures bus.link.Unplugged? ==> st != Ok && bus.dev == old(bus.dev)
    {
      hide Receive, Erased, Switchable, IsPow2, Layout.Valid, Layout.Total, ModeMatches;
      var sent;
      st, sent := SetupAddr(addr);
      if st != Ok { return; }
      st := WriteEnable();
      if st != Ok { return; }
      ghost var d := bus.dev;
      var f := Frame(curr, EraseType(i), cfg.naddr, sent);
      var ok, _, dur := bus.Transfer(f);
      if !ok { return IoError; }
      if old(Ready()) && ErasableAt(cfg.layout, addr, i) {
        EraseReceived(bus.chip, d, f, addr, i, dur);
      }
      st := WaitBusy();
    }

    /** The loop of spi_nor_erase_at: the first erase type of the largest size that is aligned and fits. */
    method PickEraseType(k: nat, base: nat, start: nat, end: nat) returns (choice: Option<nat>)
      requires Sane(cfg.layout) && k < |cfg.layout.regions|
      requires base == Base(cfg.layout.regions, k) && base <= start <= end && cfg.layout.regions[k].size > 0
      ensures choice.None? ==> Largest(cfg.layout, k, start, end, MAX_ERASE_INFO) == 0
      ensures choice.Some? ==>
        && choice.value < MAX_ERASE_INFO && Fits(cfg.layout, k, start, end, choice.value)
        && Capped(cfg.layout.sizes, choice.value, cfg.layout.regions[k].size)
             == Largest(cfg.layout, k, start, end, MAX_ERASE_INFO) > 0
    {
      hide AlignDown, IsPow2, Largest, Fits, Base;
      choice := None;
      LargestNone(cfg.layout, k, start, end);
      var r := cfg.layout.regions[k];
      for i := 0 to MAX_ERASE_INFO
        invariant choice.None? ==> Largest(cfg.layout, k, start, end, i) == 0
        invariant choice.Some? ==>
            && choice.value < i && Fits(cfg.layout, k, start, end, choice.value)
            && Capped(cfg.layout.sizes, choice.value, r.size) == Largest(cfg.layout, k, start, end, i) > 0
      {
        LargestNext(cfg.layout, k, start, end, i);
        FitsIff(cfg.layout, k, start, end, i);
        if i !in r.mask {
          continue;
        }
        var erasesize := cfg.layout.sizes[i];
        if erasesize > r.size {
          erasesize := r.size;
        }
        if IsPow2(erasesize) {
          if start % erasesize != 0 { continue; }
        } else {
          if (start - base) % erasesize != 0 { continue; }
        }
        if end - start < erasesize {
          continue;
        }
        if choice.None? || erasesize > cfg.layout.sizes[choice.value] {
          choice := Some(i);
        }
      }
    }

    /** spi_nor_erase_at: plans one block at addr and erases it; size is 0 when no erase type fits. */
    method EraseAt(addr: nat, maxlen: nat) returns (st: Status, size: nat)
      requires Wired() && Sane(cfg.layout) && addr < cfg.size
      modifies this`currHigh, bus
      ensures Wired()
      ensures old(Ready()) ==>
        var b := Step(cfg.layout, addr, maxlen);
        && st == Ok && size == b.size && Ready()
        && (b.size == 0 ==> bus.dev == old(bus.dev))
        && (b.size > 0 ==>
              && bus.dev.mem == Erased(old(bus.dev).mem, b.start, b.start + b.size)
              && bus.dev.trace == old(bus.dev).trace + [EraseBlock(b)] && !bus.dev.wel)
      ensures bus.link.Unplugged? ==> (st != Ok || size == 0) && bus.dev == old(bus.dev)
    {
      hide Receive, Erased, Fits, Largest, RoundDown, Sane, Suits, AddressInStep, Switchable, ErasableAt, IsPow2;
      SanePlans(cfg.layout, addr);
      st, size := Ok, 0;
      ghost var at := cfg.layout.At(addr);
      var region, base := GetEraseRegionAt(cfg.layout.regions, addr);
      if region.None? {
        st := NotSupported;
        return;
      }
      var k := region.value;
      var r := cfg.layout.regions[k];
      var start, end := RoundDown(cfg.layout, k, addr), RoundDown(cfg.layout, k, addr + maxlen);
      if end > base + r.size {
        end := base + r.size;
      }
      StepBounds(cfg.layout, k, addr, maxlen);
      var choice := PickEraseType(k, base, start, end);
      if choice.Some? {
        FitsIsErasable(cfg.layout, k, start, end, choice.value);
        st := EraseOneBlock(start, choice.value);
        if st == Ok {
          var ei := cfg.layout.sizes[choice.value];
          size := if ei > end - start then end - start else ei;
        }
      }
    }

    /** ufprog_spi_nor_erase */
    method Erase(addr: nat, len: nat) returns (st: Status)
      requires Wired()
      modifies this`currHigh, bus
      ensures Wired()
      ensures !InPart(addr, len) ==> st == OutOfRange && bus.dev == old(bus.dev) && currHigh == old(currHigh)
      ensures InPart(addr, len) && len == 0 ==>
                st == Status.InvalidParameter && bus.dev == old(bus.dev) && currHigh == old(currHigh)
      ensures old(Ready()) && InPart(addr, len) && len > 0 ==>
        && Sane(cfg.layout) && EraseRange(cfg.layout, cfg.size, addr, len).Range?
        && var r := EraseRange(cfg.layout, cfg.size, addr, len);
        && st == Ok && Ready()
        && bus.dev.mem == Erased(old(bus.dev).mem, r.start, r.end)
        && bus.dev.trace == old(bus.dev).trace + EraseMutations(Run(cfg.layout, r.start, r.end))
        && bus.dev.wel == (old(bus.dev).wel && r.start == r.end)
      ensures bus.link.Unplugged? && InPart(addr, len) && len > 0 ==>
        && Masked(cfg.layout) && EraseRange(cfg.layout, cfg.size, addr, len).Range?
        && var r := EraseRange(cfg.layout, cfg.size, addr, len);
        bus.dev == old(bus.dev) && st == if r.start == r.end then Ok else Fail
    {
      hide ModeMatches;
      if addr >= cfg.size || addr + len > cfg.size {
        return OutOfRange;
      }
      ValidIsSane(cfg.layout);
      if len > 0 {
        EraseRangeOnGrid(cfg.layout, addr, len);
      }
      var range := EraseRange(cfg.layout, cfg.size, addr, len);
      if !range.Range? {
        return if range.InvalidParameter? then Status.InvalidParameter else NotSupported;
      }
      st := EraseLoop(range.start, range.end);
    }

    /** The loop of ufprog_spi_nor_erase. */
    method EraseLoop(start0: nat, end: nat) returns (st: Status)
      requires Wired() && Sane(cfg.layout)
      requires start0 <= end <= cfg.size && OnGrid(cfg.layout, start0) && OnGrid(cfg.layout, end)
      modifies this`currHigh, bus
      ensures Wired()
      ensures old(Ready()) ==>
        && st == Ok && Ready()
        && bus.dev.mem == Erased(old(bus.dev).mem, start0, end)
        && bus.dev.trace == old(bus.dev).trace + EraseMutations(Run(cfg.layout, start0, end))
        && bus.dev.wel == (old(bus.dev).wel && start0 == end)
      ensures bus.link.Unplugged? ==> bus.dev == old(bus.dev) && st == if start0 == end then Ok else Fail
    {
      hide Receive, Erased, Step, OnGrid, Sane, Permitted, EraseMutations, Suits, AddressInStep, Switchable, IsPow2;
      st := Ok;
      var start := start0;
      ghost var mem0, t0 := bus.dev.mem, bus.dev.trace;
      ghost var good := Ready();
      ghost var done: seq<Block> := [];
      ErasedNothing(mem0, start0);
      EraseMutationsAppend([], []);
      assert t0 + EraseMutations([]) == t0;
      while start < end
        invariant Wired() && st == Ok
        invariant good ==> start0 <= start <= end && OnGrid(cfg.layout, start)
        invariant good ==> Ready() && bus.dev.mem == Erased(mem0, start0, start)
        invariant good ==> bus.dev.trace == t0 + EraseMutations(done) && bus.dev.wel == (old(bus.dev).wel && start == start0)
        invariant good ==> done + Run(cfg.layout, start, end) == Run(cfg.layout, start0, end)
        invariant bus.link.Unplugged? ==> bus.dev == old(bus.dev) && start == start0
        decreases end - start
      {
        if start >= cfg.size { break; }
        SanePlans(cfg.layout, start);
        var size;
        if good {
          StepAdvances(cfg.layout, start, end);
        }
        st, size := EraseAt(start, end - start);
        if st != Ok || size == 0 { break; }
        if good {
          var b := Step(cfg.layout, start, end - start);
          RunCons(cfg.layout, start, end, b);
          assert done + ([b] + Run(cfg.layout, start + b.size, end)) == (done + [b]) + Run(cfg.layout, start + b.size, end);
          ErasedAppend(mem0, start0, start, start + b.size);
          EraseMutationsAppend(done, [b]);
          assert t0 + EraseMutations(done) + [EraseBlock(b)] == t0 + EraseMutations(done + [b]);
          done := done + [b];
        }
        start := start + size;
      }
      if good {
        assert Run(cfg.layout, end, end) == [];
        assert done + [] == done;
      }
      if start != end {
        return Fail;
      }
    }

    /** spi_nor_recheck_cmd_buswidth: the width and variant at which the chip identifies itself. */
    method RecheckWidth() returns (found: bool)
      requires Wired()
      modifies this`curr, bus
      ensures Wired()
      ensures bus.link.Reliable? && old(bus.dev.width == bus.chip.bootWidth && bus.dev.busy == 0 && bus.dev.aai.None?) ==>
                found && curr == bus.dev.width && bus.dev == old(bus.dev)
      ensures bus.link.Unplugged? ==> !found && bus.dev == old(bus.dev) && curr == old(curr)
    {
      ghost var d0, curr0 := bus.dev, curr;
      TriesReach(bus.chip);
      hide IdTriesReach;
      for k := 0 to |ID_TRIES|
        invariant Wired()
        invariant bus.link.Reliable? && d0.busy == 0 && d0.aai.None? ==> bus.dev == d0
        invariant bus.link.Unplugged? ==> bus.dev == d0 && curr == curr0
        invariant bus.link.Reliable? && d0.busy == 0 && d0.aai.None? ==>
            forall j | 0 <= j < k :: !(ID_TRIES[j].0 == d0.width && ID_TRIES[j] in bus.chip.idWays)
      {
        var (width, way) := ID_TRIES[k];
        var ok, rx, dur := bus.Transfer(Frame(width, ReadId(way), 0, 0));
        if ok && rx.Id? && rx.known {
          curr := width;
          return true;
        }
      }
      return false;
    }

    /** spi_nor_4b_addressing_control */
    method AddressingControl(enable: bool) returns (st: Status)
      requires Wired()
      modifies this`a4bMode, bus
      ensures Wired()
      ensures old(Listening()) ==>
        && st == Ok && Listening()
        && bus.dev == old(bus.dev).(four :=
             if enable && cfg.hasA4bEn then true else if !enable && cfg.hasA4bDis then false else old(bus.dev).four)
        && a4bMode == if enable && cfg.hasA4bEn then true else if !enable && cfg.hasA4bDis then false else old(a4bMode)
      ensures bus.link.Unplugged? ==> bus.dev == old(bus.dev)
    {
      st := Ok;
      if enable && cfg.hasA4bEn {
        st := Issue(SwitchAddressing(true));
        if st == Ok { a4bMode := true; }
      } else if !enable && cfg.hasA4bDis {
        st := Issue(SwitchAddressing(false));
        if st == Ok { a4bMode := false; }
      }
    }

    /** The addressing half of spi_nor_chip_die_setup: clear the high byte, choose the number of address bytes. */
    method SetupAddressing() returns (st: Status)
      requires Wired()
      modifies this`currHigh, this`a4bMode, bus
      ensures Wired()
      ensures old(Listening() && Switchable(cfg, curr) && (SetsAddressing(cfg) || !a4bMode)
                  && bus.dev.four == bus.chip.bootFour && bus.dev.high == bus.chip.bootHigh) ==>
                st == Ok && Ready() && SameArray(old(bus.dev), bus.dev) && LatchKept(old(bus.dev), bus.dev)
      ensures bus.link.Unplugged? ==> bus.dev == old(bus.dev)
    {
      hide Receive, Layout.Valid, Layout.Total, IsPow2, IdTriesReach, Switchable;
      st := Ok;
      currHigh := 0;
      if !cfg.highByte.NoHighByte? {
        st := WriteAddrHighByte(0);
        if st != Ok { return; }
      }
      if cfg.partAddrBytes > 3 {
        st := AddressingControl(cfg.naddr > 3);
      }
    }

    /** spi_nor_chip_die_setup, for the state the data path depends on. */
    method ChipSetup() returns (st: Status)
      requires Wired()
      modifies this, bus
      ensures Wired()
      ensures old(Listening() && Switchable(cfg, curr) && (SetsAddressing(cfg) || !a4bMode)
                  && bus.dev.four == bus.chip.bootFour && bus.dev.high == bus.chip.bootHigh) ==>
                st == Ok && Ready() && curr == cfg.cmdWidth && SameArray(old(bus.dev), bus.dev)
                && LatchKept(old(bus.dev), bus.dev)
      ensures st == Ok ==> curr == cfg.cmdWidth
      ensures bus.link.Unplugged? ==> bus.dev == old(bus.dev)
    {
      hide Receive;
      st := SetBusWidth(cfg.cmdWidth);
      if st != Ok { return; }
      st := SetupAddressing();
    }

    /** spi_nor_chip_soft_reset: whatever mode the chip comes up in, the driver finds it and sets it up again. */
    method Reset() returns (st: Status)
      requires Wired()
      modifies this, bus
      ensures Wired()
      ensures old(Ready()) ==>
        && Ready() && SameArray(old(bus.dev), bus.dev)
        && st == (if cfg.hasSoftReset then Ok else NotSupported)
        && (cfg.hasSoftReset ==> curr == cfg.cmdWidth && !bus.dev.wel)
        && (!cfg.hasSoftReset ==> curr == old(curr) && bus.dev == old(bus.dev))
      ensures st == Ok ==> cfg.hasSoftReset && curr == cfg.cmdWidth
    {
      if !cfg.hasSoftReset {
        return NotSupported;
      }
      st := Issue(SoftReset);
      if st != Ok { return; }
      var found := RecheckWidth();
      if found {
        st := ChipSetup();
      } else {
        st := IoError;
      }
    }
  }

  /** Erase type i exists where addr lies, and addr is aligned for it. */
  predicate ErasableAt(layout: Layout, addr: nat, i: nat) {
    && layout.Valid() && addr < layout.Total() && i < |layout.sizes|
    && var k := layout.At(addr);
    && i in layout.regions[k].mask && Capped(layout.sizes, i, layout.regions[k].size) > 0
    && Aligned(layout, k, addr, Capped(layout.sizes, i, layout.regions[k].size))
  }

  lemma EraseMutationsAppend(a: seq<Block>, b: seq<Block>)
    ensures EraseMutations(a + b) == EraseMutations(a) + EraseMutations(b)
    ensures EraseMutations([]) == []
    ensures |b| == 1 ==> EraseMutations(b) == [EraseBlock(b[0])]
  {
  }

  /** A planning step's window lies in the region of its address. */
  lemma StepBounds(layout: Layout, k: nat, addr: nat, maxlen: nat)
    requires layout.Valid() && Sane(layout) && addr < layout.Total() && layout.At(addr) == k
    ensures var start, limit := StepStart(layout, addr), StepLimit(layout, addr, maxlen);
      && Base(layout.regions, k) <= start <= addr && start <= limit <= End(layout.regions, k)
      && start < layout.Total() && layout.At(start) == k
  {
    hide RoundDown, GridBelow;
    RoundDownAligns(layout, k, addr);
    RoundDownAligns(layout, k, addr + maxlen);
    SameGrainIff(layout, k, addr, addr + maxlen);
    AtIs(layout, k, StepStart(layout, addr));
  }

  /** What the planner picks can be erased there, and the length it reports is the block the chip erases. */
  lemma FitsIsErasable(layout: Layout, k: nat, start: nat, limit: nat, i: nat)
    requires layout.Valid() && Sane(layout) && start < layout.Total() && layout.At(start) == k
    requires i < MAX_ERASE_INFO && start <= limit <= End(layout.regions, k) && Fits(layout, k, start, limit, i)
    ensures ErasableAt(layout, start, i)
    ensures Capped(layout.sizes, i, layout.regions[k].size) == Min(layout.sizes[i], limit - start)
  {
  }

  /** Without a high-byte register the address bytes alone carry the address. */
  lemma PlainLanding(cfg: Config, chip: Chip, d: Dev, f: Frame, addr: nat)
    requires Suits(cfg, chip) && cfg.highByte.NoHighByte? && addr < cfg.size
    requires cfg.naddr == 3 ==> d.high == 0
    requires f.naddr == cfg.naddr && f.addr == addr
    ensures Landing(d, f) == addr
  {
  }

  lemma PageRest(page: nat, addr: nat, done: nat, len: nat)
    requires page > 0 && done < len <= page - addr % page
    ensures (addr + done) % page == addr % page + done
  {
    assert addr + done == addr / page * page + (addr % page + done);
    DivModUnique(addr + done, page, addr / page, addr % page + done);
  }

  lemma OneByteInPage(page: nat, addr: nat)
    requires page > 0
    ensures addr % page + 1 <= page
  {
  }
}
