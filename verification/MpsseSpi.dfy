/** SPI over an FTDI MPSSE chip: the GPIO shadow, chip-select framing, and transfers in chunks.
    The functions say what the code does with no transfer failing; the methods are proved against them. */
module MpsseSpi {
  import opened BitString
  import opened Memory
  import opened MpsseChip
  import opened SpiApi

  const SK := 0
  const SET_LOW: Byte := 0x80
  const SET_HIGH: Byte := 0x82
  const MAX_LEN := 0x1_0000
  const CMD_LEN := 3
  const BUF_LEN := CMD_LEN + MAX_LEN

  /** mpsse_set_gpio's new value: val under the mask, the old value elsewhere. */
  function Merge(was: Pins, mask: Pins, val: Pins): (r: Pins)
    ensures forall p: nat | p < PINS :: Pin(r, p) == if Pin(mask, p) then Pin(val, p) else Pin(was, p)
  {
    Or(AndNot(was, mask), And(val, mask))
  }

  /** The pins p and q of a mask. */
  function Mask(p: nat, q: nat): (r: Pins)
    requires p < PINS && q < PINS
    ensures forall k: nat | k < PINS :: Pin(r, k) == (k == p || k == q)
  {
    seq(PINS, i requires 0 <= i < PINS => PINS - 1 - i == p || PINS - 1 - i == q)
  }

  /** A clock level and a chip-select level. */
  function Levels(cs: nat, clock: bool, select: bool): (r: Pins)
    requires 0 < cs < PINS
    ensures Pin(r, SK) == clock && Pin(r, cs) == select
  {
    seq(PINS, i requires 0 <= i < PINS => (PINS - 1 - i == SK && clock) || (PINS - 1 - i == cs && select))
  }

  /** The first n pins. */
  function FirstPins(n: nat): (r: Pins)
    ensures forall k: nat | k < PINS :: Pin(r, k) == (k < n)
  {
    seq(PINS, i requires 0 <= i < PINS => PINS - 1 - i < n)
  }

  /** The chip's pins, the SPI settings, and the slave the settings are for. */
  datatype Env = Env(maxGpios: nat, mode: nat, slave: Slave) {
    predicate Valid() {
      (maxGpios == 8 || maxGpios == 16) && slave.Valid() && slave.cs < maxGpios
    }

    predicate Cpol() { mode / 2 % 2 == 1 }

    predicate Cpha() { mode % 2 == 1 }
  }

  /** gpio_dir and gpio_out_val, and the chip. */
  datatype State = State(dir: Pins, out: Pins, chip: Chip)

  predicate LowDiffers(a: Pins, b: Pins) { a[8..] != b[8..] }

  predicate HighDiffers(a: Pins, b: Pins) { a[..8] != b[..8] }

  /** mpsse_set_gpio: a half is sent if and only if the shadow of it changes. */
  function SetGpio(env: Env, s: State, mask: Pins, dir: Pins, val: Pins): State
    requires env.Valid()
  {
    var m := And(mask, FirstPins(env.maxGpios));
    var newDir, newOut := Merge(s.dir, m, dir), Merge(s.out, m, val);
    var c1 :=
      if LowDiffers(newDir, s.dir) || LowDiffers(newOut, s.out)
      then Drive(env.slave, s.chip, s.chip.dir[..8] + newDir[8..], s.chip.out[..8] + newOut[8..])
      else s.chip;
    var c2 :=
      if HighDiffers(newDir, s.dir) || HighDiffers(newOut, s.out)
      then Drive(env.slave, c1, newDir[..8] + c1.dir[8..], newOut[..8] + c1.out[8..])
      else c1;
    State(newDir, newOut, c2)
  }

  /** The shadow is what the chip drives, on every pin the chip has. */
  predicate Agrees(env: Env, s: State) {
    forall p: nat | p < env.maxGpios <= PINS :: Pin(s.dir, p) == Pin(s.chip.dir, p) && Pin(s.out, p) == Pin(s.chip.out, p)
  }

  /** mpsse_spi_start */
  function Start(env: Env, s: State): State
    requires env.Valid()
  {
    var cs, high := env.slave.cs, env.slave.activeHigh;
    var s1 := SetGpio(env, s, Mask(SK, cs), Mask(SK, cs), Levels(cs, env.Cpol(), !high));
    var s2 := SetGpio(env, s1, Mask(cs, cs), Mask(cs, cs), Levels(cs, env.Cpol(), high));
    if env.Cpha() then SetGpio(env, s2, Mask(SK, SK), Mask(SK, SK), Levels(cs, !env.Cpol(), high)) else s2
  }

  /** mpsse_spi_stop */
  function Stop(env: Env, s: State): State
    requires env.Valid()
  {
    var cs, high := env.slave.cs, env.slave.activeHigh;
    var s1 := if env.Cpha() then SetGpio(env, s, Mask(SK, SK), Mask(SK, SK), Levels(cs, env.Cpol(), false)) else s;
    SetGpio(env, s1, Mask(cs, cs), Mask(cs, cs), Levels(cs, false, !high))
  }

  /** The edges the shift commands ask for: data goes out on the falling edge in modes 0 and 3,
      and is sampled on the falling edge in modes 1 and 2. */
  predicate OutRising(mode: nat) { mode != 0 && mode != 3 }

  predicate InRising(mode: nat) { mode != 1 && mode != 2 }

  /** A mode of the SPI bus: the level of the clock at rest, its level when a byte starts and ends, and whether bits
      go out and are sampled on the rising edge. */
  datatype BusMode = BusMode(idle: bool, start: bool, outRising: bool, inRising: bool)

  /** The four modes; the low two bits of a mode number choose among them. */
  function ModeOf(mode: nat): BusMode {
    match mode % 4
    case 0 => BusMode(false, false, false, true)
    case 1 => BusMode(false, true, true, false)
    case 2 => BusMode(true, true, true, false)
    case _ => BusMode(true, false, false, true)
  }

  /** The levels the code drives the clock to are those of the mode, and the edges it asks for are
      if and only if the mode is one of the four; setting a mode checks nothing. */
  lemma EdgesRightIff(env: Env)
    ensures var m := ModeOf(env.mode);
      && env.Cpol() == m.idle && (env.Cpol() != env.Cpha()) == m.start
      && (OutRising(env.mode) == m.outRising && InRising(env.mode) == m.inRising <==> env.mode < 4)
  {
    var q, r := env.mode / 4, env.mode % 4;
    assert env.mode == 4 * q + r && (r == 0 || r == 1 || r == 2 || r == 3);
    assert env.mode / 2 == 2 * q + r / 2;
  }

  /** mpsse_spi_read or mpsse_spi_write */
  function Move(env: Env, s: State, x: Transfer<Byte>): (r: State)
    requires x.Valid()
  {
    s.(chip := if x.dir.Out? then ShiftOut(s.chip, OutRising(env.mode), x.tx)
               else ShiftIn(env.slave, s.chip, InRising(env.mode), x.len).(readable := s.chip.readable))
  }

  /** The bytes an incoming transfer delivers. */
  function Received(env: Env, s: State, x: Transfer<Byte>): seq<Byte> {
    if x.dir.Out? then [] else ShiftIn(env.slave, s.chip, InRising(env.mode), x.len).readable[|s.chip.readable|..]
  }

  datatype Status = Ok | Unsupported | IoError

  datatype Outcome = Outcome(status: Status, s: State, rxs: seq<seq<Byte>>)

  /** The loop of ufprog_spi_generic_xfer. */
  function Run(env: Env, s: State, xfers: seq<Transfer<Byte>>, start: bool, rxs: seq<seq<Byte>>): Outcome
    requires env.Valid() && forall x | x in xfers :: x.Valid()
    decreases |xfers|
  {
    if xfers == [] then Outcome(Ok, s, rxs)
    else
      var x := xfers[0];
      var s1 := if start then Start(env, s) else s;
      if !x.Plain() then Outcome(Unsupported, Stop(env, s1), rxs)
      else
        var s2 := Move(env, s1, x);
        Run(env, if x.end then Stop(env, s2) else s2, xfers[1..], x.end, rxs + [Received(env, s1, x)])
  }

  class Mpsse {
    const link: Link
    const maxGpios: nat
    var gpioDir: Pins
    var gpioOut: Pins
    var mode: nat
    const scratch: array<Byte>
    /** spi.cs_pin and spi.cs_active_high are those of the slave. */

    /** The interface structure is allocated zeroed. */
    constructor (link: Link, maxGpios: nat)
      ensures this.link == link && this.maxGpios == maxGpios && mode == 0
      ensures gpioDir == gpioOut == Zeros(PINS) && scratch.Length == BUF_LEN && fresh(scratch)
    {
      this.link, this.maxGpios, mode := link, maxGpios, 0;
      scratch := new Byte[BUF_LEN];
      gpioDir, gpioOut := Zeros(PINS), Zeros(PINS);
    }

    function Setup(): Env
      reads this
    {
      Env(maxGpios, mode, link.slave)
    }

    ghost function Now(): State
      reads this, link
    {
      State(gpioDir, gpioOut, link.chip)
    }

    /** The pin part of mpsse_init: all pins become inputs, as the zeroed shadow says. */
    method ResetPins() returns (ok: bool)
      requires Setup().Valid() && gpioDir == gpioOut == Zeros(PINS)
      modifies link
      ensures link.faults >= old(link.faults) && (ok <==> link.faults == old(link.faults))
      ensures ok ==> Agrees(Setup(), Now())
    {
      ok := link.Write([SET_LOW, 0, 0]);
      if !ok {
        return;
      }
      ZeroByte();
      if maxGpios == 16 {
        ok := link.Write([SET_HIGH, 0, 0]);
      }
    }

    method SetPins(mask: Pins, dir: Pins, val: Pins) returns (ok: bool)
      requires Setup().Valid()
      modifies link, this`gpioDir, this`gpioOut
      ensures link.faults >= old(link.faults) && (ok <==> link.faults == old(link.faults))
      ensures link.dataFaults == old(link.dataFaults)
      ensures gpioDir == SetGpio(Setup(), old(Now()), mask, dir, val).dir
      ensures gpioOut == SetGpio(Setup(), old(Now()), mask, dir, val).out
      ensures ok ==> Now() == SetGpio(Setup(), old(Now()), mask, dir, val)
      ensures gpioDir == old(gpioDir) && gpioOut == old(gpioOut) ==> ok && link.chip == old(link.chip)
    {
      hide Merge, Drive, FirstPins, And, Pack;
      var m := And(mask, FirstPins(maxGpios));
      var newDir, newOut := Merge(gpioDir, m, dir), Merge(gpioOut, m, val);
      var okLow, okHigh := true, true;
      if LowDiffers(newDir, gpioDir) || LowDiffers(newOut, gpioOut) {
        okLow := link.Write([SET_LOW, Pack(newOut[8..]), Pack(newDir[8..])]);
      }
      if HighDiffers(newDir, gpioDir) || HighDiffers(newOut, gpioOut) {
        okHigh := link.Write([SET_HIGH, Pack(newOut[..8]), Pack(newDir[..8])]);
      }
      gpioDir, gpioOut := newDir, newOut;
      ok := okLow && okHigh;
    }

    method SpiStart() returns (ok: bool)
      requires Setup().Valid()
      modifies link, this`gpioDir, this`gpioOut
      ensures link.faults >= old(link.faults) && (ok <==> link.faults == old(link.faults))
      ensures link.dataFaults == old(link.dataFaults)
      ensures ok ==> Now() == Start(Setup(), old(Now()))
    {
      hide SetGpio, Levels, Mask;
      var cs, high := link.slave.cs, link.slave.activeHigh;
      ok := SetPins(Mask(SK, cs), Mask(SK, cs), Levels(cs, Setup().Cpol(), !high));
      if !ok {
        return;
      }
      ok := SetPins(Mask(cs, cs), Mask(cs, cs), Levels(cs, Setup().Cpol(), high));
      if !ok {
        return;
      }
      if Setup().Cpha() {
        ok := SetPins(Mask(SK, SK), Mask(SK, SK), Levels(cs, !Setup().Cpol(), high));
      }
    }

    method SpiStop() returns (ok: bool)
      requires Setup().Valid()
      modifies link, this`gpioDir, this`gpioOut
      ensures link.faults >= old(link.faults) && (ok <==> link.faults == old(link.faults))
      ensures link.dataFaults == old(link.dataFaults)
      ensures ok ==> Now() == Stop(Setup(), old(Now()))
    {
      hide SetGpio, Levels, Mask;
      var cs, high := link.slave.cs, link.slave.activeHigh;
      if Setup().Cpha() {
        ok := SetPins(Mask(SK, SK), Mask(SK, SK), Levels(cs, Setup().Cpol(), false));
        if !ok {
          return;
        }
      }
      ok := SetPins(Mask(cs, cs), Mask(cs, cs), Levels(cs, false, !high));
    }

    method ReadOnce(len: nat) returns (ok: bool, rx: seq<Byte>)
      requires Setup().Valid() && 0 < len <= MAX_LEN && link.chip.readable == []
      modifies link
      ensures link.faults >= old(link.faults) && (ok <==> link.faults == old(link.faults))
      ensures link.dataFaults == old(link.dataFaults) + if ok then 0 else 1
      ensures ok ==> var c := ShiftIn(link.slave, old(link.chip), InRising(mode), len);
                rx == c.readable && link.chip == c.(readable := [])
    {
      var rlen := len - 1;
      var cmd := 0x20;
      if mode == 1 || mode == 2 {
        cmd := cmd + 4;
      }
      rx := [];
      ReadCommand(link.slave, link.chip, mode, len, cmd);
      ok := link.Write([cmd, rlen % 0x100, rlen / 0x100]);
      if !ok {
        return;
      }
      ok, rx := link.Read(len);
    }

    method WriteOnce(buf: seq<Byte>) returns (ok: bool)
      requires Setup().Valid() && 0 < |buf| <= MAX_LEN && scratch.Length == BUF_LEN
      modifies link, scratch
      ensures link.faults >= old(link.faults) && (ok <==> link.faults == old(link.faults))
      ensures link.dataFaults == old(link.dataFaults) + if ok then 0 else 1
      ensures ok ==> link.chip == ShiftOut(old(link.chip), OutRising(mode), buf)
    {
      var wlen := |buf| - 1;
      scratch[0] := 0x10;
      if mode == 0 || mode == 3 {
        scratch[0] := scratch[0] + 1;
      }
      scratch[1] := wlen % 0x100;
      scratch[2] := wlen / 0x100;
      Copy(scratch, CMD_LEN, buf);
      var packet := scratch[..CMD_LEN + |buf|];
      WriteCommand(link.slave, link.chip, mode, buf, packet);
      ok := link.Write(packet);
    }

    /** mpsse_spi_read: splitting into chunks changes nothing. */
    method SpiRead(total: nat) returns (ok: bool, rx: seq<Byte>)
      requires Setup().Valid() && link.chip.readable == []
      modifies link
      ensures link.faults >= old(link.faults) && (ok <==> link.faults == old(link.faults))
      ensures link.dataFaults == old(link.dataFaults) + if ok then 0 else 1
      ensures ok ==> var c := ShiftIn(link.slave, old(link.chip), InRising(mode), total);
                rx == c.readable && link.chip == c.(readable := [])
    {
      hide Agrees, InRising, ShiftIn;
      NothingIn(link.slave, link.chip, InRising(mode));
      ghost var c0, rising := link.chip, InRising(mode);
      ok, rx := true, [];
      var len := total;
      while len > 0
        invariant 0 <= len <= total && ok && link.faults == old(link.faults) && link.dataFaults == old(link.dataFaults)
        invariant var c := ShiftIn(link.slave, c0, rising, total - len); rx == c.readable && link.chip == c.(readable := [])
      {
        var chksz := if len > MAX_LEN then MAX_LEN else len;
        var piece: seq<Byte>;
        ok, piece := ReadOnce(chksz);
        if !ok {
          return;
        }
        ShiftInStep(link.slave, c0, rising, total - len, chksz);
        rx := rx + piece;
        len := len - chksz;
      }
    }

    /** mpsse_spi_write */
    method SpiWrite(tx: seq<Byte>) returns (ok: bool)
      requires Setup().Valid() && scratch.Length == BUF_LEN
      modifies link, scratch
      ensures link.faults >= old(link.faults) && (ok <==> link.faults == old(link.faults))
      ensures link.dataFaults == old(link.dataFaults) + if ok then 0 else 1
      ensures ok ==> link.chip == ShiftOut(old(link.chip), OutRising(mode), tx)
    {
      hide Agrees, OutRising;
      ghost var c0, rising := link.chip, OutRising(mode);
      ok := true;
      var len := |tx|;
      assert tx[..0] == [];
      while len > 0
        invariant 0 <= len <= |tx| && ok && link.faults == old(link.faults) && link.dataFaults == old(link.dataFaults)
        invariant link.chip == ShiftOut(c0, rising, tx[..|tx| - len])
      {
        var done := |tx| - len;
        var chksz := if len > MAX_LEN then MAX_LEN else len;
        ok := WriteOnce(tx[done..done + chksz]);
        if !ok {
          return;
        }
        ShiftOutAppend(c0, rising, tx[..done], tx[done..done + chksz]);
        assert tx[..done] + tx[done..done + chksz] == tx[..done + chksz];
        len := len - chksz;
      }
      assert tx[..|tx|] == tx;
    }

    /** ufprog_spi_generic_xfer */
    method GenericXfer(xfers: seq<Transfer<Byte>>) returns (status: Status, rxs: seq<seq<Byte>>)
      requires Setup().Valid() && scratch.Length == BUF_LEN && link.chip.readable == []
      requires forall x | x in xfers :: x.Valid()
      modifies link, this`gpioDir, this`gpioOut, scratch
      ensures link.faults >= old(link.faults) && (status.Ok? ==> link.faults == old(link.faults))
      ensures link.faults == old(link.faults) ==>
                Outcome(status, Now(), rxs) == Run(Setup(), old(Now()), xfers, true, [])
      ensures link.dataFaults > old(link.dataFaults) && link.faults == old(link.faults) + 1 ==>
                status.IoError? && Released(Setup(), gpioDir, gpioOut)
    {
      hide Start, Stop, ShiftIn, ShiftOut, InRising, OutRising;
      ghost var goal := Run(Setup(), Now(), xfers, true, []);
      var requireStart := true;
      rxs := [];
      assert xfers[0..] == xfers;
      var ok := true;
      for i := 0 to |xfers|
        invariant link.faults == old(link.faults) && link.dataFaults == old(link.dataFaults) && link.chip.readable == []
        invariant Run(Setup(), Now(), xfers[i..], requireStart, rxs) == goal
      {
        var x := xfers[i];
        assert xfers[i..][1..] == xfers[i + 1..];
        if requireStart {
          StartReadable(Setup(), Now());
          ok := SpiStart();
          if !ok {
            return IoError, rxs;
          }
          requireStart := false;
        }
        if !x.Plain() {
          ok := SpiStop();
          return Unsupported, rxs;
        }
        var rx := [];
        if x.dir.In? {
          ok, rx := SpiRead(x.len);
        } else {
          ok := SpiWrite(x.tx);
        }
        if !ok {
          StopReleases(Setup(), Now());
          ok := SpiStop();
          return IoError, rxs;
        }
        rxs := rxs + [rx];
        if x.end {
          StartReadable(Setup(), Now());
          ok := SpiStop();
          if !ok {
            return IoError, rxs;
          }
          requireStart := true;
        }
      }
      status := Ok;
    }
  }

  /** The chip-select pin is an output at its inactive level. */
  predicate Released(env: Env, dir: Pins, out: Pins)
    requires env.Valid()
  {
    Pin(dir, env.slave.cs) && Pin(out, env.slave.cs) != env.slave.activeHigh
  }

  lemma StopReleases(env: Env, s: State)
    requires env.Valid()
    ensures Released(env, Stop(env, s).dir, Stop(env, s).out)
  {
    hide Merge, Drive, Pin, Mask, Levels, FirstPins, And;
    var cs := env.slave.cs;
    PinOfBoth(Mask(cs, cs), FirstPins(env.maxGpios), cs);
  }

  lemma PinOfBoth(a: Pins, b: Pins, p: nat)
    requires p < PINS && Pin(a, p) && Pin(b, p)
    ensures Pin(And(a, b), p)
  {
  }

  lemma SetGpioReadable(env: Env, s: State, mask: Pins, dir: Pins, val: Pins)
    requires env.Valid()
    ensures SetGpio(env, s, mask, dir, val).chip.readable == s.chip.readable
  {
    hide Merge, FirstPins, Drive;
  }

  lemma StartReadable(env: Env, s: State)
    requires env.Valid()
    ensures Start(env, s).chip.readable == Stop(env, s).chip.readable == s.chip.readable
  {
    hide SetGpio, Levels, Mask;
    forall t: State, mask: Pins, dir: Pins, val: Pins
      ensures SetGpio(env, t, mask, dir, val).chip.readable == t.chip.readable
    {
      SetGpioReadable(env, t, mask, dir, val);
    }
  }

  lemma NothingIn(slave: Slave, c: Chip, rising: bool)
    requires c.readable == []
    ensures ShiftIn(slave, c, rising, 0) == c == c.(readable := [])
  {
  }

  lemma LengthBytes(len: nat)
    requires 0 < len <= MAX_LEN
    ensures (len - 1) / 0x100 < 0x100 && Length((len - 1) % 0x100, (len - 1) / 0x100) == len
  {
  }

  lemma ReadCommand(slave: Slave, c: Chip, mode: nat, len: nat, cmd: Byte)
    requires slave.Valid() && 0 < len <= MAX_LEN && cmd == 0x20 + if mode == 1 || mode == 2 then 4 else 0
    ensures (len - 1) / 0x100 < 0x100
    ensures Receive(slave, c, [cmd, (len - 1) % 0x100, (len - 1) / 0x100]) == ShiftIn(slave, c, InRising(mode), len)
  {
    hide ShiftIn;
    LengthBytes(len);
  }

  lemma WriteCommand(slave: Slave, c: Chip, mode: nat, buf: seq<Byte>, packet: seq<Byte>)
    requires slave.Valid() && 0 < |buf| <= MAX_LEN && |packet| == CMD_LEN + |buf| && packet[CMD_LEN..] == buf
    requires packet[0] == 0x10 + if mode == 0 || mode == 3 then 1 else 0
    requires packet[1] == (|buf| - 1) % 0x100 && packet[2] == (|buf| - 1) / 0x100
    ensures Receive(slave, c, packet) == ShiftOut(c, OutRising(mode), buf)
  {
    hide ShiftOut;
    LengthBytes(|buf|);
  }

  lemma ZeroByte()
    ensures ToWord(0, 8) == Zeros(8)
  {
  }
}
