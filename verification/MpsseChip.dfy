/** An FTDI chip in MPSSE mode, commanded over USB by byte packets, and the SPI slave wired to its pins. */
module MpsseChip {
  import opened BitString
  import opened Memory

  const PINS := 16

  /** The chip's pins, pin 15 first: clock is pin 0, the data pins are 1 and 2. */
  type Pins = w: Word | |w| == PINS witness Zeros(PINS)

  predicate Pin(w: Pins, p: nat)
    requires p < PINS
  {
    w[PINS - 1 - p]
  }

  /** Eight pins in a byte. */
  function Pack(w: Word): (r: Byte)
    requires |w| == 8
    ensures ToWord(r, 8) == w
  {
    ValueBound(w);
    ToWordValue(w);
    assert Power2(8) == 0x100;
    Value(w)
  }

  /** A byte on the bus: the clock level it starts and ends at, and the edge it is sent or sampled on. */
  datatype Shift = Shift(clock: bool, rising: bool, incoming: bool, byte: Byte)

  /** What happened while the slave was selected, and the clock level when it was selected and released. */
  datatype Frame = Frame(selClock: bool, shifts: seq<Shift>, relClock: bool)

  /** What the slave sees; stray marks bytes shifted while it is not selected, and packets that make no sense. */
  datatype View = View(selected: bool, selClock: bool, open: seq<Shift>, frames: seq<Frame>, stray: bool)

  /** How the slave's chip select is wired, and the byte it answers with. */
  datatype Slave = Slave(cs: nat, activeHigh: bool, answer: (seq<Frame>, seq<Shift>) -> Byte) {
    predicate Valid() { 3 <= cs < PINS }

    predicate Selects(dir: Pins, out: Pins)
      requires Valid()
    {
      Pin(dir, cs) && Pin(out, cs) == activeHigh
    }
  }

  datatype Chip = Chip(dir: Pins, out: Pins, view: View, readable: seq<Byte>)

  /** Pins change: the slave may be selected or released. */
  function Drive(slave: Slave, c: Chip, dir: Pins, out: Pins): (r: Chip)
    requires slave.Valid()
    ensures r.dir == dir && r.out == out && r.readable == c.readable
  {
    var v, selects := c.view, slave.Selects(dir, out);
    var v' :=
      if selects && !v.selected then v.(selected := true, selClock := Pin(out, 0), open := [])
      else if !selects && v.selected then
        v.(selected := false, open := [], frames := v.frames + [Frame(v.selClock, v.open, Pin(out, 0))])
      else v;
    Chip(dir, out, v', c.readable)
  }

  function ShiftByte(c: Chip, rising: bool, incoming: bool, byte: Byte): (r: Chip)
    ensures r.dir == c.dir && r.out == c.out && r.readable == c.readable
    ensures r.view.stray == (c.view.stray || !c.view.selected)
  {
    if c.view.selected
    then c.(view := c.view.(open := c.view.open + [Shift(Pin(c.out, 0), rising, incoming, byte)]))
    else c.(view := c.view.(stray := true))
  }

  function ShiftOut(c: Chip, rising: bool, data: seq<Byte>): (r: Chip)
    ensures r.dir == c.dir && r.out == c.out && r.readable == c.readable
    decreases |data|
  {
    if data == [] then c else ShiftOut(ShiftByte(c, rising, false, data[0]), rising, data[1..])
  }

  function ShiftIn(slave: Slave, c: Chip, rising: bool, n: nat): (r: Chip)
    ensures r.dir == c.dir && r.out == c.out && |r.readable| == |c.readable| + n
    decreases n
  {
    if n == 0 then c
    else
      var byte := slave.answer(c.view.frames, c.view.open);
      ShiftIn(slave, ShiftByte(c, rising, true, byte).(readable := c.readable + [byte]), rising, n - 1)
  }

  /** The length field of a shift command is one less than the length. */
  function Length(low: nat, high: nat): nat { low + 0x100 * high + 1 }

  /** One command packet. */
  function Receive(slave: Slave, c: Chip, packet: seq<Byte>): Chip
    requires slave.Valid()
  {
    if |packet| == 3 && packet[0] == 0x80 then
      Drive(slave, c, c.dir[..8] + ToWord(packet[2], 8), c.out[..8] + ToWord(packet[1], 8))
    else if |packet| == 3 && packet[0] == 0x82 then
      Drive(slave, c, ToWord(packet[2], 8) + c.dir[8..], ToWord(packet[1], 8) + c.out[8..])
    else if |packet| == 3 && (packet[0] == 0x20 || packet[0] == 0x24) then
      ShiftIn(slave, c, packet[0] == 0x20, Length(packet[1], packet[2]))
    else if |packet| >= 3 && (packet[0] == 0x10 || packet[0] == 0x11) && |packet| - 3 == Length(packet[1], packet[2]) then
      ShiftOut(c, packet[0] == 0x10, packet[3..])
    else c.(view := c.view.(stray := true))
  }

  /** Shifting in two pieces is shifting in one. */
  lemma {:induction false} ShiftOutAppend(c: Chip, rising: bool, a: seq<Byte>, b: seq<Byte>)
    ensures ShiftOut(ShiftOut(c, rising, a), rising, b) == ShiftOut(c, rising, a + b)
    decreases |a|
  {
    if a == [] {
      assert a + b == b;
    } else {
      ShiftOutAppend(ShiftByte(c, rising, false, a[0]), rising, a[1..], b);
      assert (a + b)[1..] == a[1..] + b;
    }
  }

  lemma {:induction false} ShiftInAppend(slave: Slave, c: Chip, rising: bool, m: nat, n: nat)
    ensures ShiftIn(slave, ShiftIn(slave, c, rising, m), rising, n) == ShiftIn(slave, c, rising, m + n)
    decreases m
  {
    if m > 0 {
      var byte := slave.answer(c.view.frames, c.view.open);
      ShiftInAppend(slave, ShiftByte(c, rising, true, byte).(readable := c.readable + [byte]), rising, m - 1, n);
    }
  }

  /** What was readable before stays in front of what is shifted in, and matters to nothing else. */
  lemma {:induction false} ShiftInReadable(slave: Slave, c: Chip, before: seq<Byte>, rising: bool, n: nat)
    ensures var a, b := ShiftIn(slave, c.(readable := before), rising, n), ShiftIn(slave, c.(readable := []), rising, n);
      a.readable == before + b.readable && a.(readable := []) == b.(readable := [])
    decreases n
  {
    if n > 0 {
      var byte := slave.answer(c.view.frames, c.view.open);
      var c' := ShiftByte(c, rising, true, byte);
      ShiftInReadable(slave, c', before + [byte], rising, n - 1);
      ShiftInReadable(slave, c', [byte], rising, n - 1);
      assert c.(readable := before).view == c.view && [] + [byte] == [byte];
      assert ShiftByte(c.(readable := before), rising, true, byte) == c'.(readable := before);
      assert ShiftByte(c.(readable := []), rising, true, byte) == c'.(readable := []);
    }
  }

  /** Shifting in n bytes more, when what came before has been read already. */
  lemma ShiftInStep(slave: Slave, c0: Chip, rising: bool, done: nat, n: nat)
    ensures var c, next := ShiftIn(slave, c0, rising, done), ShiftIn(slave, c0, rising, done + n);
      var piece := ShiftIn(slave, c.(readable := []), rising, n);
      next.readable == c.readable + piece.readable && next.(readable := []) == piece.(readable := [])
  {
    hide ShiftIn;
    var c := ShiftIn(slave, c0, rising, done);
    ShiftInAppend(slave, c0, rising, done, n);
    ShiftInReadable(slave, c, c.readable, rising, n);
    assert c.(readable := c.readable) == c;
  }

  /** The USB link to the chip: any transfer may fail, before or after it reached the chip. */
  class Link {
    const slave: Slave
    var chip: Chip
    /** Transfers that failed, and those among them that did not set pins. */
    var faults: nat
    var dataFaults: nat

    constructor (slave: Slave, chip: Chip)
      ensures this.slave == slave && this.chip == chip && faults == dataFaults == 0
    {
      this.slave, this.chip, faults, dataFaults := slave, chip, 0, 0;
    }

    static predicate SetsPins(packet: seq<Byte>) { packet != [] && (packet[0] == 0x80 || packet[0] == 0x82) }

    /** ftdi_write */
    method Write(packet: seq<Byte>) returns (ok: bool)
      requires slave.Valid()
      modifies this
      ensures faults >= old(faults) && (ok <==> faults == old(faults))
      ensures dataFaults == old(dataFaults) + if ok || SetsPins(packet) then 0 else 1
      ensures ok ==> chip == Receive(slave, old(chip), packet)
    {
      ok := *;
      var reached := *;
      if ok || reached {
        chip := Receive(slave, chip, packet);
      }
      if !ok {
        faults, dataFaults := faults + 1, dataFaults + if SetsPins(packet) then 0 else 1;
      }
    }

    /** ftdi_read; reading more than was shifted in would never return. */
    method Read(n: nat) returns (ok: bool, bytes: seq<Byte>)
      requires n <= |chip.readable|
      modifies this
      ensures faults >= old(faults) && (ok <==> faults == old(faults))
      ensures dataFaults == old(dataFaults) + if ok then 0 else 1
      ensures ok ==> bytes == old(chip).readable[..n]
                     && chip == old(chip).(readable := old(chip).readable[n..])
    {
      ok := *;
      bytes := [];
      if ok {
        bytes := chip.readable[..n];
        chip := chip.(readable := chip.readable[n..]);
      } else {
        faults, dataFaults := faults + 1, dataFaults + 1;
      }
    }
  }
}
