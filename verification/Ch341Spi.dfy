/** SPI transfers over a CH341: a general loop over a list of transfers, and a fast path for write-then-read. */
module Ch341Spi {

  import opened SpiApi

  const PACKET_LEN := 0x20

  /** The bytes clocked out: the caller's, or zeros while receiving. */
  function Mosi(x: Transfer<bv8>): (r: seq<bv8>)
    requires x.Valid()
    ensures |r| == x.len
  {
    if x.dir.Out? then x.tx else Zeros(x.len)
  }

  function Zeros(n: nat): (r: seq<bv8>)
    ensures |r| == n
  {
    seq(n, _ => 0)
  }

  /** What the bus sees: output pins set, or a byte clocked out. */
  datatype Event = Pins(high: set<nat>) | Byte(mosi: bv8)

  function Bytes(mosi: seq<bv8>): (r: seq<Event>)
    ensures |r| == |mosi|
  {
    seq(|mosi|, i requires 0 <= i < |mosi| => Byte(mosi[i]))
  }

  /** The slave's answer to each byte may depend on everything the bus has seen. */
  function Miso(slave: seq<Event> -> bv8, history: seq<Event>, mosi: seq<bv8>): (r: seq<bv8>)
    ensures |r| == |mosi|
  {
    seq(|mosi|, i requires 0 <= i < |mosi| => slave(history + Bytes(mosi[..i + 1])))
  }

  lemma BytesAppend(a: seq<bv8>, b: seq<bv8>)
    ensures Bytes(a + b) == Bytes(a) + Bytes(b)
  {
  }

  lemma MisoAppend(slave: seq<Event> -> bv8, history: seq<Event>, a: seq<bv8>, b: seq<bv8>)
    ensures Miso(slave, history, a + b) == Miso(slave, history, a) + Miso(slave, history + Bytes(a), b)
  {
    var whole, parts := Miso(slave, history, a + b), Miso(slave, history, a) + Miso(slave, history + Bytes(a), b);
    forall i | 0 <= i < |a + b| ensures whole[i] == parts[i] {
      if i < |a| {
        assert (a + b)[..i + 1] == a[..i + 1];
      } else {
        assert (a + b)[..i + 1] == a + b[..i - |a| + 1];
        BytesAppend(a, b[..i - |a| + 1]);
        assert history + (Bytes(a) + Bytes(b[..i - |a| + 1])) == (history + Bytes(a)) + Bytes(b[..i - |a| + 1]);
      }
    }
  }

  /** ch341_bitswap of one byte: the chip shifts the lowest bit first. */
  function Rev8(x: bv8): bv8 {
    var a := ((x >> 1) & 0x55) | ((x & 0x55) << 1);
    var b := ((a >> 2) & 0x33) | ((a & 0x33) << 2);
    (b >> 4) | (b << 4)
  }

  /** Bit i of the result is bit 7 - i. */
  lemma RevBits(x: bv8, i: nat)
    requires i < 8
    ensures (Rev8(x) >> i) & 1 == (x >> (7 - i)) & 1
  {
    assert i == 0 || i == 1 || i == 2 || i == 3 || i == 4 || i == 5 || i == 6 || i == 7;
  }

  lemma RevTwice(x: bv8)
    ensures Rev8(Rev8(x)) == x
  {
  }

  function BitSwap(bytes: seq<bv8>): (r: seq<bv8>)
    ensures |r| == |bytes|
  {
    seq(|bytes|, i requires 0 <= i < |bytes| => Rev8(bytes[i]))
  }

  lemma BitSwapTwice(bytes: seq<bv8>)
    ensures BitSwap(BitSwap(bytes)) == bytes
  {
    forall i | 0 <= i < |bytes| ensures BitSwap(BitSwap(bytes))[i] == bytes[i] {
      RevTwice(bytes[i]);
    }
  }

  lemma ZerosSwap(n: nat)
    ensures BitSwap(Zeros(n)) == Zeros(n)
  {
    assert Rev8(0) == 0;
  }

  /** The output pins for chip select cs: all but the clock, and the selected one by polarity. */
  function CsPins(cs: nat, activeHigh: bool, activate: bool): set<nat> {
    var idle := {0, 1, 2, 4, 5};
    if activeHigh != activate then idle - {cs} else idle
  }

  class Chip {
    const slave: seq<Event> -> bv8
    var history: seq<Event>
    /** Streaming packets received. */
    var packets: nat

    constructor (slave: seq<Event> -> bv8)
      ensures this.slave == slave && history == [] && packets == 0
    {
      this.slave, history, packets := slave, [], 0;
    }

    /** A pin-setting packet. */
    method SetPins(high: set<nat>)
      modifies this
      ensures history == old(history) + [Pins(high)] && packets == old(packets)
    {
      history := history + [Pins(high)];
    }

    /** A streaming packet and its answer, both lowest bit first; with its command byte a packet has at most 32 bytes. */
    method Stream(packet: seq<bv8>) returns (answer: seq<bv8>)
      requires 1 + |packet| <= 0x20
      modifies this
      ensures packets == old(packets) + 1
      ensures history == old(history) + Bytes(BitSwap(packet))
      ensures answer == BitSwap(Miso(slave, old(history), BitSwap(packet)))
    {
      answer := BitSwap(Miso(slave, history, BitSwap(packet)));
      history, packets := history + Bytes(BitSwap(packet)), packets + 1;
    }
  }

  class Ch341 {
    const chip: Chip
    const cs: nat
    var csActiveHigh: bool

    constructor (chip: Chip, cs: nat, csActiveHigh: bool)
      ensures this.chip == chip && this.cs == cs && this.csActiveHigh == csActiveHigh
    {
      this.chip, this.cs, this.csActiveHigh := chip, cs, csActiveHigh;
    }

    /** ch341_spi_set_cs */
    method SetCs(activate: bool)
      modifies chip
      ensures chip.history == old(chip.history) + [Pins(CsPins(cs, csActiveHigh, activate))]
    {
      chip.SetPins(CsPins(cs, csActiveHigh, activate));
    }

    /** ch341_spi_fdx_xfer: splitting into packets changes neither what is sent nor what is received. */
    method FdxXfer(tx: seq<bv8>, sends: bool) returns (rx: seq<bv8>)
      requires !sends ==> tx == Zeros(|tx|)
      modifies chip
      ensures chip.history == old(chip.history) + Bytes(tx)
      ensures rx == Miso(chip.slave, old(chip.history), tx)
      ensures chip.packets == old(chip.packets) + (|tx| + 30) / 31
    {
      hide Miso, BitSwap, Rev8;
      var len := |tx|;
      rx := [];
      ghost var h0 := chip.history;
      NothingSent(chip.slave, h0, tx);
      while len > 0
        invariant 0 <= len <= |tx|
        invariant chip.history == h0 + Bytes(tx[..|tx| - len])
        invariant rx == Miso(chip.slave, h0, tx[..|tx| - len])
        invariant chip.packets + (len + 30) / 31 == old(chip.packets) + (|tx| + 30) / 31
      {
        var done := |tx| - len;
        var chksz := if len > PACKET_LEN - 1 then PACKET_LEN - 1 else len;
        var piece := tx[done..done + chksz];
        var packet: seq<bv8>;
        if sends {
          packet := BitSwap(piece);
        } else {
          packet := Zeros(chksz);
          ZerosSwap(chksz);
        }
        assert !sends ==> piece == Zeros(chksz);
        BitSwapTwice(piece);
        var answer := chip.Stream(packet);
        BitSwapTwice(Miso(chip.slave, h0 + Bytes(tx[..done]), piece));
        MisoAppend(chip.slave, h0, tx[..done], piece);
        BytesAppend(tx[..done], piece);
        assert tx[..done] + piece == tx[..done + chksz];
        assert (h0 + Bytes(tx[..done])) + Bytes(piece) == h0 + (Bytes(tx[..done]) + Bytes(piece));
        rx := rx + BitSwap(answer);
        len := len - chksz;
      }
      assert tx[..|tx|] == tx;
    }

    /** The loop of ufprog_spi_generic_xfer over a list of transfers. */
    method General(xfers: seq<Transfer<bv8>>) returns (ok: bool, rxs: seq<seq<bv8>>)
      requires forall x | x in xfers :: x.Valid()
      modifies chip
      ensures var bus := Bus(chip.slave, CsPins(cs, csActiveHigh, true), CsPins(cs, csActiveHigh, false));
        Outcome(ok, chip.history, rxs) == GeneralRun(bus, old(chip.history), xfers, true, [])
    {
      hide Miso, CsPins, Bytes;
      ghost var bus := Bus(chip.slave, CsPins(cs, csActiveHigh, true), CsPins(cs, csActiveHigh, false));
      ghost var goal := GeneralRun(bus, chip.history, xfers, true, []);
      var requireStart := true;
      ok, rxs := true, [];
      assert xfers[0..] == xfers;
      for i := 0 to |xfers|
        invariant ok && GeneralRun(bus, chip.history, xfers[i..], requireStart, rxs) == goal
      {
        var x := xfers[i];
        assert xfers[i..][1..] == xfers[i + 1..];
        if requireStart {
          SetCs(true);
          requireStart := false;
        }
        if !x.Plain() {
          SetCs(false);
          return false, rxs;
        }
        var rx := FdxXfer(Mosi(x), x.dir.Out?);
        rxs := rxs + [if x.dir.In? then rx else []];
        if x.end {
          SetCs(false);
          requireStart := true;
        }
      }
    }

    /** The combined write-then-read. */
    method Fast(x: Transfer<bv8>, y: Transfer<bv8>) returns (rxs: seq<seq<bv8>>)
      requires Qualifies([x, y]) && x.Valid() && y.Valid()
      modifies chip
      ensures var bus := Bus(chip.slave, CsPins(cs, csActiveHigh, true), CsPins(cs, csActiveHigh, false));
        Outcome(true, chip.history, rxs) == FastRun(bus, old(chip.history), x, y)
    {
      hide Miso, CsPins, Bytes;
      var wrbuf := x.tx + Zeros(y.len);
      SetCs(true);
      wrbuf := FdxXfer(wrbuf, true);
      SetCs(false);
      rxs := [[], wrbuf[x.len..]];
    }

    /** ufprog_spi_generic_xfer */
    method GenericXfer(xfers: seq<Transfer<bv8>>) returns (ok: bool, rxs: seq<seq<bv8>>)
      requires forall x | x in xfers :: x.Valid()
      modifies chip
      ensures var bus := Bus(chip.slave, CsPins(cs, csActiveHigh, true), CsPins(cs, csActiveHigh, false));
        && (!Qualifies(xfers) ==> Outcome(ok, chip.history, rxs) == GeneralRun(bus, old(chip.history), xfers, true, []))
        && (Qualifies(xfers) ==> Outcome(ok, chip.history, rxs) == FastRun(bus, old(chip.history), xfers[0], xfers[1]))
        && (Qualifies(xfers) && !xfers[0].end && xfers[1].end ==>
              Outcome(ok, chip.history, rxs) == GeneralRun(bus, old(chip.history), xfers, true, []))
    {
      hide FastRun, GeneralRun, CsPins;
      if Qualifies(xfers) {
        assert xfers == [xfers[0], xfers[1]];
        ghost var bus := Bus(chip.slave, CsPins(cs, csActiveHigh, true), CsPins(cs, csActiveHigh, false));
        FastEqualsGeneralIff(bus, chip.history, xfers[0], xfers[1]);
        rxs := Fast(xfers[0], xfers[1]);
        ok := true;
      } else {
        ok, rxs := General(xfers);
      }
    }
  }

  /** The condition of the fast path. */
  predicate Qualifies(xfers: seq<Transfer<bv8>>) {
    && |xfers| == 2 && xfers[0].dir.Out? && xfers[1].dir.In?
    && xfers[0].len + xfers[1].len <= PACKET_LEN - 1
    && !xfers[0].dtr && !xfers[1].dtr && xfers[0].width == 1 && xfers[1].width == 1
  }

  /** A slave and the pin states that select and deselect it. */
  datatype Bus = Bus(slave: seq<Event> -> bv8, on: set<nat>, off: set<nat>)

  /** How a call ends, all the bus has seen, and what each transfer received. */
  datatype Outcome = Outcome(ok: bool, history: seq<Event>, rxs: seq<seq<bv8>>)

  function GeneralRun(bus: Bus, history: seq<Event>, xfers: seq<Transfer<bv8>>, start: bool, rxs: seq<seq<bv8>>): Outcome
    requires forall x | x in xfers :: x.Valid()
    decreases |xfers|
  {
    if xfers == [] then Outcome(true, history, rxs)
    else
      var x := xfers[0];
      var h1 := if start then history + [Pins(bus.on)] else history;
      if !x.Plain() then Outcome(false, h1 + [Pins(bus.off)], rxs)
      else
        var rxs' := rxs + [if x.dir.In? then Miso(bus.slave, h1, Mosi(x)) else []];
        var h2 := h1 + Bytes(Mosi(x));
        GeneralRun(bus, if x.end then h2 + [Pins(bus.off)] else h2, xfers[1..], x.end, rxs')
  }

  function FastRun(bus: Bus, history: seq<Event>, x: Transfer<bv8>, y: Transfer<bv8>): Outcome
    requires x.Valid() && x.dir.Out?
  {
    var h1, sent := history + [Pins(bus.on)], x.tx + Zeros(y.len);
    Outcome(true, (h1 + Bytes(sent)) + [Pins(bus.off)], [[], Miso(bus.slave, h1, sent)[x.len..]])
  }

  lemma NothingSent(slave: seq<Event> -> bv8, history: seq<Event>, tx: seq<bv8>)
    ensures Bytes(tx[..0]) == [] && Miso(slave, history, tx[..0]) == []
    ensures history + Bytes(tx[..0]) == history
  {
  }

  /** What the general loop makes of a last, incoming transfer. */
  lemma GeneralLast(bus: Bus, history: seq<Event>, y: Transfer<bv8>, start: bool, rxs: seq<seq<bv8>>)
    requires y.Plain() && y.Valid() && y.dir.In?
    ensures var h := if start then history + [Pins(bus.on)] else history;
      var h' := h + Bytes(Mosi(y));
      GeneralRun(bus, history, [y], start, rxs)
        == Outcome(true, if y.end then h' + [Pins(bus.off)] else h', rxs + [Miso(bus.slave, h, Mosi(y))])
  {
    hide Miso, Bytes;
    assert [y][1..] == [];
  }

  /** What the general loop makes of a qualifying pair. */
  lemma GeneralPair(bus: Bus, history: seq<Event>, x: Transfer<bv8>, y: Transfer<bv8>)
    requires Qualifies([x, y]) && x.Valid() && y.Valid()
    ensures var h1 := history + [Pins(bus.on)];
      var h2 := h1 + Bytes(x.tx) + (if x.end then [Pins(bus.off), Pins(bus.on)] else []);
      var h3 := h2 + Bytes(Zeros(y.len)) + (if y.end then [Pins(bus.off)] else []);
      GeneralRun(bus, history, [x, y], true, []) == Outcome(true, h3, [[], Miso(bus.slave, h2, Zeros(y.len))])
  {
    hide Miso, Bytes, Zeros;
    var h1 := history + [Pins(bus.on)];
    var hx := if x.end then h1 + Bytes(x.tx) + [Pins(bus.off)] else h1 + Bytes(x.tx);
    var h2 := h1 + Bytes(x.tx) + (if x.end then [Pins(bus.off), Pins(bus.on)] else []);
    assert [x, y][1..] == [y];
    var none: seq<seq<bv8>> := [];
    assert none + [[]] == [[]];
    GeneralLast(bus, hx, y, x.end, [[]]);
    assert Mosi(y) == Zeros(y.len);
    assert (if x.end then hx + [Pins(bus.on)] else hx) == h2;
    var m := Miso(bus.slave, h2, Zeros(y.len));
    assert [[]] + [m] == [[], m];
    var h := h2 + Bytes(Zeros(y.len));
    assert h + [] == h;
  }

  /** The fast path shows the bus and the caller what the general loop would if and only if
      chip select is to be released after the second transfer and only then. */
  lemma FastEqualsGeneralIff(bus: Bus, history: seq<Event>, x: Transfer<bv8>, y: Transfer<bv8>)
    requires Qualifies([x, y]) && x.Valid() && y.Valid()
    ensures FastRun(bus, history, x, y) == GeneralRun(bus, history, [x, y], true, []) <==> !x.end && y.end
  {
    hide Miso;
    GeneralPair(bus, history, x, y);
    var h1, sent := history + [Pins(bus.on)], x.tx + Zeros(y.len);
    BytesAppend(x.tx, Zeros(y.len));
    MisoAppend(bus.slave, h1, x.tx, Zeros(y.len));
    if !x.end && y.end {
      var h2 := h1 + Bytes(x.tx) + [];
      assert h2 == h1 + Bytes(x.tx);
      assert (h1 + (Bytes(x.tx) + Bytes(Zeros(y.len)))) + [Pins(bus.off)] == h2 + Bytes(Zeros(y.len)) + [Pins(bus.off)];
      assert Miso(bus.slave, h1, sent)[x.len..] == Miso(bus.slave, h1 + Bytes(x.tx), Zeros(y.len));
    } else {
      assert |FastRun(bus, history, x, y).history| == |history| + x.len + y.len + 2;
      assert |GeneralRun(bus, history, [x, y], true, []).history| != |history| + x.len + y.len + 2;
    }
  }

  // ---- what the slave on one chip select sees ----

  /** The bytes of the frame it is in, and of those that are over; stray marks bytes while it is not selected. */
  datatype View = View(selected: bool, open: seq<bv8>, frames: seq<seq<bv8>>, stray: bool)

  function Watch(cs: nat, activeHigh: bool, history: seq<Event>): View
    decreases |history|
  {
    if history == [] then View(false, [], [], false)
    else
      var v := Watch(cs, activeHigh, history[..|history| - 1]);
      match history[|history| - 1]
      case Pins(high) =>
        var selects := (cs in high) == activeHigh;
        if selects && !v.selected then v.(selected := true, open := [])
        else if !selects && v.selected then View(false, [], v.frames + [v.open], v.stray)
        else v
      case Byte(b) => if v.selected then v.(open := v.open + [b]) else v.(stray := true)
  }

  lemma WatchSnoc(cs: nat, activeHigh: bool, history: seq<Event>, e: Event)
    ensures (history + [e])[..|history|] == history && (history + [e])[|history|] == e
  {
  }

  lemma WatchPins(cs: nat, activeHigh: bool, history: seq<Event>, activate: bool)
    requires cs < 3
    ensures var v := Watch(cs, activeHigh, history);
      var v' := Watch(cs, activeHigh, history + [Pins(CsPins(cs, activeHigh, activate))]);
      v' == if activate && !v.selected then v.(selected := true, open := [])
            else if !activate && v.selected then View(false, [], v.frames + [v.open], v.stray)
            else v
  {
    WatchSnoc(cs, activeHigh, history, Pins(CsPins(cs, activeHigh, activate)));
  }

  lemma {:induction false} WatchBytes(cs: nat, activeHigh: bool, history: seq<Event>, mosi: seq<bv8>)
    requires Watch(cs, activeHigh, history).selected
    ensures var v := Watch(cs, activeHigh, history);
      Watch(cs, activeHigh, history + Bytes(mosi)) == v.(open := v.open + mosi)
    decreases |mosi|
  {
    if mosi == [] {
      var open := Watch(cs, activeHigh, history).open;
      assert history + Bytes(mosi) == history && open + mosi == open;
    } else {
      var front, b := mosi[..|mosi| - 1], mosi[|mosi| - 1];
      WatchBytes(cs, activeHigh, history, front);
      assert history + Bytes(mosi) == (history + Bytes(front)) + [Byte(b)];
      WatchSnoc(cs, activeHigh, history + Bytes(front), Byte(b));
      assert (Watch(cs, activeHigh, history).open + front) + [b] == Watch(cs, activeHigh, history).open + mosi;
    }
  }

  /** Transfers up to one marked end are one frame. */
  function Frames(frames: seq<seq<bv8>>, open: seq<bv8>, xfers: seq<Transfer<bv8>>, start: bool): View
    requires forall x | x in xfers :: x.Valid()
    decreases |xfers|
  {
    var open1 := if start then [] else open;
    if xfers == [] then View(!start, open1, frames, false)
    else
      var x := xfers[0];
      if !x.Plain() then View(false, [], frames + [open1], false)
      else if x.end then Frames(frames + [open1 + Mosi(x)], [], xfers[1..], true)
      else Frames(frames, open1 + Mosi(x), xfers[1..], false)
  }

  /** The general loop's bytes reach the slave in frames that end exactly at the marked ends, none outside a frame;
      a transfer that is refused ends its frame. */
  lemma {:induction false} GeneralFrames(cs: nat, activeHigh: bool, slave: seq<Event> -> bv8, history: seq<Event>,
                                         xfers: seq<Transfer<bv8>>, start: bool, rxs: seq<seq<bv8>>)
    requires cs < 3 && forall x | x in xfers :: x.Valid()
    requires Watch(cs, activeHigh, history).selected == !start && !Watch(cs, activeHigh, history).stray
    ensures var bus := Bus(slave, CsPins(cs, activeHigh, true), CsPins(cs, activeHigh, false));
      var v := Watch(cs, activeHigh, history);
      var want := Frames(v.frames, v.open, xfers, start);
      var got := Watch(cs, activeHigh, GeneralRun(bus, history, xfers, start, rxs).history);
      got.selected == want.selected && got.frames == want.frames && !got.stray && (got.selected ==> got.open == want.open)
    decreases |xfers|
  {
    hide Watch, CsPins, Bytes, Miso, Mosi;
    var on, off := CsPins(cs, activeHigh, true), CsPins(cs, activeHigh, false);
    if xfers != [] {
      var x := xfers[0];
      var h1 := if start then history + [Pins(on)] else history;
      WatchPins(cs, activeHigh, history, true);
      if !x.Plain() {
        WatchPins(cs, activeHigh, h1, false);
      } else {
        var h2 := h1 + Bytes(Mosi(x));
        WatchBytes(cs, activeHigh, h1, Mosi(x));
        WatchPins(cs, activeHigh, h2, false);
        var rxs' := rxs + [if x.dir.In? then Miso(slave, h1, Mosi(x)) else []];
        GeneralFrames(cs, activeHigh, slave, if x.end then h2 + [Pins(off)] else h2, xfers[1..], x.end, rxs');
      }
    }
  }

  /** From the release at initialisation on, the slave sees exactly the frames of the transfers. */
  lemma FramesFromInit(cs: nat, activeHigh: bool, slave: seq<Event> -> bv8, xfers: seq<Transfer<bv8>>)
    requires cs < 3 && forall x | x in xfers :: x.Valid()
    ensures var bus := Bus(slave, CsPins(cs, activeHigh, true), CsPins(cs, activeHigh, false));
      var want := Frames([], [], xfers, true);
      var got := Watch(cs, activeHigh, GeneralRun(bus, [Pins(CsPins(cs, activeHigh, false))], xfers, true, []).history);
      got.selected == want.selected && got.frames == want.frames && !got.stray && (got.selected ==> got.open == want.open)
  {
    hide GeneralRun, Frames, CsPins;
    var init, none: seq<Event> := [Pins(CsPins(cs, activeHigh, false))], [];
    assert init == none + [Pins(CsPins(cs, activeHigh, false))];
    WatchPins(cs, activeHigh, none, false);
    GeneralFrames(cs, activeHigh, slave, init, xfers, true, []);
  }
}
