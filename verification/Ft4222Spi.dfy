/** The FT4222H operation executor in single-I/O mode: one shot where everything fits, chunks otherwise,
    and in both cases the same bytes on the wire. */
module Ft4222Spi {
  import opened Memory
  import opened SpiApi

  const CMD_LEN := 5
  const SIO_WR_MAX_LEN := 0xf
  const MIO_WR_MAX_LEN := 0xffff
  const XFER_MAX_LEN := 0xffff
  const BUF_LEN := CMD_LEN + SIO_WR_MAX_LEN + MIO_WR_MAX_LEN

  // ---- ufprog_spi_mem_supports_op ----

  datatype Check = Check(width: nat, sio: nat, mio: nat) | Refuse

  /** FT4222_CHECK_SPI_MEM_OP_PART: Refuse is its early return. */
  function CheckPart(p: Part, c: Check): Check
    requires c.Check?
  {
    if p.len == 0 then c
    else if p.width != 1 && p.width != 2 && p.width != 4 then Refuse
    else if p.dtr || p.width < c.width then Refuse
    else if p.width > 1 then
      if c.width > 1 && p.width != c.width then Refuse else Check(p.width, c.sio, c.mio + p.len)
    else Check(p.width, c.sio + p.len, c.mio)
  }

  /** The early return of the macro yields an error code, which as a truth value means supported. */
  predicate SupportsOp(op: MemOp) {
    var c1 := CheckPart(op.cmd, Check(0, 0, 0));
    if c1.Refuse? then true
    else
      var c2 := CheckPart(op.addr, c1);
      if c2.Refuse? then true
      else
        var c3 := CheckPart(op.dummy, c2);
        if c3.Refuse? then true
        else
          var d := op.data;
          if d.len > 0 && ((d.width != 1 && d.width != 2 && d.width != 4) || d.dtr || d.width < c3.width
                           || (d.width > 1 && c3.width > 1 && d.width != c3.width)) then false
          else
            var sio := c3.sio + (if d.len > 0 && d.width == 1 && op.dir.Out? then d.len else 0);
            var mio := c3.mio + (if d.len > 0 && d.width > 1 then d.len else 0);
            if mio == 0 then sio <= XFER_MAX_LEN else sio <= SIO_WR_MAX_LEN
  }

  predicate OneLine(p: Part) { p.len > 0 ==> p.width == 1 && !p.dtr }

  /** Every part present uses one line at single rate. */
  predicate SingleIo(op: MemOp) {
    OneLine(op.cmd) && OneLine(op.addr) && OneLine(op.dummy) && OneLine(op.data)
  }

  /** A single-I/O operation is supported if and only if all it sends fits one transfer. */
  lemma SingleIoSupportedIff(op: MemOp)
    requires SingleIo(op)
    ensures SupportsOp(op) <==>
      op.cmd.len + op.addr.len + op.dummy.len + (if op.dir.Out? then op.data.len else 0) <= XFER_MAX_LEN
  {
  }

  // ---- what the check is meant to accept ----

  /** A part the chip can send: on one, two or four lines at single rate, if it is there at all. */
  predicate Sendable(p: Part) { p.len > 0 ==> (p.width == 1 || p.width == 2 || p.width == 4) && !p.dtr }

  /** Once parts go out on several lines, all later ones use the same lines. */
  predicate Follows(a: Part, b: Part) { a.len > 0 && b.len > 0 ==> a.width == 1 || a.width == b.width }

  /** Command, address and dummy bytes the chip can send in this order. */
  predicate HeaderOk(op: MemOp) {
    && Sendable(op.cmd) && Sendable(op.addr) && Sendable(op.dummy)
    && Follows(op.cmd, op.addr) && Follows(op.cmd, op.dummy) && Follows(op.addr, op.dummy)
  }

  predicate DataOk(op: MemOp) {
    Sendable(op.data) && Follows(op.cmd, op.data) && Follows(op.addr, op.data) && Follows(op.dummy, op.data)
  }

  function OneLineBytes(p: Part): nat { if p.width == 1 then p.len else 0 }

  predicate UsesSeveral(p: Part) { p.len > 0 && p.width > 1 }

  /** The bytes sent on one line. */
  function SentOnOneLine(op: MemOp): nat {
    OneLineBytes(op.cmd) + OneLineBytes(op.addr) + OneLineBytes(op.dummy) + if op.dir.Out? then OneLineBytes(op.data) else 0
  }

  /** All parts sendable in their order, and few enough bytes on one line: four bits count them in front of bytes
      on several lines, otherwise they have to fit one transfer. */
  predicate Intended(op: MemOp) {
    && HeaderOk(op) && DataOk(op)
    && SentOnOneLine(op) <= if UsesSeveral(op.cmd) || UsesSeveral(op.addr) || UsesSeveral(op.dummy) || UsesSeveral(op.data)
                            then SIO_WR_MAX_LEN else XFER_MAX_LEN
  }

  /** No part makes the check return early. */
  predicate NotRefused(op: MemOp) {
    var c1 := CheckPart(op.cmd, Check(0, 0, 0));
    && c1.Check? && CheckPart(op.addr, c1).Check? && CheckPart(op.dummy, CheckPart(op.addr, c1)).Check?
  }

  lemma NotRefusedIff(op: MemOp)
    ensures NotRefused(op) <==> HeaderOk(op)
  {
  }

  /** The check gives the intended answer if and only if the parts in front of the data are sendable in their order;
      whenever they are not, it accepts. */
  lemma CheckRightIff(op: MemOp)
    ensures (SupportsOp(op) == Intended(op)) <==> HeaderOk(op)
    ensures !HeaderOk(op) ==> SupportsOp(op)
  {
    NotRefusedIff(op);
  }

  /** An operation accepted by mistake: any command on eight lines. */
  lemma EightLinesAccepted(op: MemOp)
    requires op.cmd.len > 0 && op.cmd.width == 8
    ensures SupportsOp(op) && !Intended(op)
  {
    CheckRightIff(op);
  }

  // ---- ufprog_spi_mem_adjust_op_size ----

  function Max(a: nat, b: nat): nat { if a >= b then a else b }

  function Lines(p: Part): nat { if p.len > 0 then p.width else 0 }

  function AdjustedLen(op: MemOp): nat {
    if Max(Max(Lines(op.cmd), Lines(op.addr)), Max(Lines(op.dummy), Lines(op.data))) <= 1 then op.data.len
    else if op.data.len > MIO_WR_MAX_LEN then MIO_WR_MAX_LEN
    else op.data.len
  }

  function Adjust(op: MemOp): (r: MemOp)
    requires op.Valid()
    ensures r.Valid()
  {
    op.(data := op.data.(len := AdjustedLen(op)), tx := if op.dir.Out? then op.tx[..AdjustedLen(op)] else op.tx)
  }

  predicate AtMostOneLine(p: Part) { p.len > 0 ==> p.width <= 1 }

  /** The adjustment leaves an operation as it is if every part present is on at most one line or there is no more than
      0xffff bytes of data; otherwise it leaves exactly that much, and what is to be sent of it in front. */
  lemma AdjustIs(op: MemOp)
    requires op.Valid()
    ensures var plain := AtMostOneLine(op.cmd) && AtMostOneLine(op.addr) && AtMostOneLine(op.dummy) && AtMostOneLine(op.data);
      Adjust(op) == if plain || op.data.len <= 0xffff then op
                    else op.(data := op.data.(len := 0xffff), tx := if op.dir.Out? then op.tx[..0xffff] else op.tx)
    ensures Adjust(op).data.len > 0 <==> op.data.len > 0
  {
    assert op.dir.Out? ==> op.tx[..op.data.len] == op.tx;
  }

  // ---- the wire ----

  /** What the slave puts on the bus while bytes is clocked out after wire. */
  function Responses(slave: seq<Byte> -> Byte, wire: seq<Byte>, bytes: seq<Byte>): (r: seq<Byte>)
    ensures |r| == |bytes|
  {
    seq(|bytes|, i requires 0 <= i < |bytes| => slave(wire + bytes[..i + 1]))
  }

  lemma ResponsesAppend(slave: seq<Byte> -> Byte, wire: seq<Byte>, a: seq<Byte>, b: seq<Byte>)
    ensures Responses(slave, wire, a + b) == Responses(slave, wire, a) + Responses(slave, wire + a, b)
  {
    forall i | 0 <= i < |a + b|
      ensures Responses(slave, wire, a + b)[i] == (Responses(slave, wire, a) + Responses(slave, wire + a, b))[i]
    {
      if i < |a| {
        assert (a + b)[..i + 1] == a[..i + 1];
      } else {
        assert (a + b)[..i + 1] == a + b[..i - |a| + 1];
        assert wire + (a + b[..i - |a| + 1]) == (wire + a) + b[..i - |a| + 1];
      }
    }
  }

  lemma NoResponses(slave: seq<Byte> -> Byte, wire: seq<Byte>)
    ensures Responses(slave, wire, Repeat<Byte>(0xff, 0)) == []
  {
  }

  /** The chip: every byte written is clocked out and one byte is clocked in for it, waiting to be read;
      a zero-length packet ends the chip-select frame. */
  class Chip {
    const slave: seq<Byte> -> Byte
    var ioMode: nat
    var wire: seq<Byte>
    var pending: seq<Byte>
    var frames: seq<seq<Byte>>

    constructor (slave: seq<Byte> -> Byte, ioMode: nat)
      ensures this.slave == slave && this.ioMode == ioMode && wire == pending == [] && frames == []
    {
      this.slave, this.ioMode, wire, pending, frames := slave, ioMode, [], [], [];
    }

    method Write(bytes: seq<Byte>)
      modifies this`wire, this`pending
      ensures wire == old(wire) + bytes && pending == old(pending) + Responses(slave, old(wire), bytes)
    {
      pending := pending + Responses(slave, wire, bytes);
      wire := wire + bytes;
    }

    /** Reading more than was clocked in would never return. */
    method Read(n: nat) returns (bytes: seq<Byte>)
      requires n <= |pending|
      modifies this`pending
      ensures bytes == old(pending)[..n] && pending == old(pending)[n..]
    {
      bytes, pending := pending[..n], pending[n..];
    }

    method End()
      modifies this`wire, this`frames
      ensures wire == [] && frames == old(frames) + [old(wire)]
    {
      frames, wire := frames + [wire], [];
    }

    method SetIoMode(mode: nat)
      modifies this`ioMode
      ensures ioMode == mode
    {
      ioMode := mode;
    }
  }

  function Header(op: MemOp): (r: seq<Byte>)
    ensures op.cmd.len == 1 ==> |r| == 1 + op.addr.len + op.dummy.len
  {
    (if op.cmd.len > 0 then [ByteOf(op.opcode, 0)] else []) + BigEndian(op.addrVal, op.addr.len)
      + Repeat<Byte>(0xff, op.dummy.len)
  }

  function Payload(op: MemOp): seq<Byte> { if op.dir.In? then Repeat<Byte>(0xff, op.data.len) else op.tx }

  /** The one meaning of an operation on the wire. */
  function Wire(op: MemOp): seq<Byte> { Header(op) + Payload(op) }

  /** The address bytes, from the highest down. */
  method FillAddress(scratch: array<Byte>, at: nat, val: nat, len: nat)
    requires at + len <= scratch.Length
    modifies scratch
    ensures scratch[at..at + len] == BigEndian(val, len)
    ensures forall k | 0 <= k < scratch.Length && !(at <= k < at + len) :: scratch[k] == old(scratch[k])
  {
    hide Pow256, ByteOf;
    for i := 0 to len
      invariant forall k | 0 <= k < i :: scratch[at + k] == BigEndian(val, len)[k]
      invariant forall k | 0 <= k < scratch.Length && !(at <= k < at + i) :: scratch[k] == old(scratch[k])
    {
      scratch[at + i] := ByteOf(val, len - i - 1);
    }
  }

  /** Writes opcode, address and dummy bytes behind the multi-I/O command area of the scratch buffer. */
  method FillHeader(scratch: array<Byte>, op: MemOp) returns (end: nat)
    requires op.Valid() && op.cmd.len == 1 && scratch.Length == BUF_LEN
    modifies scratch
    ensures end == CMD_LEN + |Header(op)| <= CMD_LEN + XFER_MAX_LEN && scratch[CMD_LEN..end] == Header(op)
  {
    hide BigEndian, ByteOf, Repeat;
    var opcode := [ByteOf(op.opcode, 0)];
    var dummies := Repeat<Byte>(0xff, op.dummy.len);
    var a, d := CMD_LEN + 1, CMD_LEN + 1 + op.addr.len;
    Copy(scratch, CMD_LEN, opcode);
    assert scratch[CMD_LEN..a] == opcode;
    ghost var s1 := scratch[..];
    FillAddress(scratch, a, op.addrVal, op.addr.len);
    ghost var s2 := scratch[..];
    SameSlice(s1, s2, CMD_LEN, a);
    Copy(scratch, d, dummies);
    end := d + op.dummy.len;
    ghost var s3 := scratch[..];
    SameSlice(s2, s3, CMD_LEN, a);
    SameSlice(s2, s3, a, d);
    ThreeSlices(s3, CMD_LEN, a, d, end);
  }

  lemma ThreeSlices(s: seq<Byte>, i: nat, j: nat, k: nat, l: nat)
    requires i <= j <= k <= l <= |s|
    ensures s[i..l] == s[i..j] + s[j..k] + s[k..l]
  {
  }

  lemma SameSlice(s: seq<Byte>, t: seq<Byte>, lo: nat, hi: nat)
    requires |s| == |t| && lo <= hi <= |s| && forall k | lo <= k < hi :: s[k] == t[k]
    ensures s[lo..hi] == t[lo..hi]
  {
  }

  class Ft4222 {
    const chip: Chip
    const scratch: array<Byte>
    /** spim.mode, the cached I/O mode */
    var mode: nat

    constructor (chip: Chip, mode: nat)
      ensures this.chip == chip && this.mode == mode && scratch.Length == BUF_LEN && fresh(scratch)
    {
      this.chip, this.mode := chip, mode;
      scratch := new Byte[BUF_LEN];
    }

    /** The cached mode is the chip's, and nothing is left over from earlier operations. */
    ghost predicate Quiet()
      reads this, chip
    {
      scratch.Length == BUF_LEN && mode == chip.ioMode && chip.pending == [] && chip.wire == []
    }

    /** ft4222_spi_set_io_mode without force */
    method SetIoMode(m: nat)
      modifies this`mode, chip`ioMode
      ensures old(mode == chip.ioMode) ==> mode == chip.ioMode == m
    {
      if mode == m {
        return;
      }
      chip.SetIoMode(m);
      mode := m;
    }

    /** One write, then the bytes clocked in for the header are discarded and the rest is kept. */
    method OneShot(op: MemOp, sioWr: nat, sioRd: nat) returns (rx: seq<Byte>)
      requires Quiet() && op.Valid() && op.cmd.len == 1
      requires sioWr + sioRd <= XFER_MAX_LEN && |Header(op)| <= sioWr
      requires if op.dir.In? then sioWr == |Header(op)| && sioRd == op.data.len
               else sioRd == 0 && sioWr == |Header(op)| + op.data.len
      requires scratch[CMD_LEN..CMD_LEN + sioWr] + Repeat<Byte>(0xff, sioRd) == Wire(op)
      modifies chip, scratch
      ensures scratch.Length == BUF_LEN && chip.ioMode == old(chip.ioMode) && chip.frames == old(chip.frames)
      ensures chip.wire == Wire(op) && chip.pending == []
      ensures rx == if op.dir.In? then Responses(chip.slave, Header(op), Payload(op)) else []
    {
      hide Header, Responses;
      rx := [];
      if sioRd > 0 {
        Copy(scratch, CMD_LEN + sioWr, Repeat<Byte>(0xff, sioRd));
      }
      var all := scratch[CMD_LEN..CMD_LEN + sioWr + sioRd];
      assert all == scratch[CMD_LEN..CMD_LEN + sioWr] + scratch[CMD_LEN + sioWr..CMD_LEN + sioWr + sioRd];
      assert all == Wire(op);
      chip.Write(all);
      assert [] + all == all;
      ResponsesAppend(chip.slave, [], Header(op), Payload(op));
      assert [] + Header(op) == Header(op);
      var discarded := chip.Read(sioWr);
      Copy(scratch, 0, discarded);
      if sioRd > 0 {
        rx := chip.Read(sioRd);
      } else {
        assert |Payload(op)| == 0 || op.dir.Out?;
      }
    }

    /** The header first, then data in pieces of the largest transfer. */
    method Chunked(op: MemOp, sioWr: nat) returns (rx: seq<Byte>)
      requires Quiet() && op.Valid() && op.cmd.len == 1
      requires sioWr == |Header(op)| <= XFER_MAX_LEN && scratch[CMD_LEN..CMD_LEN + sioWr] == Header(op)
      modifies chip, scratch
      ensures scratch.Length == BUF_LEN && chip.ioMode == old(chip.ioMode) && chip.frames == old(chip.frames)
      ensures chip.wire == Wire(op) && chip.pending == []
      ensures rx == if op.dir.In? then Responses(chip.slave, Header(op), Payload(op)) else []
    {
      hide Header, Responses;
      chip.Write(scratch[CMD_LEN..CMD_LEN + sioWr]);
      assert [] + Header(op) == Header(op);
      var discarded := chip.Read(sioWr);
      Copy(scratch, 0, discarded);
      if op.dir.In? {
        rx := ChunkedIn(op.data.len);
      } else {
        rx := [];
        ChunkedOut(op.tx);
      }
    }

    method ChunkedIn(total: nat) returns (rx: seq<Byte>)
      requires scratch.Length == BUF_LEN && chip.pending == []
      modifies chip, scratch
      ensures chip.ioMode == old(chip.ioMode) && chip.frames == old(chip.frames) && chip.pending == []
      ensures chip.wire == old(chip.wire) + Repeat<Byte>(0xff, total)
      ensures rx == Responses(chip.slave, old(chip.wire), Repeat<Byte>(0xff, total))
    {
      hide Responses;
      ghost var wire0 := chip.wire;
      var first := if total > XFER_MAX_LEN then XFER_MAX_LEN else total;
      Copy(scratch, 0, Repeat<Byte>(0xff, first));
      rx := [];
      var len := total;
      assert wire0 + Repeat<Byte>(0xff, 0) == wire0;
      NoResponses(chip.slave, wire0);
      while len > 0
        invariant 0 <= len <= total && scratch.Length == BUF_LEN && scratch[..first] == Repeat<Byte>(0xff, first)
        invariant chip.ioMode == old(chip.ioMode) && chip.frames == old(chip.frames) && chip.pending == []
        invariant chip.wire == wire0 + Repeat<Byte>(0xff, total - len)
        invariant rx == Responses(chip.slave, wire0, Repeat<Byte>(0xff, total - len))
      {
        var chksz := if len > XFER_MAX_LEN then XFER_MAX_LEN else len;
        assert scratch[..chksz] == scratch[..first][..chksz] == Repeat<Byte>(0xff, chksz);
        chip.Write(scratch[..chksz]);
        var piece := chip.Read(chksz);
        ResponsesAppend(chip.slave, wire0, Repeat<Byte>(0xff, total - len), Repeat<Byte>(0xff, chksz));
        RepeatAppend<Byte>(0xff, total - len, chksz);
        assert (wire0 + Repeat<Byte>(0xff, total - len)) + Repeat<Byte>(0xff, chksz)
            == wire0 + (Repeat<Byte>(0xff, total - len) + Repeat<Byte>(0xff, chksz));
        rx := rx + piece;
        len := len - chksz;
      }
    }

    method ChunkedOut(tx: seq<Byte>)
      requires scratch.Length == BUF_LEN && chip.pending == []
      modifies chip, scratch
      ensures chip.ioMode == old(chip.ioMode) && chip.frames == old(chip.frames) && chip.pending == []
      ensures chip.wire == old(chip.wire) + tx
    {
      hide Responses;
      ghost var wire0 := chip.wire;
      var len := |tx|;
      assert wire0 + tx[..0] == wire0;
      while len > 0
        invariant 0 <= len <= |tx|
        invariant chip.ioMode == old(chip.ioMode) && chip.frames == old(chip.frames) && chip.pending == []
        invariant chip.wire == wire0 + tx[..|tx| - len]
      {
        var done := |tx| - len;
        var chksz := if len > XFER_MAX_LEN then XFER_MAX_LEN else len;
        chip.Write(tx[done..done + chksz]);
        var discarded := chip.Read(chksz);
        Copy(scratch, 0, discarded);
        assert (wire0 + tx[..done]) + tx[done..done + chksz] == wire0 + tx[..done + chksz];
        len := len - chksz;
      }
      assert tx[..|tx|] == tx;
    }

    /** ufprog_spi_mem_exec_op for a single-I/O operation with a one-byte command, with no transfer failing. */
    method Exec(op: MemOp) returns (rx: seq<Byte>)
      requires Quiet() && op.Valid() && SingleIo(op) && SupportsOp(op) && op.cmd.len == 1
      modifies this`mode, chip, scratch
      ensures Quiet() && mode == 1
      ensures chip.frames == old(chip.frames) + [Wire(op)]
      ensures rx == if op.dir.In? then Responses(chip.slave, Header(op), Payload(op)) else []
    {
      hide Header, SupportsOp;
      SingleIoSupportedIff(op);
      rx := [];
      var end := FillHeader(scratch, op);
      var sioWr := op.cmd.len + op.addr.len + op.dummy.len;
      var sioRd := 0;
      var once := false;
      if op.data.len > 0 {
        if op.dir.In? {
          sioRd := op.data.len;
          if sioWr + sioRd <= XFER_MAX_LEN - sioWr {
            once := true;
          }
        } else if op.data.len <= XFER_MAX_LEN - sioWr {
          Copy(scratch, end, op.tx);
          assert scratch[CMD_LEN..end + |op.tx|] == scratch[CMD_LEN..end] + op.tx;
          sioWr := sioWr + op.data.len;
          once := true;
        }
      } else {
        once := true;
      }
      SetIoMode(1);
      if once {
        assert scratch[CMD_LEN..CMD_LEN + sioWr] + Repeat<Byte>(0xff, sioRd) == Wire(op);
        rx := OneShot(op, sioWr, sioRd);
      } else {
        rx := Chunked(op, sioWr);
      }
      chip.End();
    }
  }
}
