/** SPI operations over a serial line in the serprog protocol: a request gives two 24-bit lengths and the bytes to send,
    the programmer answers with an acknowledgement and the bytes received. */
module SerprogSpi {
  import opened Memory
  import opened SpiApi
  import opened Wrappers

  const MAX_BUFFER_SIZE := 0xff_ffff
  const SPIOP: Byte := 0x13
  const ACK: Byte := 0x06
  const HEADER := 7
  const LIMIT24 := 0x100_0000
  const WORD64 := 0x1_0000_0000_0000_0000

  /** What the programmer reports and the configuration allows; zero means no report. */
  datatype Limits = Limits(maxWriteN: nat, bufferSize: nat) {
    /** Opening the device caps the buffer size. */
    predicate Valid() { bufferSize <= MAX_BUFFER_SIZE }

    function Max(): nat { if maxWriteN == 0 || maxWriteN > bufferSize then bufferSize else maxWriteN }
  }

  function HeaderLen(op: MemOp): nat { op.cmd.len + op.addr.len + op.dummy.len }

  predicate OneLine(p: Part) { p.len > 0 ==> p.width == 1 && !p.dtr }

  /** ufprog_spi_mem_supports_op */
  predicate SupportsOp(lim: Limits, op: MemOp) {
    && OneLine(op.cmd) && OneLine(op.addr) && OneLine(op.dummy) && OneLine(op.data)
    && (op.dir.Out? && op.data.len > 0 ==> HeaderLen(op) < lim.Max())
  }

  /** ufprog_spi_mem_adjust_op_size, whose subtraction of lengths wraps. */
  function AdjustedLen(lim: Limits, op: MemOp): nat {
    var n := if op.dir.Out? then HeaderLen(op) else 0;
    var room := (lim.Max() - n) % WORD64;
    if op.data.len > room then room else op.data.len
  }

  function Adjust(lim: Limits, op: MemOp): (r: MemOp)
    requires op.Valid() && op.data.len < WORD64
    ensures r.Valid()
  {
    var n := AdjustedLen(lim, op);
    op.(data := op.data.(len := n), tx := if op.dir.Out? then op.tx[..n] else op.tx)
  }

  function SentLen(op: MemOp): nat { HeaderLen(op) + if op.dir.Out? then op.data.len else 0 }

  function ReceivedLen(op: MemOp): nat { if op.dir.In? then op.data.len else 0 }

  predicate FitsHeader(op: MemOp) { SentLen(op) < LIMIT24 && ReceivedLen(op) < LIMIT24 }

  /** The bytes a request may carry: the reported number if there is one and it fits the buffer, else the buffer size. */
  function Room(lim: Limits): nat { if 0 < lim.maxWriteN <= lim.bufferSize then lim.maxWriteN else lim.bufferSize }

  predicate SingleLine(p: Part) { p.len == 0 || (p.width == 1 && !p.dtr) }

  /** An operation is supported if and only if every part it has uses one line at single rate and, if it sends data,
      the adjustment leaves some of it and all that is sent then fits. */
  lemma SupportsIff(lim: Limits, op: MemOp)
    requires lim.Valid() && op.Valid() && op.data.len < 0x1_0000_0000_0000_0000
    ensures SupportsOp(lim, op) <==>
      && SingleLine(op.cmd) && SingleLine(op.addr) && SingleLine(op.dummy) && SingleLine(op.data)
      && (op.dir.Out? && op.data.len > 0 ==> 0 < Adjust(lim, op).data.len && SentLen(Adjust(lim, op)) <= Room(lim))
  {
    hide MemOp.Valid;
    AdjustedIs(lim, op);
  }

  /** What is left of the data: the room behind what is sent in front of it. Where that alone is too much the subtraction
      of 64-bit lengths wraps, and hardly any data is too long. */
  lemma AdjustedIs(lim: Limits, op: MemOp)
    requires lim.Valid() && op.Valid()
    ensures var n := if op.dir.Out? then op.cmd.len + op.addr.len + op.dummy.len else 0;
      var room := if n <= Room(lim) then Room(lim) - n else 0x1_0000_0000_0000_0000 + Room(lim) - n;
      AdjustedLen(lim, op) == if op.data.len <= room then op.data.len else room
  {
    var n := if op.dir.Out? then HeaderLen(op) else 0;
    assert n < 0x1000;
    if n <= lim.Max() {
      SmallRemainder(lim.Max() - n);
    } else {
      WrappedRemainder(n - lim.Max());
    }
  }

  lemma SmallRemainder(x: nat)
    requires x < 0x100_0000
    ensures x % WORD64 == x
  {
  }

  lemma WrappedRemainder(x: nat)
    requires 0 < x < 0x1000
    ensures (0 - x) % WORD64 == 0x1_0000_0000_0000_0000 - x
  {
  }

  /** After adjustment the true lengths of a supported operation fit the header, what is left of the data is
      a prefix of it, and something is left if and only if there is data and a buffer. */
  lemma AdjustedFits(lim: Limits, op: MemOp)
    requires lim.Valid() && op.Valid() && op.data.len < WORD64 && SupportsOp(lim, op)
    ensures FitsHeader(Adjust(lim, op)) && SupportsOp(lim, Adjust(lim, op))
    ensures Adjust(lim, op).data.len <= op.data.len && (op.dir.Out? ==> Adjust(lim, op).tx <= op.tx)
    ensures Adjust(lim, op).data.len > 0 <==> op.data.len > 0 && lim.bufferSize > 0
    ensures Adjust(lim, op).data.len < op.data.len ==>
              Adjust(lim, op).data.len + (if op.dir.Out? then op.cmd.len + op.addr.len + op.dummy.len else 0)
                == Room(lim)
    ensures Adjust(lim, op) == op.(data := Adjust(lim, op).data, tx := Adjust(lim, op).tx)
    ensures Adjust(lim, op).data == op.data.(len := Adjust(lim, op).data.len)
    ensures Adjust(lim, op).data.len == op.data.len ==> Adjust(lim, op) == op
  {
    hide AdjustedLen;
    AdjustedIs(lim, op);
    assert op.dir.Out? ==> op.tx[..op.data.len] == op.tx;
  }

  // ---- the request on the line ----

  /** An operation as the programmer is to perform it. */
  datatype Request = Request(mosi: seq<Byte>, nin: nat)

  function Mosi(op: MemOp): (r: seq<Byte>)
    requires op.Valid()
    ensures |r| == SentLen(op)
  {
    LittleEndian(op.opcode, op.cmd.len) + BigEndian(op.addrVal, op.addr.len) + Repeat<Byte>(0xff, op.dummy.len)
      + if op.dir.Out? then op.tx else []
  }

  function RequestOf(op: MemOp): Request
    requires op.Valid()
  {
    Request(Mosi(op), ReceivedLen(op))
  }

  /** The bytes sent for an operation; the lengths lose what does not fit 24 bits. */
  function Frame(op: MemOp): (r: seq<Byte>)
    requires op.Valid()
    ensures |r| == HEADER + SentLen(op)
  {
    [SPIOP] + LittleEndian(SentLen(op), 3) + LittleEndian(ReceivedLen(op), 3) + Mosi(op)
  }

  /** What stands where in a request: the operation code of the protocol, two lengths of three bytes, lowest byte first,
      the opcode lowest byte first, the address highest byte first, dummy bytes of ones, and the data to send. */
  lemma FrameBytes(op: MemOp)
    requires op.Valid()
    ensures var f := Frame(op);
      var a := 7 + op.cmd.len;
      var d := a + op.addr.len;
      var t := d + op.dummy.len;
      var nout, nin := t - 7 + (if op.dir.Out? then op.data.len else 0), if op.dir.In? then op.data.len else 0;
      && |f| == 7 + nout && f[0] == 0x13
      && f[1..4] == [nout % 0x100, nout / 0x100 % 0x100, nout / 0x1_0000 % 0x100]
      && f[4..7] == [nin % 0x100, nin / 0x100 % 0x100, nin / 0x1_0000 % 0x100]
      && LittleValue(f[7..a]) == op.opcode % Pow256(op.cmd.len)
      && BigValue(f[a..d]) == op.addrVal % Pow256(op.addr.len)
      && (forall b | b in f[d..t] :: b == 0xff)
      && f[t..] == if op.dir.Out? then op.tx else []
  {
    LengthBytes(SentLen(op));
    LengthBytes(ReceivedLen(op));
    LittleEndianValue(op.opcode, op.cmd.len);
    BigEndianValue(op.addrVal, op.addr.len);
    hide LittleEndian, BigEndian, LittleValue, BigValue, Pow256;
    var head := [SPIOP] + LittleEndian(SentLen(op), 3) + LittleEndian(ReceivedLen(op), 3);
    var c, d, u := LittleEndian(op.opcode, op.cmd.len), BigEndian(op.addrVal, op.addr.len), Repeat<Byte>(0xff, op.dummy.len);
    FivePieces(head, c, d, u, if op.dir.Out? then op.tx else []);
    assert head[1..4] == LittleEndian(SentLen(op), 3) && head[4..7] == LittleEndian(ReceivedLen(op), 3);
  }

  lemma FivePieces(a: seq<Byte>, b: seq<Byte>, c: seq<Byte>, d: seq<Byte>, e: seq<Byte>)
    ensures var f := a + (b + c + d + e);
      var i := |a| + |b|;
      var j := i + |c|;
      var k := j + |d|;
      f[..|a|] == a && f[|a|..i] == b && f[i..j] == c && f[j..k] == d && f[k..] == e
  {
    var m := b + c + d + e;
    FourPieces(b, c, d, e);
    Slice(a, m, 0, |b|);
    Slice(a, m, |b|, |b| + |c|);
    Slice(a, m, |b| + |c|, |b| + |c| + |d|);
    Slice(a, m, |b| + |c| + |d|, |m|);
  }

  lemma FourPieces(b: seq<Byte>, c: seq<Byte>, d: seq<Byte>, e: seq<Byte>)
    ensures var m := b + c + d + e;
      var j := |b| + |c|;
      var k := j + |d|;
      m[0..|b|] == b && m[|b|..j] == c && m[j..k] == d && m[k..|m|] == e
  {
  }

  lemma Slice(s: seq<Byte>, t: seq<Byte>, i: nat, j: nat)
    requires i <= j <= |t|
    ensures (s + t)[|s| + i..|s| + j] == t[i..j]
  {
  }

  lemma LengthBytes(n: nat)
    ensures LittleEndian(n, 3) == [n % 0x100, n / 0x100 % 0x100, n / 0x1_0000 % 0x100]
  {
    assert Pow256(0) == 1 && Pow256(1) == 0x100 && Pow256(2) == 0x1_0000;
  }

  // ---- the programmer ----

  /** The first request of a byte stream and what follows it, once all of it is there. */
  function Take(stream: seq<Byte>): (r: Option<(Request, seq<Byte>)>)
    ensures r.Some? ==> |r.value.1| < |stream|
  {
    if |stream| < 7 || stream[0] != 0x13 then None
    else
      var nout := LittleValue(stream[1..4]);
      if |stream| < 7 + nout then None
      else Some((Request(stream[7..7 + nout], LittleValue(stream[4..7])), stream[7 + nout..]))
  }

  /** All requests of a byte stream, and the bytes of an unfinished one. */
  function Decode(stream: seq<Byte>): (seq<Request>, seq<Byte>)
    decreases |stream|
  {
    match Take(stream)
    case None => ([], stream)
    case Some(r) =>
      var rest := Decode(r.1);
      ([r.0] + rest.0, rest.1)
  }

  lemma Length24(n: nat)
    ensures LittleValue(LittleEndian(n, 3)) == n % LIMIT24
  {
    hide LittleValue, LittleEndian;
    var len: nat := 3;
    LittleEndianValue(n, len);
    assert Pow256(len) == LIMIT24;
  }

  /** The programmer takes a request back out of the stream if and only if its lengths fit 24 bits. */
  lemma TakeFrameIff(op: MemOp, rest: seq<Byte>)
    requires op.Valid()
    ensures Take(Frame(op) + rest) == Some((RequestOf(op), rest)) <==> FitsHeader(op)
  {
    hide LittleValue, LittleEndian, Mosi;
    var s := Frame(op) + rest;
    assert s[0] == SPIOP && s[1..4] == LittleEndian(SentLen(op), 3) && s[4..7] == LittleEndian(ReceivedLen(op), 3);
    Length24(SentLen(op));
    Length24(ReceivedLen(op));
    assert s[HEADER..] == Mosi(op) + rest;
    if FitsHeader(op) {
      assert s[HEADER..HEADER + SentLen(op)] == Mosi(op);
      assert s[HEADER + SentLen(op)..] == rest;
    }
  }

  function Stream(ops: seq<MemOp>): seq<Byte>
    requires forall op | op in ops :: op.Valid()
  {
    if ops == [] then [] else Frame(ops[0]) + Stream(ops[1..])
  }

  function Requests(ops: seq<MemOp>): (r: seq<Request>)
    requires forall op | op in ops :: op.Valid()
    ensures |r| == |ops|
  {
    seq(|ops|, i requires 0 <= i < |ops| => RequestOf(ops[i]))
  }

  /** Back-to-back requests decode to the original operations, in order, with nothing left over. */
  lemma {:induction false} StreamDecodes(ops: seq<MemOp>)
    requires forall op | op in ops :: op.Valid() && FitsHeader(op)
    ensures Decode(Stream(ops)) == (Requests(ops), [])
  {
    hide Take, Frame, RequestOf, FitsHeader, MemOp.Valid;
    if ops != [] {
      TakeFrameIff(ops[0], Stream(ops[1..]));
      StreamDecodes(ops[1..]);
      assert Requests(ops) == [RequestOf(ops[0])] + Requests(ops[1..]);
    } else {
      TakeNothing();
    }
  }

  lemma TakeNothing()
    ensures Take([]) == None
  {
  }

  lemma TakeAppend(s: seq<Byte>, t: seq<Byte>)
    requires Take(s).Some?
    ensures Take(s + t) == Some((Take(s).value.0, Take(s).value.1 + t))
  {
    hide LittleValue;
    assert (s + t)[1..4] == s[1..4] && (s + t)[4..7] == s[4..7];
    var nout := LittleValue(s[1..4]);
    assert (s + t)[HEADER..HEADER + nout] == s[HEADER..HEADER + nout];
    assert (s + t)[HEADER + nout..] == s[HEADER + nout..] + t;
  }

  /** More bytes only add requests behind those already complete. */
  lemma {:induction false} DecodeAppend(s: seq<Byte>, t: seq<Byte>)
    requires Decode(s).1 == []
    ensures Decode(s + t) == (Decode(s).0 + Decode(t).0, Decode(t).1)
    decreases |s|
  {
    hide Take;
    if s == [] {
      TakeNothing();
      assert s + t == t && Decode(s).0 + Decode(t).0 == Decode(t).0;
    } else {
      var r := Take(s).value;
      TakeAppend(s, t);
      DecodeAppend(r.1, t);
      assert ([r.0] + Decode(r.1).0) + Decode(t).0 == [r.0] + (Decode(r.1).0 + Decode(t).0);
    }
  }

  /** The programmer answers a request, given all before it, with one byte and, if that is an acknowledgement,
      the bytes received. */
  ghost predicate Behaved(reply: seq<Request> -> seq<Byte>) {
    forall rs: seq<Request> | rs != [] ::
      reply(rs) == [0x15] || (|reply(rs)| == 1 + rs[|rs| - 1].nin && reply(rs)[0] == 0x06)
  }

  function Replies(reply: seq<Request> -> seq<Byte>, rs: seq<Request>): seq<Byte> {
    if rs == [] then [] else Replies(reply, rs[..|rs| - 1]) + reply(rs)
  }

  datatype Status = Ok | Timeout | IoError

  class Port {
    const reply: seq<Request> -> seq<Byte>
    var sent: seq<Byte>
    /** Bytes of the programmer's answers read so far. */
    var consumed: nat

    constructor (reply: seq<Request> -> seq<Byte>)
      ensures this.reply == reply && sent == [] && consumed == 0
    {
      this.reply, sent, consumed := reply, [], 0;
    }

    function Answers(): seq<Byte>
      reads this
    {
      Replies(reply, Decode(sent).0)
    }

    /** Every request is complete and every answer read. */
    predicate InStep()
      reads this
    {
      Decode(sent).1 == [] && consumed == |Answers()|
    }

    method Write(bytes: seq<Byte>)
      modifies this`sent
      ensures sent == old(sent) + bytes
    {
      sent := sent + bytes;
    }

    /** A read that finds too few bytes times out. */
    method Read(n: nat) returns (r: Option<seq<Byte>>)
      requires consumed <= |Answers()|
      modifies this`consumed
      ensures if old(consumed) + n <= |Answers()|
              then r == Some(Answers()[old(consumed)..old(consumed) + n]) && consumed == old(consumed) + n
              else r == None && consumed == |Answers()|
    {
      if consumed + n <= |Answers()| {
        r := Some(Answers()[consumed..consumed + n]);
        consumed := consumed + n;
      } else {
        r := None;
        consumed := |Answers()|;
      }
    }
  }

  class Serprog {
    const port: Port
    /** The 256-byte buffer on the stack. */
    const buf: array<Byte>

    constructor (port: Port)
      ensures this.port == port && buf.Length == 0x100 && fresh(buf)
    {
      this.port := port;
      buf := new Byte[0x100];
    }

    /** The seven bytes in front of a request. */
    method WriteHeader(nout: nat, nin: nat)
      requires buf.Length == 0x100
      modifies buf, port`sent
      ensures port.sent == old(port.sent) + ([SPIOP] + LittleEndian(nout, 3) + LittleEndian(nin, 3))
    {
      hide ByteOf;
      buf[0] := SPIOP;
      var len: nat := 3;
      Copy(buf, 1, LittleEndian(nout, len));
      Copy(buf, 4, LittleEndian(nin, len));
      assert buf[..7] == [buf[0]] + buf[1..4] + buf[4..7];
      port.Write(buf[..7]);
    }

    method WriteOpcode(op: MemOp)
      requires op.Valid() && buf.Length == 0x100
      modifies buf, port`sent
      ensures port.sent == old(port.sent) + LittleEndian(op.opcode, op.cmd.len)
    {
      hide ByteOf;
      if op.cmd.len > 0 {
        for i := 0 to op.cmd.len
          invariant port.sent == old(port.sent) && forall k | 0 <= k < i :: buf[k] == ByteOf(op.opcode, k)
        {
          buf[i] := ByteOf(op.opcode, i);
        }
        assert buf[..op.cmd.len] == LittleEndian(op.opcode, op.cmd.len);
        port.Write(buf[..op.cmd.len]);
      }
    }

    method WriteAddress(op: MemOp)
      requires op.Valid() && buf.Length == 0x100
      modifies buf, port`sent
      ensures port.sent == old(port.sent) + BigEndian(op.addrVal, op.addr.len)
    {
      hide ByteOf;
      if op.addr.len > 0 {
        for i := 0 to op.addr.len
          invariant port.sent == old(port.sent) && forall k | 0 <= k < i :: buf[k] == ByteOf(op.addrVal, op.addr.len - k - 1)
        {
          buf[i] := ByteOf(op.addrVal, op.addr.len - i - 1);
        }
        assert buf[..op.addr.len] == BigEndian(op.addrVal, op.addr.len);
        port.Write(buf[..op.addr.len]);
      }
    }

    /** All that is written for an operation: the request. */
    method SendRequest(op: MemOp)
      requires op.Valid() && buf.Length == 0x100
      modifies buf, port`sent
      ensures port.sent == old(port.sent) + Frame(op)
    {
      hide LittleEndian, BigEndian;
      ghost var sent0 := port.sent;
      WriteHeader(SentLen(op), ReceivedLen(op));
      WriteOpcode(op);
      WriteAddress(op);
      if op.dummy.len > 0 {
        Copy(buf, 0, Repeat<Byte>(0xff, op.dummy.len));
        port.Write(buf[..op.dummy.len]);
      }
      if op.dir.Out? && op.data.len > 0 {
        port.Write(op.tx);
      }
      assert port.sent == sent0 + Frame(op);
    }

    /** ufprog_spi_mem_exec_op: the programmer performs exactly the operation asked for, the caller gets the bytes
        it received, and host and programmer stay in step. */
    method Exec(op: MemOp) returns (status: Status, rx: seq<Byte>)
      requires op.Valid() && FitsHeader(op) && buf.Length == 0x100
      requires port.InStep() && Behaved(port.reply)
      modifies buf, port
      ensures port.InStep()
      ensures Decode(port.sent).0 == old(Decode(port.sent).0) + [RequestOf(op)]
      ensures var answer := port.reply(Decode(port.sent).0);
        if answer[0] == 0x06 then status.Ok? && rx == answer[1..] && |rx| == ReceivedLen(op) else status.IoError? && rx == []
    {
      hide Frame, FitsHeader, Decode, Replies, Mosi;
      RequestAnswered(port.reply, port.sent, op);
      SendRequest(op);
      rx := [];
      var resp := port.Read(1);
      if resp.None? {
        return Timeout, rx;
      }
      if resp.value[0] != ACK {
        return IoError, rx;
      }
      if op.dir.In? && op.data.len > 0 {
        var data := port.Read(op.data.len);
        if data.None? {
          return Timeout, rx;
        }
        rx := data.value;
      }
      status := Ok;
    }
  }

  lemma FrameDecodes(op: MemOp)
    requires op.Valid() && FitsHeader(op)
    ensures Decode(Frame(op)) == ([RequestOf(op)], [])
  {
    hide Take, Frame, RequestOf, FitsHeader;
    var none: seq<Byte> := [];
    TakeFrameIff(op, none);
    assert Frame(op) + none == Frame(op);
    TakeNothing();
    assert [RequestOf(op)] + Decode(none).0 == [RequestOf(op)];
  }

  /** A further request adds itself and its answer. */
  lemma RequestAnswered(reply: seq<Request> -> seq<Byte>, sent: seq<Byte>, op: MemOp)
    requires op.Valid() && FitsHeader(op) && Decode(sent).1 == []
    ensures var rs := Decode(sent).0 + [RequestOf(op)];
      Decode(sent + Frame(op)) == (rs, []) && Replies(reply, rs) == Replies(reply, Decode(sent).0) + reply(rs)
  {
    hide Frame, Decode, FitsHeader, Mosi;
    FrameDecodes(op);
    DecodeAppend(sent, Frame(op));
    var rs := Decode(sent).0 + [RequestOf(op)];
    assert rs[..|rs| - 1] == Decode(sent).0;
  }
}
