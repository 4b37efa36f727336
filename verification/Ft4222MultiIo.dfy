/** The FT4222H operation executor in multi-I/O mode: a five-byte command with the numbers of bytes to send on one line,
    to send on several lines and to receive, sent at once or in buckets to older chips. */
module Ft4222MultiIo {
  import opened Ft4222Spi
  import opened Memory
  import opened SpiApi
  import opened Wrappers

  const LIMIT16 := 0x1_0000

  /** A byte and the number of lines it is sent on. */
  datatype Lane = Lane(lines: nat, byte: Byte)

  function OnLines(lines: nat, bytes: seq<Byte>): (r: seq<Lane>)
    ensures |r| == |bytes|
  {
    seq(|bytes|, i requires 0 <= i < |bytes| => Lane(lines, bytes[i]))
  }

  /** What the chip is to do on the bus: send bytes, then receive on so many lines. */
  datatype Request = Request(sent: seq<Lane>, lines: nat, nread: nat)

  function AddressBytes(op: MemOp): (r: seq<Byte>)
    ensures |r| == op.addr.len
  {
    BigEndian(op.addrVal, op.addr.len)
  }

  /** The operation itself: every part on the lines it asks for. */
  function RequestOf(op: MemOp): Request
    requires op.Valid()
  {
    Request(OnLines(op.cmd.width, [ByteOf(op.opcode, 0)]) + OnLines(op.addr.width, AddressBytes(op))
              + OnLines(op.dummy.width, Repeat<Byte>(0xff, op.dummy.len))
              + (if op.dir.Out? then OnLines(op.data.width, op.tx) else []),
            LastWidth(op), if op.dir.In? then op.data.len else 0)
  }

  /** The lines of the last part present. */
  function LastWidth(op: MemOp): nat {
    if op.data.len > 0 then op.data.width
    else if op.dummy.len > 0 then op.dummy.width
    else if op.addr.len > 0 then op.addr.width
    else op.cmd.width
  }

  function Single(p: Part): nat { if p.width > 1 then 0 else p.len }

  function Multi(p: Part): nat { if p.width > 1 then p.len else 0 }

  /** The lengths the executor counts. */
  function SingleLen(op: MemOp): nat {
    Single(op.cmd) + Single(op.addr) + Single(op.dummy)
  }

  function MultiLen(op: MemOp): nat {
    Multi(op.cmd) + Multi(op.addr) + Multi(op.dummy) + if op.dir.Out? then Multi(op.data) else 0
  }

  function ReadLen(op: MemOp): nat { if op.dir.In? then Multi(op.data) else 0 }

  /** Parts on one line come first, and all others use the same lines. */
  predicate Ordered(op: MemOp) {
    var w := LastWidth(op);
    && w > 1 && Step(op.cmd, w) && Step(op.addr, w) && Step(op.dummy, w) && Step(op.data, w)
    && (Multi(op.cmd) > 0 ==> Single(op.addr) + Single(op.dummy) + Single(op.data) == 0)
    && (Multi(op.addr) > 0 ==> Single(op.dummy) + Single(op.data) == 0)
    && (Multi(op.dummy) > 0 ==> Single(op.data) == 0)
  }

  predicate Step(p: Part, w: nat) { p.len > 0 ==> p.width == 1 || p.width == w }

  /** A multi-I/O operation the check means to accept has its parts in order, and few enough bytes on one line
      for the command. */
  lemma SupportedIsOrdered(op: MemOp)
    requires Intended(op) && LastWidth(op) > 1
    ensures Ordered(op) && SingleLen(op) <= SIO_WR_MAX_LEN
  {
  }

  /** The lengths fit the fields of the command. */
  predicate FitsCommand(op: MemOp) { SingleLen(op) < 0x10 && MultiLen(op) < LIMIT16 && ReadLen(op) < LIMIT16 }

  /** After the size adjustment an operation the check means to accept fits the command if and only if the data to send
      leaves room for the command, address and dummy bytes that go out on several lines. */
  lemma AdjustedFitsIff(op: MemOp)
    requires op.Valid() && Intended(Adjust(op)) && LastWidth(Adjust(op)) > 1
    ensures FitsCommand(Adjust(op)) <==>
      op.dir.In? || Multi(op.cmd) + Multi(op.addr) + Multi(op.dummy) + Adjust(op).data.len < LIMIT16
  {
    SupportedIsOrdered(Adjust(op));
  }

  /** A write with three address bytes on four lines and as much data as the adjustment leaves. */
  function QuadWrite(tx: seq<Byte>): MemOp {
    MemOp(Part(1, 1, false), 0x38, Part(3, 4, false), 0, Part(0, 0, false), Part(|tx|, 4, false), Out, tx)
  }

  lemma QuadWriteTooLong(tx: seq<Byte>)
    requires |tx| >= LIMIT16
    ensures QuadWrite(tx).Valid()
    ensures var op := Adjust(QuadWrite(tx)); Intended(op) && SupportsOp(op) && MultiLen(op) == 0x1_0002 && !FitsCommand(op)
  {
    AdjustedFitsIff(QuadWrite(tx));
    CheckRightIff(Adjust(QuadWrite(tx)));
  }

  // ---- the command ----

  function Bytes(op: MemOp): (r: seq<Byte>)
    requires op.Valid() && op.cmd.len == 1
    ensures |r| == 1 + op.addr.len + op.dummy.len + if op.dir.Out? then op.data.len else 0
  {
    Header(op) + if op.dir.Out? then op.tx else []
  }

  function Command(op: MemOp): (r: seq<Byte>)
    ensures |r| == CMD_LEN
  {
    [SingleLen(op) % 0x10 + 0x80, MultiLen(op) / 0x100 % 0x100, MultiLen(op) % 0x100,
     ReadLen(op) / 0x100 % 0x100, ReadLen(op) % 0x100]
  }

  function Frame(op: MemOp): (r: seq<Byte>)
    requires op.Valid() && op.cmd.len == 1
  {
    Command(op) + Bytes(op)
  }

  function Word(high: nat, low: nat): nat { 0x100 * high + low }

  /** How the chip reads a command: the request once all its bytes are there, and what follows it. */
  function Take(lines: nat, stream: seq<Byte>): (r: Option<(Request, seq<Byte>)>) {
    if |stream| < CMD_LEN || stream[0] < 0x80 then None
    else
      var single, multi := stream[0] % 0x10, Word(stream[1], stream[2]);
      if |stream| < CMD_LEN + single + multi then None
      else
        var sent := OnLines(1, stream[CMD_LEN..CMD_LEN + single])
                    + OnLines(lines, stream[CMD_LEN + single..CMD_LEN + single + multi]);
        Some((Request(sent, lines, Word(stream[3], stream[4])), stream[CMD_LEN + single + multi..]))
  }

  lemma WordBack(n: nat)
    ensures Word(n / 0x100 % 0x100, n % 0x100) == n % LIMIT16
  {
  }

  lemma OnLinesAppend(lines: nat, a: seq<Byte>, b: seq<Byte>)
    ensures OnLines(lines, a + b) == OnLines(lines, a) + OnLines(lines, b)
  {
  }

  /** Bytes of four parts in order: those on one line, then those on w lines. */
  lemma FourParts(a: seq<Byte>, wa: nat, b: seq<Byte>, wb: nat, c: seq<Byte>, wc: nat, d: seq<Byte>, wd: nat, w: nat, n: nat)
    requires wa <= 1 || wa == w
    requires (a != [] ==> wa == 1 || wa == w) && (b != [] ==> wb == 1 || wb == w)
    requires (c != [] ==> wc == 1 || wc == w) && (d != [] ==> wd == 1 || wd == w) && w > 1
    requires n == (if wa > 1 then 0 else |a|) + (if wb > 1 then 0 else |b|)
                  + (if wc > 1 then 0 else |c|) + (if wd > 1 then 0 else |d|)
    requires wa > 1 && a != [] ==> n == 0
    requires wb > 1 && b != [] ==> (wc > 1 || c == []) && (wd > 1 || d == [])
    requires wc > 1 && c != [] ==> wd > 1 || d == []
    ensures n <= |a + b + c + d|
    ensures OnLines(wa, a) + OnLines(wb, b) + OnLines(wc, c) + OnLines(wd, d)
         == OnLines(1, (a + b + c + d)[..n]) + OnLines(w, (a + b + c + d)[n..])
  {
    hide OnLines;
    if wa > 1 && a != [] {
      Same(a, wa, w); Same(b, wb, w); Same(c, wc, w); Same(d, wd, w);
      JoinFour(a, b, c, d, w);
      NoBytes(1);
      assert (a + b + c + d)[..n] == [] && (a + b + c + d)[n..] == a + b + c + d;
    } else if wb > 1 && b != [] {
      Same(a, wa, 1); Same(b, wb, w); Same(c, wc, w); Same(d, wd, w);
      SplitAfterOne(a, b, c, d, w);
    } else if wc > 1 && c != [] {
      Same(a, wa, 1); Same(b, wb, 1); Same(c, wc, w); Same(d, wd, w);
      SplitAfterTwo(a, b, c, d, w);
    } else if wd > 1 && d != [] {
      Same(a, wa, 1); Same(b, wb, 1); Same(c, wc, 1); Same(d, wd, w);
      SplitAfterThree(a, b, c, d, w);
    } else {
      Same(a, wa, 1); Same(b, wb, 1); Same(c, wc, 1); Same(d, wd, 1);
      JoinFour(a, b, c, d, 1);
      NoBytes(w);
      assert (a + b + c + d)[..n] == a + b + c + d && (a + b + c + d)[n..] == [];
    }
  }

  lemma Same(x: seq<Byte>, from: nat, to: nat)
    requires x == [] || from == to
    ensures OnLines(from, x) == OnLines(to, x)
  {
  }

  lemma JoinFour(a: seq<Byte>, b: seq<Byte>, c: seq<Byte>, d: seq<Byte>, w: nat)
    ensures OnLines(w, a) + OnLines(w, b) + OnLines(w, c) + OnLines(w, d) == OnLines(w, a + b + c + d)
  {
    hide OnLines;
    OnLinesAppend(w, a, b);
    OnLinesAppend(w, a + b, c);
    OnLinesAppend(w, a + b + c, d);
  }

  lemma SplitAfterOne(a: seq<Byte>, b: seq<Byte>, c: seq<Byte>, d: seq<Byte>, w: nat)
    ensures var all := a + b + c + d;
      OnLines(1, a) + OnLines(w, b) + OnLines(w, c) + OnLines(w, d) == OnLines(1, all[..|a|]) + OnLines(w, all[|a|..])
  {
    hide OnLines;
    OnLinesAppend(w, b, c);
    OnLinesAppend(w, b + c, d);
    assert (a + b + c + d)[..|a|] == a && (a + b + c + d)[|a|..] == b + c + d;
    Regroup(OnLines(1, a), OnLines(w, b), OnLines(w, c), OnLines(w, d));
  }

  lemma SplitAfterTwo(a: seq<Byte>, b: seq<Byte>, c: seq<Byte>, d: seq<Byte>, w: nat)
    ensures var all, n := a + b + c + d, |a| + |b|;
      OnLines(1, a) + OnLines(1, b) + OnLines(w, c) + OnLines(w, d) == OnLines(1, all[..n]) + OnLines(w, all[n..])
  {
    hide OnLines;
    OnLinesAppend(1, a, b);
    OnLinesAppend(w, c, d);
    assert (a + b + c + d)[..|a| + |b|] == a + b && (a + b + c + d)[|a| + |b|..] == c + d;
    Regroup(OnLines(1, a), OnLines(1, b), OnLines(w, c), OnLines(w, d));
  }

  lemma SplitAfterThree(a: seq<Byte>, b: seq<Byte>, c: seq<Byte>, d: seq<Byte>, w: nat)
    ensures var all, n := a + b + c + d, |a| + |b| + |c|;
      OnLines(1, a) + OnLines(1, b) + OnLines(1, c) + OnLines(w, d) == OnLines(1, all[..n]) + OnLines(w, all[n..])
  {
    hide OnLines;
    OnLinesAppend(1, a, b);
    OnLinesAppend(1, a + b, c);
    assert (a + b + c + d)[..|a| + |b| + |c|] == a + b + c && (a + b + c + d)[|a| + |b| + |c|..] == d;
  }

  lemma NoBytes(lines: nat)
    ensures OnLines(lines, []) == []
  {
  }

  lemma Regroup(a: seq<Lane>, b: seq<Lane>, c: seq<Lane>, d: seq<Lane>)
    ensures a + b + c + d == a + (b + c + d) && a + b + c + d == (a + b) + (c + d)
  {
  }

  /** Bytes in order split into those on one line and those on several where the counts say. */
  lemma LanesSplit(op: MemOp)
    requires op.Valid() && op.cmd.len == 1 && Ordered(op)
    ensures |Bytes(op)| == SingleLen(op) + MultiLen(op)
    ensures RequestOf(op).sent
         == OnLines(1, Bytes(op)[..SingleLen(op)]) + OnLines(LastWidth(op), Bytes(op)[SingleLen(op)..])
  {
    hide BigEndian, ByteOf, OnLines;
    var data := if op.dir.Out? then op.tx else [];
    FourParts([ByteOf(op.opcode, 0)], op.cmd.width, AddressBytes(op), op.addr.width,
              Repeat<Byte>(0xff, op.dummy.len), op.dummy.width, data, op.data.width, LastWidth(op), SingleLen(op));
  }

  /** The chip reads the counts of a command whose lengths fit. */
  lemma CommandCounts(op: MemOp)
    ensures var c := Command(op);
      && c[0] >= 0x80 && c[0] % 0x10 == SingleLen(op) % 0x10
      && Word(c[1], c[2]) == MultiLen(op) % LIMIT16 && Word(c[3], c[4]) == ReadLen(op) % LIMIT16
  {
    hide SingleLen, MultiLen, ReadLen;
    WordBack(MultiLen(op));
    WordBack(ReadLen(op));
  }

  /** What the chip takes from a command with these counts in front of these bytes. */
  lemma TakeIs(lines: nat, c: seq<Byte>, b: seq<Byte>, single: nat, multi: nat, nread: nat)
    requires |c| == CMD_LEN && c[0] >= 0x80
    requires c[0] % 0x10 == single && Word(c[1], c[2]) == multi && Word(c[3], c[4]) == nread
    ensures Take(lines, c + b) ==
      if |b| < single + multi then None
      else Some((Request(OnLines(1, b[..single]) + OnLines(lines, b[single..single + multi]), lines, nread),
                 b[single + multi..]))
  {
    hide OnLines, Word;
    var s := c + b;
    if |b| >= single + multi {
      assert s[CMD_LEN..CMD_LEN + single] == b[..single];
      assert s[CMD_LEN + single..CMD_LEN + single + multi] == b[single..single + multi];
      assert s[CMD_LEN + single + multi..] == b[single + multi..];
    }
  }

  lemma FrameIs(op: MemOp)
    requires op.Valid() && op.cmd.len == 1
    ensures Frame(op) == Command(op) + Bytes(op)
  {
    hide Command, Bytes, MemOp.Valid;
  }

  /** What the chip makes of an operation's command: the counts it reads are those of the operation cut to their fields. */
  lemma TakeCounts(op: MemOp)
    requires op.Valid() && op.cmd.len == 1 && Ordered(op)
    ensures var n, m := SingleLen(op) % 0x10, MultiLen(op) % LIMIT16;
      && n + m <= |Bytes(op)| == SingleLen(op) + MultiLen(op)
      && Take(LastWidth(op), Frame(op))
           == Some((Request(OnLines(1, Bytes(op)[..n]) + OnLines(LastWidth(op), Bytes(op)[n..n + m]),
                           LastWidth(op), ReadLen(op) % LIMIT16),
                    Bytes(op)[n + m..]))
  {
    hide *;
    FrameIs(op);
    CommandCounts(op);
    LanesSplit(op);
    SmallMod(SingleLen(op), MultiLen(op), ReadLen(op));
    TakeIs(LastWidth(op), Command(op), Bytes(op), SingleLen(op) % 0x10, MultiLen(op) % LIMIT16, ReadLen(op) % LIMIT16);
  }

  /** The chip takes the operation back out of the command if and only if its lengths fit the fields. */
  lemma TakeFrameIff(op: MemOp)
    requires op.Valid() && op.cmd.len == 1 && Ordered(op)
    ensures Take(LastWidth(op), Frame(op)) == Some((RequestOf(op), [])) <==> FitsCommand(op)
  {
    hide *;
    ReadCounted(op);
    TakeCounts(op);
    LanesSplit(op);
    var n, m := SingleLen(op), MultiLen(op);
    SmallMod(n, m, ReadLen(op));
    FitsCounts(op);
    if FitsCommand(op) {
      assert Bytes(op)[n..n + m] == Bytes(op)[n..] && Bytes(op)[n + m..] == [];
    } else {
      var t := Take(LastWidth(op), Frame(op)).value.0;
      assert |t.sent| == n % 0x10 + m % LIMIT16 && |RequestOf(op).sent| == n + m;
    }
  }

  /** The counts survive their fields if and only if they fit. */
  lemma SmallMod(n: nat, m: nat, r: nat)
    ensures LIMIT16 > 0 && n % 0x10 <= n && m % LIMIT16 <= m
    ensures n % 0x10 == n <==> n < 0x10
    ensures m % LIMIT16 == m <==> m < LIMIT16
    ensures r % LIMIT16 == r <==> r < LIMIT16
  {
  }

  lemma FitsCounts(op: MemOp)
    ensures FitsCommand(op) <==> SingleLen(op) < 0x10 && MultiLen(op) < LIMIT16 && ReadLen(op) < LIMIT16
  {
  }

  lemma ReadCounted(op: MemOp)
    requires op.Valid() && Ordered(op)
    ensures RequestOf(op).nread == ReadLen(op) && RequestOf(op).lines == LastWidth(op)
  {
  }

  /** A command that is not complete yet makes the chip wait. */
  lemma PrefixWaits(op: MemOp, k: nat)
    requires op.Valid() && op.cmd.len == 1 && Ordered(op) && FitsCommand(op) && k < |Frame(op)|
    ensures Take(LastWidth(op), Frame(op)[..k]) == None
  {
    CommandCounts(op);
    LanesSplit(op);
    hide Bytes, OnLines, Command, SingleLen, MultiLen, ReadLen, Word, Ordered, AddressBytes;
    SmallMod(SingleLen(op), MultiLen(op), ReadLen(op));
    if k >= CMD_LEN {
      var c, b := Command(op), Frame(op)[..k][CMD_LEN..];
      assert Frame(op)[..k] == c + b;
      TakeIs(LastWidth(op), c, b, SingleLen(op) % 0x10, MultiLen(op) % LIMIT16, ReadLen(op) % LIMIT16);
    }
  }

  /** The chip in multi-I/O mode: it carries out a command when all of it has arrived. */
  class MultiChip {
    /** Byte i received for the last of the requests so far. */
    const answer: (seq<Request>, nat) -> Byte
    /** Chips in front of firmware 3 take no more than this in one transfer. */
    const fwver: nat
    const limit: nat
    var lines: nat
    var inbox: seq<Byte>
    var requests: seq<Request>
    var pending: seq<Byte>
    var transfers: nat

    constructor (answer: (seq<Request>, nat) -> Byte, fwver: nat, limit: nat, lines: nat)
      ensures this.answer == answer && this.fwver == fwver && this.limit == limit && this.lines == lines
      ensures inbox == pending == [] && requests == [] && transfers == 0
    {
      this.answer, this.fwver, this.limit, this.lines := answer, fwver, limit, lines;
      inbox, pending, requests, transfers := [], [], [], 0;
    }

    predicate Takes(n: nat) { fwver < 3 ==> n <= limit }

    method SetIoMode(lines: nat)
      modifies this`lines
      ensures this.lines == lines
    {
      this.lines := lines;
    }

    method Write(bytes: seq<Byte>)
      requires Takes(|bytes|)
      modifies this`inbox, this`requests, this`pending, this`transfers
      ensures transfers == old(transfers) + 1
      ensures var t := Take(lines, old(inbox) + bytes);
        if t.None? then inbox == old(inbox) + bytes && requests == old(requests) && pending == old(pending)
        else inbox == t.value.1 && requests == old(requests) + [t.value.0]
             && pending == old(pending) + Received(answer, requests)
    {
      inbox, transfers := inbox + bytes, transfers + 1;
      var t := Take(lines, inbox);
      if t.Some? {
        inbox, requests := t.value.1, requests + [t.value.0];
        pending := pending + Received(answer, requests);
      }
    }

    /** Reading more than was received would never return. */
    method Read(n: nat) returns (bytes: seq<Byte>)
      requires n <= |pending| && Takes(n)
      modifies this`pending, this`transfers
      ensures bytes == old(pending)[..n] && pending == old(pending)[n..] && transfers == old(transfers) + 1
    {
      bytes, pending, transfers := pending[..n], pending[n..], transfers + 1;
    }
  }

  function Received(answer: (seq<Request>, nat) -> Byte, requests: seq<Request>): (r: seq<Byte>)
    requires requests != []
    ensures |r| == requests[|requests| - 1].nread
  {
    seq(requests[|requests| - 1].nread, i requires 0 <= i < requests[|requests| - 1].nread => answer(requests, i))
  }

  class MultiIo {
    const chip: MultiChip
    const scratch: array<Byte>
    const fwver: nat
    const maxBuck: nat

    constructor (chip: MultiChip, fwver: nat, maxBuck: nat)
      ensures this.chip == chip && this.fwver == fwver && this.maxBuck == maxBuck
      ensures scratch.Length == BUF_LEN && fresh(scratch)
    {
      this.chip, this.fwver, this.maxBuck := chip, fwver, maxBuck;
      scratch := new Byte[BUF_LEN];
    }

    /** Header and data behind the room for the command. */
    method FillBytes(op: MemOp) returns (len: nat)
      requires op.Valid() && op.cmd.len == 1 && scratch.Length == BUF_LEN && CMD_LEN + |Bytes(op)| <= BUF_LEN
      modifies scratch
      ensures len == CMD_LEN + |Bytes(op)| && scratch[CMD_LEN..len] == Bytes(op)
    {
      hide Header;
      len := FillHeader(scratch, op);
      if op.dir.Out? && op.data.len > 0 {
        ghost var header := scratch[CMD_LEN..len];
        Copy(scratch, len, op.tx);
        assert scratch[CMD_LEN..len] == header;
        assert scratch[CMD_LEN..len + op.data.len] == header + op.tx;
        len := len + op.data.len;
      }
    }

    method PutCommand(command: seq<Byte>, len: nat)
      requires |command| == CMD_LEN <= len <= scratch.Length
      modifies scratch
      ensures scratch[..len] == command + old(scratch[CMD_LEN..len])
    {
      ghost var bytes := scratch[CMD_LEN..len];
      Copy(scratch, 0, command);
      assert scratch[0..CMD_LEN] == command;
      assert scratch[CMD_LEN..len] == bytes;
      assert scratch[..len] == scratch[0..CMD_LEN] + scratch[CMD_LEN..len];
    }

    /** The write to newer chips. */
    method WriteOnce(op: MemOp, frame: seq<Byte>)
      requires op.Valid() && op.cmd.len == 1 && Ordered(op) && FitsCommand(op)
      requires frame == Frame(op) && chip.lines == LastWidth(op) && chip.inbox == [] && chip.Takes(|frame|)
      modifies chip`inbox, chip`requests, chip`pending, chip`transfers
      ensures chip.inbox == [] && chip.requests == old(chip.requests) + [RequestOf(op)]
      ensures chip.pending == old(chip.pending) + Received(chip.answer, chip.requests)
      ensures chip.transfers == old(chip.transfers) + 1
    {
      TakeFrameIff(op);
      hide Frame, Take, FitsCommand, Ordered, RequestOf, Received, LastWidth;
      assert chip.inbox + frame == frame;
      chip.Write(frame);
    }

    /** The write in buckets: the chip sees one command however it is cut. */
    method WriteBucks(op: MemOp, frame: seq<Byte>)
      requires op.Valid() && op.cmd.len == 1 && Ordered(op) && FitsCommand(op) && maxBuck > 0
      requires frame == Frame(op) && chip.lines == LastWidth(op) && chip.inbox == [] && chip.Takes(maxBuck)
      modifies chip`inbox, chip`requests, chip`pending, chip`transfers
      ensures chip.inbox == [] && chip.requests == old(chip.requests) + [RequestOf(op)]
      ensures chip.pending == old(chip.pending) + Received(chip.answer, chip.requests)
    {
      FrameFits(op);
      hide Frame, Take, FitsCommand, Ordered, RequestOf, Received, LastWidth;
      var len := |frame|;
      while len > 0
        invariant 0 <= len <= |frame|
        invariant len > 0 ==> chip.inbox == frame[..|frame| - len] && chip.requests == old(chip.requests)
                              && chip.pending == old(chip.pending)
        invariant len == 0 ==> chip.inbox == [] && chip.requests == old(chip.requests) + [RequestOf(op)]
                               && chip.pending == old(chip.pending) + Received(chip.answer, chip.requests)
      {
        var chksz := if len > maxBuck then maxBuck else len;
        var done := |frame| - len;
        assert frame[..done] + frame[done..done + chksz] == frame[..done + chksz];
        if chksz < len {
          PrefixWaits(op, done + chksz);
        } else {
          TakeFrameIff(op);
          assert frame[..done + chksz] == frame;
        }
        chip.Write(frame[done..done + chksz]);
        len := len - chksz;
      }
    }

    method ReadBucks(total: nat) returns (rx: seq<Byte>)
      requires maxBuck > 0 && |chip.pending| == total && chip.Takes(maxBuck)
      modifies chip`pending, chip`transfers
      ensures rx == old(chip.pending) && chip.pending == []
    {
      rx := [];
      var len := total;
      while len > 0
        invariant 0 <= len == |chip.pending| && rx + chip.pending == old(chip.pending)
      {
        var chksz := if len > maxBuck then maxBuck else len;
        var piece := chip.Read(chksz);
        rx := rx + piece;
        len := len - chksz;
      }
    }

    /** The multi-I/O part of ufprog_spi_mem_exec_op for a one-byte command, with no transfer failing: new and old chips
        are asked for the operation itself, the caller gets what was received, and nothing is left over. */
    method Exec(op: MemOp) returns (rx: seq<Byte>)
      requires op.Valid() && op.cmd.len == 1 && Ordered(op) && FitsCommand(op)
      requires scratch.Length == BUF_LEN && chip.inbox == chip.pending == []
      requires fwver == chip.fwver && (fwver < 3 ==> 0 < maxBuck <= chip.limit)
      modifies chip, scratch
      ensures fwver >= 3 ==> chip.transfers == old(chip.transfers) + if op.dir.In? && op.data.len > 0 then 2 else 1
      ensures chip.lines == LastWidth(op) && chip.inbox == chip.pending == []
      ensures chip.requests == old(chip.requests) + [RequestOf(op)] && rx == Received(chip.answer, chip.requests)
    {
      ReadCounted(op);
      FrameFits(op);
      hide Bytes, Command, Take, FitsCommand, Ordered, RequestOf, Received, ReadLen, LastWidth;
      var len := FillBytes(op);
      chip.SetIoMode(LastWidth(op));
      PutCommand(Command(op), len);
      rx := [];
      ghost var none := chip.pending;
      if fwver >= 3 {
        WriteOnce(op, scratch[..len]);
        assert none + Received(chip.answer, chip.requests) == Received(chip.answer, chip.requests);
        if ReadLen(op) > 0 {
          rx := chip.Read(ReadLen(op));
        }
      } else {
        WriteBucks(op, scratch[..len]);
        assert none + Received(chip.answer, chip.requests) == Received(chip.answer, chip.requests);
        if ReadLen(op) == 0 {
          return;
        }
        rx := ReadBucks(ReadLen(op));
      }
    }
  }

  lemma FrameFits(op: MemOp)
    requires op.Valid() && op.cmd.len == 1 && Ordered(op) && FitsCommand(op)
    ensures CMD_LEN < |Frame(op)| == CMD_LEN + |Bytes(op)| <= BUF_LEN
  {
    LanesSplit(op);
  }
}
