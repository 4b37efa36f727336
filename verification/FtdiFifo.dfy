/** The receive side of an FTDI bulk endpoint: every USB packet starts with two status bytes, which are stripped;
    what a caller does not take at once waits in a FIFO. */
module FtdiFifo {
  import opened Memory
  import opened PowerOfTwo

  const STATUS_BYTES := 2

  datatype Status = Ok | IoError | Starved

  /** One bulk transfer as the host sees it: its raw bytes, possibly fewer than asked for, or a failure. */
  datatype Transfer = Bytes(raw: seq<bv8>) | Failed

  function Min(a: nat, b: nat): nat { if a <= b then a else b }

  /** The data of one packet. */
  function PacketData(packet: seq<bv8>): (r: seq<bv8>)
    ensures |r| == if |packet| > 2 then |packet| - 2 else 0
  {
    if |packet| > 2 then packet[2..] else []
  }

  /** The data of a transfer, packet by packet. */
  function Payload(raw: seq<bv8>, maxPacket: nat): seq<bv8>
    requires maxPacket > STATUS_BYTES
    decreases |raw|
  {
    if raw == [] then []
    else
      var n := Min(maxPacket, |raw|);
      PacketData(raw[..n]) + Payload(raw[n..], maxPacket)
  }

  /** The data of all transfers still to come. */
  function PayloadAll(usb: seq<Transfer>, maxPacket: nat): seq<bv8>
    requires maxPacket > STATUS_BYTES
    decreases |usb|
  {
    if usb == [] then []
    else (if usb[0].Bytes? then Payload(usb[0].raw, maxPacket) else []) + PayloadAll(usb[1..], maxPacket)
  }

  /** The sizes of the receive buffer and of the FIFO for a number of packets. */
  function RawSize(maxPacket: nat, packets: nat): nat { maxPacket * packets }

  function FifoSize(maxPacket: nat, packets: nat): nat
    requires maxPacket > STATUS_BYTES
  {
    packets * (maxPacket - STATUS_BYTES)
  }

  /** k bytes are whole packets. */
  predicate Whole(k: nat, maxPacket: nat)
    requires maxPacket > 0
  {
    k % maxPacket == 0
  }

  /** A transfer that fits the receive buffer has no more data than the FIFO holds. */
  lemma {:induction false} PayloadFits(raw: seq<bv8>, maxPacket: nat, packets: nat)
    requires maxPacket > STATUS_BYTES && |raw| <= RawSize(maxPacket, packets)
    ensures |Payload(raw, maxPacket)| <= FifoSize(maxPacket, packets)
    decreases |raw|
  {
    if raw != [] {
      var n := Min(maxPacket, |raw|);
      assert packets > 0;
      assert maxPacket * packets == maxPacket * (packets - 1) + maxPacket;
      assert packets * (maxPacket - STATUS_BYTES) == (packets - 1) * (maxPacket - STATUS_BYTES) + (maxPacket - STATUS_BYTES);
      PayloadFits(raw[n..], maxPacket, packets - 1);
    }
  }

  /** Stripping in two pieces that meet at a packet boundary is stripping at once. */
  lemma {:induction false} PayloadSplit(raw: seq<bv8>, maxPacket: nat, k: nat)
    requires maxPacket > STATUS_BYTES && k <= |raw| && Whole(k, maxPacket)
    ensures Payload(raw, maxPacket) == Payload(raw[..k], maxPacket) + Payload(raw[k..], maxPacket)
    decreases |raw|
  {
    hide Whole, PacketData, Payload;
    if k == 0 {
      assert raw[..0] == [] && raw[0..] == raw;
      NoPacket([], maxPacket);
    } else {
      OnePacketLess(k, maxPacket);
      var tail := raw[maxPacket..];
      PayloadSplit(tail, maxPacket, k - maxPacket);
      PayloadCons(raw, maxPacket);
      PayloadCons(raw[..k], maxPacket);
      assert raw[..k][..maxPacket] == raw[..maxPacket] && raw[..k][maxPacket..] == tail[..k - maxPacket];
      assert tail[k - maxPacket..] == raw[k..];
    }
  }

  lemma PayloadCons(raw: seq<bv8>, maxPacket: nat)
    requires STATUS_BYTES < maxPacket <= |raw|
    ensures Payload(raw, maxPacket) == PacketData(raw[..maxPacket]) + Payload(raw[maxPacket..], maxPacket)
  {
  }

  lemma OnePacketLess(k: nat, n: nat)
    requires n > 0 && k > 0 && Whole(k, n)
    ensures k >= n && Whole(k - n, n)
  {
    MultiplesApart(0, k, n);
    DivModUnique(n, n, 1, 0);
    ModSub(n, k, n);
  }

  lemma OnePacketMore(k: nat, n: nat)
    requires n > 0 && Whole(k, n)
    ensures Whole(k + n, n)
  {
    ModAdd(k, n, n);
    DivModUnique(n, n, 1, 0);
  }

  /** A transfer that fills the receive buffer fills the FIFO: not a byte of it is too many. */
  lemma {:induction false} FullTransfer(raw: seq<bv8>, maxPacket: nat, packets: nat)
    requires maxPacket > STATUS_BYTES && |raw| == RawSize(maxPacket, packets)
    ensures |Payload(raw, maxPacket)| == FifoSize(maxPacket, packets)
    decreases packets
  {
    if packets > 0 {
      assert maxPacket * packets == maxPacket * (packets - 1) + maxPacket;
      assert packets * (maxPacket - STATUS_BYTES) == (packets - 1) * (maxPacket - STATUS_BYTES) + (maxPacket - STATUS_BYTES);
      FullTransfer(raw[maxPacket..], maxPacket, packets - 1);
    }
  }

  /** The number of packets ftdi_setup_handle chooses for a given maximum read size: the fewest that carry it. */
  function MaxPackets(maxRead: nat, maxPacket: nat): (n: nat)
    requires maxPacket > STATUS_BYTES
    ensures maxRead <= FifoSize(maxPacket, n)
    ensures n > 0 ==> FifoSize(maxPacket, n - 1) < maxRead
  {
    var per := maxPacket - STATUS_BYTES;
    assert maxRead == maxRead / per * per + maxRead % per;
    var whole: nat := maxRead / per;
    if maxRead % per != 0 then
      assert (whole + 1) * per == whole * per + per;
      whole + 1
    else whole
  }

  class FtHandle {
    const maxPacket: nat
    const maxPackets: nat
    const inBufferSize: nat
    const inFifo: array<bv8>
    var fifoUsed: nat
    /** The transfers the endpoint delivers from here on. */
    var usb: seq<Transfer>

    ghost predicate Valid()
      reads this, inFifo
    {
      && maxPacket > STATUS_BYTES
      && inBufferSize == RawSize(maxPacket, maxPackets) && inFifo.Length == FifoSize(maxPacket, maxPackets)
      && fifoUsed <= inFifo.Length
      && forall t | t in usb :: t.Bytes? ==> |t.raw| <= inBufferSize
    }

    /** All data the handle has not yet handed out. */
    ghost function Stream(): seq<bv8>
      requires Valid()
      reads this, inFifo
    {
      inFifo[..fifoUsed] + PayloadAll(usb, maxPacket)
    }

    ghost predicate NoneFails()
      reads this
    {
      forall t | t in usb :: t.Bytes?
    }

    /** ftdi_setup_handle, the part that sizes the buffers; packets must be able to hold more than their status. */
    constructor (maxPacket: nat, maxRead: nat, usb: seq<Transfer>)
      requires maxPacket > STATUS_BYTES
      requires forall t | t in usb :: t.Bytes? ==> |t.raw| <= RawSize(maxPacket, MaxPackets(maxRead, maxPacket))
      ensures Valid() && fresh(inFifo) && fifoUsed == 0 && maxRead <= inFifo.Length
      ensures Stream() == PayloadAll(usb, maxPacket)
    {
      this.maxPacket := maxPacket;
      var packets := MaxPackets(maxRead, maxPacket);
      maxPackets, inBufferSize := packets, RawSize(maxPacket, packets);
      inFifo := new bv8[FifoSize(maxPacket, packets)];
      fifoUsed, this.usb := 0, usb;
      new;
      assert Stream() == [] + PayloadAll(usb, maxPacket);
    }

    /** memcpy behind what the FIFO holds */
    method Store(data: seq<bv8>)
      requires fifoUsed + |data| <= inFifo.Length
      modifies inFifo
      ensures inFifo[..fifoUsed + |data|] == old(inFifo[..fifoUsed]) + data
    {
      ghost var was := inFifo[..fifoUsed];
      Copy(inFifo, fifoUsed, data);
      assert inFifo[..fifoUsed] == was;
      assert inFifo[..fifoUsed + |data|] == inFifo[..fifoUsed] + inFifo[fifoUsed..fifoUsed + |data|];
    }

    /** memmove to the front of the FIFO */
    method DropFront(n: nat)
      requires n <= fifoUsed <= inFifo.Length
      modifies inFifo
      ensures inFifo[..fifoUsed - n] == old(inFifo[n..fifoUsed])
    {
      for i := 0 to fifoUsed - n
        invariant inFifo[..i] == old(inFifo[n..n + i])
        invariant forall j | i + n <= j < fifoUsed :: inFifo[j] == old(inFifo[j])
      {
        inFifo[i] := inFifo[n + i];
        assert inFifo[..i + 1] == inFifo[..i] + [old(inFifo[n + i])];
        assert old(inFifo[n..n + i + 1]) == old(inFifo[n..n + i]) + [old(inFifo[n + i])];
      }
    }

    /** The inner loop of ftdi_read_raw: the packets of one transfer, stripped into the FIFO. */
    method Unpack(raw: seq<bv8>)
      requires Valid() && |raw| <= inBufferSize
      modifies this`fifoUsed, inFifo
      ensures Valid() && inFifo[..fifoUsed] == Payload(raw, maxPacket)
    {
      hide Payload, PacketData, RawSize, FifoSize, Whole;
      fifoUsed := 0;
      NoPacket(raw, maxPacket);
      var done: nat, transferred: nat := 0, |raw|;
      PayloadFits(raw, maxPacket, maxPackets);
      while transferred > 0
        invariant Valid() && done + transferred == |raw|
        invariant transferred > 0 ==> Whole(done, maxPacket)
        invariant inFifo[..fifoUsed] == Payload(raw[..done], maxPacket)
        decreases transferred
      {
        var size := if transferred >= maxPacket then maxPacket else transferred;
        var packet := raw[done..done + size];
        NextPacket(raw, done, maxPacket);
        PayloadGrows(raw, done + size, maxPacket);
        PacketBytes(packet);
        if size > STATUS_BYTES {
          Store(packet[STATUS_BYTES..]);
          fifoUsed := fifoUsed + (size - STATUS_BYTES);
        }
        transferred := transferred - size;
        done := done + size;
      }
      assert raw[..|raw|] == raw;
    }

    /** Hands out the front of the FIFO, as much as is wanted and there is, and closes the gap. */
    method Deliver(len: nat) returns (piece: seq<bv8>)
      requires Valid()
      modifies this`fifoUsed, inFifo
      ensures Valid() && |piece| == Min(len, old(fifoUsed)) && fifoUsed == old(fifoUsed) - |piece|
      ensures piece + inFifo[..fifoUsed] == old(inFifo[..fifoUsed])
    {
      var chksz := if fifoUsed > len then len else fifoUsed;
      ghost var got := inFifo[..fifoUsed];
      piece := inFifo[..chksz];
      if fifoUsed > len {
        assert got == piece + inFifo[chksz..fifoUsed];
        DropFront(chksz);
        fifoUsed := fifoUsed - chksz;
      } else {
        fifoUsed := 0;
      }
    }

    /** One turn of the outer loop of ftdi_read_raw: a transfer is fetched, stripped and handed out. */
    method NextTransfer(len: nat) returns (st: Status, piece: seq<bv8>)
      requires Valid() && fifoUsed == 0 && len > 0
      modifies this`fifoUsed, this`usb, inFifo
      ensures Valid() && piece + Stream() == old(Stream()) && |piece| <= len
      ensures st == Ok ==> |usb| < |old(usb)| && (|piece| < len ==> fifoUsed == 0)
      ensures st != Ok ==> piece == []
      ensures old(NoneFails()) ==> NoneFails() && (st != Ok ==> |Stream()| == 0)
    {
      hide Payload, RawSize, FifoSize;
      st, piece := Ok, [];
      assert piece + Stream() == Stream();
      if usb == [] {
        assert Stream() == [];
        return Starved, piece;
      }
      var t := usb[0];
      usb := usb[1..];
      if t.Failed? {
        assert piece + Stream() == Stream() == old(Stream());
        return IoError, piece;
      }
      if |t.raw| < STATUS_BYTES {
        ShortTransfer(t.raw, maxPacket);
        assert piece + Stream() == Stream() == old(Stream());
        return;
      }
      Unpack(t.raw);
      ghost var rest := PayloadAll(usb, maxPacket);
      piece := Deliver(len);
      AppendAssoc(piece, inFifo[..fifoUsed], rest);
    }

    /** ftdi_read_raw: the FIFO must be empty, since each transfer overwrites it. */
    method ReadRaw(len0: nat) returns (st: Status, out: seq<bv8>)
      requires Valid() && fifoUsed == 0
      modifies this`fifoUsed, this`usb, inFifo
      ensures Valid()
      ensures out + Stream() == old(Stream()) && |out| <= len0 && (st == Ok <==> |out| == len0)
      ensures old(NoneFails()) && |old(Stream())| >= len0 ==> st == Ok
      ensures old(NoneFails()) ==> NoneFails()
    {
      hide Payload, PayloadAll, RawSize, FifoSize, Stream;
      out := [];
      var len: nat := len0;
      ghost var all := Stream();
      assert out + all == all;
      while len > 0
        invariant Valid() && len + |out| == len0 && (len > 0 ==> fifoUsed == 0)
        invariant out + Stream() == all
        invariant old(NoneFails()) ==> NoneFails()
        decreases |usb|
      {
        ghost var before := Stream();
        var piece;
        st, piece := NextTransfer(len);
        if st != Ok {
          assert piece + Stream() == Stream();
          return;
        }
        AppendAssoc(out, piece, Stream());
        out := out + piece;
        len := len - |piece|;
      }
      st := Ok;
    }

    /** ftdi_read: on success exactly the next len bytes of the stream; on any outcome nothing is lost or repeated. */
    method Read(len0: nat) returns (st: Status, out: seq<bv8>)
      requires Valid()
      modifies this`fifoUsed, this`usb, inFifo
      ensures Valid()
      ensures out + Stream() == old(Stream()) && |out| <= len0 && (st == Ok <==> |out| == len0)
      ensures old(NoneFails()) && |old(Stream())| >= len0 ==> st == Ok
      ensures old(NoneFails()) ==> NoneFails()
    {
      hide Payload, PayloadAll, RawSize, FifoSize;
      out := [];
      var len: nat := len0;
      assert [] + Stream() == Stream();
      if fifoUsed > 0 {
        ghost var rest := PayloadAll(usb, maxPacket);
        out := Deliver(len);
        AppendAssoc(out, inFifo[..fifoUsed], rest);
        len := len - |out|;
        if len == 0 {
          return Ok, out;
        }
      }
      ghost var mid, first := Stream(), out;
      var more;
      st, more := ReadRaw(len);
      out := out + more;
      AppendAssoc(first, more, Stream());
    }
  }

  lemma NextPacket(raw: seq<bv8>, done: nat, maxPacket: nat)
    requires maxPacket > STATUS_BYTES && done < |raw| && Whole(done, maxPacket)
    ensures var size := Min(maxPacket, |raw| - done);
      && Payload(raw[..done + size], maxPacket) == Payload(raw[..done], maxPacket) + PacketData(raw[done..done + size])
      && (done + size < |raw| ==> Whole(done + size, maxPacket))
  {
    hide Whole, Payload, PacketData;
    var size := Min(maxPacket, |raw| - done);
    var upto := raw[..done + size];
    PayloadSplit(upto, maxPacket, done);
    assert upto[..done] == raw[..done] && upto[done..] == raw[done..done + size];
    OnePacket(upto[done..], maxPacket);
    OnePacketMore(done, maxPacket);
  }

  lemma OnePacket(packet: seq<bv8>, maxPacket: nat)
    requires maxPacket > STATUS_BYTES && |packet| <= maxPacket
    ensures Payload(packet, maxPacket) == PacketData(packet)
  {
    if packet != [] {
      assert packet[..|packet|] == packet && packet[|packet|..] == [];
    }
  }

  lemma PacketBytes(packet: seq<bv8>)
    ensures PacketData(packet) == if |packet| > STATUS_BYTES then packet[STATUS_BYTES..] else []
  {
  }

  lemma NoPacket(raw: seq<bv8>, maxPacket: nat)
    requires maxPacket > STATUS_BYTES
    ensures Payload(raw[..0], maxPacket) == [] && Whole(0, maxPacket)
  {
  }

  /** The data of a prefix is no longer than that of the whole. */
  lemma {:induction false} PayloadGrows(raw: seq<bv8>, k: nat, maxPacket: nat)
    requires maxPacket > STATUS_BYTES && k <= |raw|
    ensures |Payload(raw[..k], maxPacket)| <= |Payload(raw, maxPacket)|
    decreases |raw|
  {
    if k > 0 {
      var n, m := Min(maxPacket, |raw|), Min(maxPacket, k);
      if k > maxPacket {
        PayloadGrows(raw[n..], k - n, maxPacket);
        assert raw[..k][m..] == raw[n..][..k - n];
      } else {
        assert raw[..k][m..] == [];
      }
    }
  }

  lemma ShortTransfer(raw: seq<bv8>, maxPacket: nat)
    requires maxPacket > STATUS_BYTES && |raw| < STATUS_BYTES
    ensures Payload(raw, maxPacket) == []
  {
    if raw != [] {
      assert raw[1..] == [];
    }
  }

  /** A sequence of reads hands out the stream in consecutive pieces, whatever the sizes of reads and transfers. */
  method ReadMany(h: FtHandle, lens: seq<nat>) returns (ok: bool, outs: seq<seq<bv8>>)
    requires h.Valid()
    modifies h, h.inFifo
    ensures h.Valid() && Concat(outs) + h.Stream() == old(h.Stream())
    ensures ok ==> |outs| == |lens| && forall i | 0 <= i < |lens| :: |outs[i]| == lens[i]
    ensures old(h.NoneFails()) && |old(h.Stream())| >= Total(lens) ==> ok
  {
    hide Payload, PayloadAll, FtHandle.Stream, RawSize, FifoSize;
    outs := [];
    assert [] + h.Stream() == h.Stream();
    assert lens[0..] == lens;
    for i := 0 to |lens|
      invariant h.Valid() && |outs| == i && Concat(outs) + h.Stream() == old(h.Stream())
      invariant forall j | 0 <= j < i :: |outs[j]| == lens[j]
      invariant old(h.NoneFails()) ==> h.NoneFails()
      invariant old(h.NoneFails()) && |old(h.Stream())| >= Total(lens) ==> |h.Stream()| >= Total(lens[i..])
    {
      var st, out := h.Read(lens[i]);
      ConcatSnoc(outs, out);
      AppendAssoc(Concat(outs), out, h.Stream());
      outs := outs + [out];
      assert lens[i..][1..] == lens[i + 1..];
      if st != Ok {
        return false, outs;
      }
    }
    ok := true;
  }

  function Concat(pieces: seq<seq<bv8>>): seq<bv8> {
    if pieces == [] then [] else pieces[0] + Concat(pieces[1..])
  }

  function Total(lens: seq<nat>): nat {
    if lens == [] then 0 else lens[0] + Total(lens[1..])
  }

  lemma {:induction false} ConcatSnoc(pieces: seq<seq<bv8>>, last: seq<bv8>)
    ensures Concat(pieces + [last]) == Concat(pieces) + last
    decreases |pieces|
  {
    if pieces == [] {
      assert [] + [last] == [last] && [last][1..] == [];
      assert last + [] == last && [] + last == last;
    } else {
      assert (pieces + [last])[1..] == pieces[1..] + [last];
      ConcatSnoc(pieces[1..], last);
      assert pieces[0] + (Concat(pieces[1..]) + last) == (pieces[0] + Concat(pieces[1..])) + last;
    }
  }
}
