/** Whole runs of the SPI-NOR driver: any list of requests behaves as on a plain array that erases by the layout. */
module SpiNorRuns {
  import opened PowerOfTwo
  import opened EraseRegions
  import opened ErasePlan
  import opened FlashMemory
  import opened NorChip
  import opened SpiNor

  datatype Request = ReadReq(addr: nat, len: nat) | WriteReq(addr: nat, data: seq<bv8>) | EraseReq(addr: nat, len: nat) | ResetReq

  datatype Outcome = Done | Data(bytes: seq<bv8>) | Refused(st: Status)

  /** All a caller can tell about a part. */
  datatype Geometry = Geometry(layout: Layout, hasSoftReset: bool) {
    predicate Valid() { layout.Valid() }

    function Size(): nat { layout.Total() }

    predicate InPart(addr: nat, len: nat) { addr < Size() && addr + len <= Size() }
  }

  function GeometryOf(cfg: Config): Geometry { Geometry(cfg.layout, cfg.hasSoftReset) }

  /** The range an erase request clears. */
  function Cleared(g: Geometry, addr: nat, len: nat): (r: RangeResult)
    requires g.Valid() && g.InPart(addr, len) && len > 0
    ensures r.Range? && r.start <= addr && r.start <= r.end <= g.Size()
    ensures Sane(g.layout) && r == EraseRange(g.layout, g.Size(), addr, len)
  {
    ValidIsSane(g.layout);
    EraseRangeOnGrid(g.layout, addr, len);
    EraseRange(g.layout, g.Size(), addr, len)
  }

  /** One request served by the plain array. */
  function Serve(g: Geometry, mem: seq<bv8>, req: Request): (r: (seq<bv8>, Outcome))
    requires g.Valid() && |mem| == g.Size()
    ensures |r.0| == |mem|
  {
    match req
    case ReadReq(addr, len) =>
      if g.InPart(addr, len) then (mem, Data(mem[addr..addr + len])) else (mem, Refused(OutOfRange))
    case WriteReq(addr, data) =>
      if g.InPart(addr, |data|) then (Programmed(mem, addr, data), Done) else (mem, Refused(OutOfRange))
    case EraseReq(addr, len) =>
      if !g.InPart(addr, len) then (mem, Refused(OutOfRange))
      else if len == 0 then (mem, Refused(Status.InvalidParameter))
      else
        var r := Cleared(g, addr, len);
        (Erased(mem, r.start, r.end), Done)
    case ResetReq => (mem, if g.hasSoftReset then Done else Refused(NotSupported))
  }

  function ServeAll(g: Geometry, mem: seq<bv8>, reqs: seq<Request>): (r: (seq<bv8>, seq<Outcome>))
    requires g.Valid() && |mem| == g.Size()
    ensures |r.0| == |mem| && |r.1| == |reqs|
    decreases |reqs|
  {
    if reqs == [] then (mem, [])
    else
      var first := Serve(g, mem, reqs[0]);
      var rest := ServeAll(g, first.0, reqs[1..]);
      (rest.0, [first.1] + rest.1)
  }

  /** One request served by the driver over a reliable link. */
  method Handle(nor: Nor, req: Request) returns (out: Outcome)
    requires nor.Ready() && nor.curr == nor.cfg.cmdWidth
    modifies nor, nor.bus
    ensures nor.Ready() && nor.curr == nor.cfg.cmdWidth
    ensures (nor.bus.dev.mem, out) == Serve(GeometryOf(nor.cfg), old(nor.bus.dev).mem, req)
    ensures GrewInPages(nor.cfg.pageSize, old(nor.bus.dev).trace, nor.bus.dev.trace)
    ensures LatchKept(old(nor.bus.dev), nor.bus.dev)
  {
    hide Receive, Suits, Programmed, Erased, AddressBytes, EraseRange, GrewInPages, EraseMutations, ModeMatches;
    var st: Status;
    ghost var t0 := nor.bus.dev.trace;
    GrewByNone(nor.cfg.pageSize, t0);
    match req {
      case ReadReq(addr, len) =>
        var data;
        st, data := nor.Read(addr, len);
        return if st == Ok then Data(data) else Refused(st);
      case WriteReq(addr, data) =>
        st := nor.Write(addr, data);
      case EraseReq(addr, len) =>
        st := nor.Erase(addr, len);
        if nor.InPart(addr, len) && len > 0 {
          var r := Cleared(GeometryOf(nor.cfg), addr, len);
          GrewByErases(nor.cfg.pageSize, t0, Run(nor.cfg.layout, r.start, r.end));
        }
      case ResetReq =>
        st := nor.Reset();
    }
    out := if st == Ok then Done else Refused(st);
  }

  /** Every run: whatever the controller does to the size of operations, whichever writer and bus modes the part uses,
      the caller sees the plain array, the shadow state stays the chip's, the chip is never misused,
      and no page program wraps in its page. */
  method HandleAll(nor: Nor, reqs: seq<Request>) returns (outs: seq<Outcome>)
    requires nor.Ready() && nor.curr == nor.cfg.cmdWidth
    modifies nor, nor.bus
    ensures nor.Ready() && nor.curr == nor.cfg.cmdWidth
    ensures (nor.bus.dev.mem, outs) == ServeAll(GeometryOf(nor.cfg), old(nor.bus.dev).mem, reqs)
    ensures GrewInPages(nor.cfg.pageSize, old(nor.bus.dev).trace, nor.bus.dev.trace)
    ensures LatchKept(old(nor.bus.dev), nor.bus.dev)
  {
    hide Receive, Suits, Serve, AddressBytes, GrewInPages, ModeMatches;
    var g := GeometryOf(nor.cfg);
    ghost var mem0, t0 := nor.bus.dev.mem, nor.bus.dev.trace;
    GrewByNone(nor.cfg.pageSize, t0);
    outs := [];
    for i := 0 to |reqs|
      invariant nor.Ready() && nor.curr == nor.cfg.cmdWidth
      invariant (nor.bus.dev.mem, outs) == ServeAll(g, mem0, reqs[..i])
      invariant GrewInPages(nor.cfg.pageSize, t0, nor.bus.dev.trace) && LatchKept(old(nor.bus.dev), nor.bus.dev)
    {
      ghost var t1 := nor.bus.dev.trace;
      var out := Handle(nor, reqs[i]);
      GrewFurther(nor.cfg.pageSize, t0, t1, nor.bus.dev.trace);
      ServeAllSnoc(g, mem0, reqs[..i], reqs[i]);
      assert reqs[..i] + [reqs[i]] == reqs[..i + 1];
      outs := outs + [out];
    }
    assert reqs[..|reqs|] == reqs;
  }

  lemma ServeOne(g: Geometry, mem: seq<bv8>, req: Request)
    requires g.Valid() && |mem| == g.Size()
    ensures ServeAll(g, mem, [req]) == (Serve(g, mem, req).0, [Serve(g, mem, req).1])
  {
    hide Serve;
    assert [req][1..] == [];
    var last := Serve(g, mem, req);
    assert ServeAll(g, last.0, []) == (last.0, []);
    assert [last.1] + [] == [last.1];
  }

  lemma {:induction false} ServeAllSnoc(g: Geometry, mem: seq<bv8>, reqs: seq<Request>, req: Request)
    requires g.Valid() && |mem| == g.Size()
    ensures var before := ServeAll(g, mem, reqs);
      var last := Serve(g, before.0, req);
      ServeAll(g, mem, reqs + [req]) == (last.0, before.1 + [last.1])
    decreases |reqs|
  {
    hide Serve;
    if reqs == [] {
      assert reqs + [req] == [req] && [req][1..] == [];
      ServeOne(g, mem, req);
      assert [] + [Serve(g, mem, req).1] == [Serve(g, mem, req).1];
    } else {
      assert (reqs + [req])[0] == reqs[0] && (reqs + [req])[1..] == reqs[1..] + [req];
      var first := Serve(g, mem, reqs[0]);
      ServeAllSnoc(g, first.0, reqs[1..], req);
      var before := ServeAll(g, first.0, reqs[1..]);
      var last := Serve(g, before.0, req);
      assert [first.1] + (before.1 + [last.1]) == ([first.1] + before.1) + [last.1];
    }
  }

  lemma {:induction false} ServeAllAppend(g: Geometry, mem: seq<bv8>, a: seq<Request>, b: seq<Request>)
    requires g.Valid() && |mem| == g.Size()
    ensures var before := ServeAll(g, mem, a);
      var after := ServeAll(g, before.0, b);
      ServeAll(g, mem, a + b) == (after.0, before.1 + after.1)
    decreases |a|
  {
    hide Serve;
    if a == [] {
      assert a + b == b;
      assert [] + ServeAll(g, mem, b).1 == ServeAll(g, mem, b).1;
    } else {
      assert (a + b)[0] == a[0] && (a + b)[1..] == a[1..] + b;
      var first := Serve(g, mem, a[0]);
      ServeAllAppend(g, first.0, a[1..], b);
      var before := ServeAll(g, first.0, a[1..]);
      var after := ServeAll(g, before.0, b);
      assert [first.1] + (before.1 + after.1) == ([first.1] + before.1) + after.1;
    }
  }

  lemma ServeTwo(g: Geometry, mem: seq<bv8>, a: Request, b: Request)
    requires g.Valid() && |mem| == g.Size()
    ensures var r1 := Serve(g, mem, a);
      var r2 := Serve(g, r1.0, b);
      ServeAll(g, mem, [a, b]) == (r2.0, [r1.1, r2.1])
  {
    hide Serve;
    assert [a, b][1..] == [b];
    var r1 := Serve(g, mem, a);
    ServeOne(g, r1.0, b);
    assert [r1.1] + [Serve(g, r1.0, b).1] == [r1.1, Serve(g, r1.0, b).1];
  }

  /** An erase request clears everything it was asked to. */
  predicate ErasesAll(g: Geometry, addr: nat, len: nat)
    requires g.Valid() && g.InPart(addr, len) && len > 0
  {
    var k := g.layout.At(addr + len - 1);
    IsPow2(g.layout.Grain(k)) || (addr + len - Base(g.layout.regions, k)) % g.layout.Grain(k) == 0
  }

  lemma ErasesAllIff(g: Geometry, addr: nat, len: nat)
    requires g.Valid() && g.InPart(addr, len) && len > 0
    ensures ErasesAll(g, addr, len) <==> addr + len <= Cleared(g, addr, len).end
  {
    hide EraseRange, Layout.Valid, Layout.Grain;
    ValidIsSane(g.layout);
    EraseRangeCovers(g.layout, addr, len);
  }

  /** Erase, write, read: the read returns exactly the written data, and no byte outside the cleared range changes. */
  lemma EraseWriteRead(g: Geometry, mem: seq<bv8>, addr: nat, data: seq<bv8>)
    requires g.Valid() && |mem| == g.Size()
    requires data != [] && g.InPart(addr, |data|) && ErasesAll(g, addr, |data|)
    ensures var r := ServeAll(g, mem, [EraseReq(addr, |data|), WriteReq(addr, data), ReadReq(addr, |data|)]);
      var c := Cleared(g, addr, |data|);
      && r.1 == [Done, Done, Data(data)]
      && forall i | 0 <= i < |mem| && !(c.start <= i < c.end) :: r.0[i] == mem[i]
  {
    hide Programmed, Erased, Cleared, ErasesAll, ServeAll, Geometry.Size, Layout.Valid;
    var e, w, rd := EraseReq(addr, |data|), WriteReq(addr, data), ReadReq(addr, |data|);
    var c := Cleared(g, addr, |data|);
    ErasesAllIff(g, addr, |data|);
    EraseThenProgram(mem, c.start, c.end, addr, data);
    ServeThree(g, mem, e, w, rd);
  }

  lemma ServeThree(g: Geometry, mem: seq<bv8>, a: Request, b: Request, c: Request)
    requires g.Valid() && |mem| == g.Size()
    ensures var r1 := Serve(g, mem, a);
      var r2 := Serve(g, r1.0, b);
      var r3 := Serve(g, r2.0, c);
      ServeAll(g, mem, [a, b, c]) == (r3.0, [r1.1, r2.1, r3.1])
  {
    hide Serve;
    assert [a, b, c][1..] == [b, c];
    var r1 := Serve(g, mem, a);
    var r2 := Serve(g, r1.0, b);
    var r3 := Serve(g, r2.0, c);
    ServeTwo(g, r1.0, b, c);
    assert [r1.1] + [r2.1, r3.1] == [r1.1, r2.1, r3.1];
  }

  /** Without an erase that reaches the end of the data, the old contents show through:
      the read returns the data if and only if they left every needed bit set. */
  lemma WriteReadIff(g: Geometry, mem: seq<bv8>, addr: nat, data: seq<bv8>)
    requires g.Valid() && |mem| == g.Size() && g.InPart(addr, |data|)
    ensures var r := ServeAll(g, mem, [WriteReq(addr, data), ReadReq(addr, |data|)]);
      r.1 == [Done, Data(data)] <==> forall j | 0 <= j < |data| :: mem[addr + j] & data[j] == data[j]
  {
    hide Programmed;
    var w, rd := WriteReq(addr, data), ReadReq(addr, |data|);
    ProgramReadsBackIff(mem, addr, data);
    ServeTwo(g, mem, w, rd);
  }

  /** The bytes a request may change. */
  predicate Touches(g: Geometry, req: Request, i: nat)
    requires g.Valid()
  {
    match req
    case WriteReq(addr, data) => g.InPart(addr, |data|) && addr <= i < addr + |data|
    case EraseReq(addr, len) =>
      g.InPart(addr, len) && len > 0 && Cleared(g, addr, len).start <= i < Cleared(g, addr, len).end
    case _ => false
  }

  /** A byte no request of a run touches is still there at its end. */
  lemma {:induction false} UntouchedSurvives(g: Geometry, mem: seq<bv8>, reqs: seq<Request>, i: nat)
    requires g.Valid() && |mem| == g.Size() && i < |mem|
    requires forall k | 0 <= k < |reqs| :: !Touches(g, reqs[k], i)
    ensures ServeAll(g, mem, reqs).0[i] == mem[i]
    decreases |reqs|
  {
    if reqs != [] {
      hide Cleared;
      assert !Touches(g, reqs[0], i);
      assert Serve(g, mem, reqs[0]).0[i] == mem[i];
      UntouchedSurvives(g, Serve(g, mem, reqs[0]).0, reqs[1..], i);
    }
  }

  /** And every byte a request touches it does change, in some contents; ones that are programmed change nothing. */
  lemma TouchedChanges(g: Geometry, req: Request, i: nat) returns (mem: seq<bv8>)
    requires g.Valid() && i < g.Size() && Touches(g, req, i) && (req.WriteReq? ==> req.data[i - req.addr] != 0xFF)
    ensures |mem| == g.Size() && Serve(g, mem, req).0[i] != mem[i]
  {
    hide Cleared;
    mem := if req.EraseReq? then seq(g.Size(), _ => 0) else seq(g.Size(), _ => 0xFF);
  }

  /** Data erased and written once is what every later read returns, through any requests elsewhere. */
  lemma DataSurvives(g: Geometry, mem: seq<bv8>, addr: nat, data: seq<bv8>, others: seq<Request>)
    requires g.Valid() && |mem| == g.Size()
    requires data != [] && g.InPart(addr, |data|) && ErasesAll(g, addr, |data|)
    requires forall k, i | 0 <= k < |others| && addr <= i < addr + |data| :: !Touches(g, others[k], i)
    ensures var run := [EraseReq(addr, |data|), WriteReq(addr, data)] + others + [ReadReq(addr, |data|)];
      var outs := ServeAll(g, mem, run).1;
      outs[|outs| - 1] == Data(data)
  {
    hide Touches, EraseRange;
    var e, w, rd := EraseReq(addr, |data|), WriteReq(addr, data), ReadReq(addr, |data|);
    var c := Cleared(g, addr, |data|);
    EraseRangeCovers(g.layout, addr, |data|);
    EraseThenProgram(mem, c.start, c.end, addr, data);
    var m2 := Programmed(Erased(mem, c.start, c.end), addr, data);
    ServeTwo(g, mem, e, w);
    ServeAllAppend(g, mem, [e, w], others);
    var m3 := ServeAll(g, m2, others).0;
    forall i | addr <= i < addr + |data| ensures m3[i] == m2[i] {
      UntouchedSurvives(g, m2, others, i);
    }
    assert m3[addr..addr + |data|] == m2[addr..addr + |data|];
    ServeAllSnoc(g, mem, [e, w] + others, rd);
  }

  /** Bits only ever go from one to zero where no erase of the run reaches. */
  lemma {:induction false} WritesOnlyClearBits(g: Geometry, mem: seq<bv8>, reqs: seq<Request>, i: nat)
    requires g.Valid() && |mem| == g.Size() && i < |mem|
    requires forall k | 0 <= k < |reqs| && reqs[k].EraseReq? :: !Touches(g, reqs[k], i)
    ensures ServeAll(g, mem, reqs).0[i] & mem[i] == ServeAll(g, mem, reqs).0[i]
    decreases |reqs|
  {
    if reqs != [] {
      var m1 := Serve(g, mem, reqs[0]).0;
      assert reqs[0].EraseReq? ==> !Touches(g, reqs[0], i);
      OneOnlyClearsBits(g, mem, reqs[0], i);
      WritesOnlyClearBits(g, m1, reqs[1..], i);
      AndTransitive(ServeAll(g, m1, reqs[1..]).0[i], m1[i], mem[i]);
    }
  }

  lemma OneOnlyClearsBits(g: Geometry, mem: seq<bv8>, req: Request, i: nat)
    requires g.Valid() && |mem| == g.Size() && i < |mem|
    requires req.EraseReq? ==> !Touches(g, req, i)
    ensures Serve(g, mem, req).0[i] & mem[i] == Serve(g, mem, req).0[i]
  {
    hide Cleared;
    match req
    case EraseReq(addr, len) =>
    case WriteReq(addr, data) =>
      if Touches(g, req, i) {
        AndAbsorbs(mem[i], data[i - addr]);
      }
    case _ =>
  }

  lemma AndAbsorbs(a: bv8, b: bv8)
    ensures (a & b) & a == a & b
  {
  }

  lemma AndTransitive(a: bv8, b: bv8, c: bv8)
    requires a & b == a && b & c == b
    ensures a & c == a
  {
    assert a & c == (a & b) & c == a & (b & c);
  }
}
