/** Access to chip registers through one or several descriptors: how values become bytes on the bus and come back. */
module Registers {
  import opened BitString

  const WIDTH := 32
  const MAX_DESC := 4

  type Value32 = w: Word | |w| == WIDTH witness Zeros(WIDTH)
  type Byte = w: Word | |w| == 8 witness Zeros(8)

  /** struct spi_nor_reg_desc: number of data bytes and SNOR_REGACC_F_BIG_ENDIAN. */
  datatype Desc = Desc(ndata: nat, big: bool)

  /** struct spi_nor_reg_access; once stands for SNOR_REG_READ_MULTI_WRITE_ONCE. */
  datatype Access = Access(once: bool, readBig: bool, writeBig: bool, desc: seq<Desc>)

  /** A chip register: the bytes it takes and gives back, in bus order. */
  type Register = seq<Byte>

  function ByteAt(v: Value32, k: nat): Byte
    requires k < 4
  {
    v[24 - 8 * k..32 - 8 * k]
  }

  function Widen(x: Byte): Value32 { Zeros(24) + x }

  /** The data bytes of a value: low byte first, or high byte first. */
  function Split(v: Value32, n: nat, big: bool): (r: seq<Byte>)
    requires n <= 4
    ensures |r| == n
  {
    seq(n, k requires 0 <= k < n => if big then ByteAt(v, n - 1 - k) else ByteAt(v, k))
  }

  /** spi_nor_read_reg_desc puts the bytes together by cases on their number. */
  function Assemble(data: seq<Byte>, big: bool): Value32
    requires 1 <= |data| <= 4
  {
    if |data| == 1 then Widen(data[0])
    else if |data| == 2 then
      if big then Or(Widen(data[1]), Shl(Widen(data[0]), 8))
      else Or(Widen(data[0]), Shl(Widen(data[1]), 8))
    else if |data| == 3 then
      if big then Or(Or(Widen(data[2]), Shl(Widen(data[1]), 8)), Shl(Widen(data[0]), 8))
      else Or(Or(Widen(data[0]), Shl(Widen(data[1]), 8)), Shl(Widen(data[1]), 24))
    else
      if big then Or(Or(Or(Widen(data[3]), Shl(Widen(data[2]), 8)), Shl(Widen(data[1]), 16)), Shl(Widen(data[0]), 24))
      else Or(Or(Or(Widen(data[0]), Shl(Widen(data[1]), 8)), Shl(Widen(data[2]), 16)), Shl(Widen(data[3]), 24))
  }

  /** One register gives back what was put in if and only if it does not have three bytes. */
  lemma AssembleSplit(v: Value32, n: nat, big: bool)
    requires n == 1 || n == 2 || n == 4
    ensures Assemble(Split(v, n, big), big) == Low(v, 8 * n)
  {
    OneByte(v);
    TwoBytes(v);
    FourBytes(v);
    hide Shl, Or, Low, Widen, ByteAt;
  }

  lemma OneByte(v: Value32)
    ensures Widen(ByteAt(v, 0)) == Low(v, 8)
  {
  }

  lemma TwoBytes(v: Value32)
    ensures Or(Widen(ByteAt(v, 0)), Shl(Widen(ByteAt(v, 1)), 8)) == Low(v, 16)
  {
  }

  lemma FourBytes(v: Value32)
    ensures Or(Or(Or(Widen(ByteAt(v, 0)), Shl(Widen(ByteAt(v, 1)), 8)), Shl(Widen(ByteAt(v, 2)), 16)),
               Shl(Widen(ByteAt(v, 3)), 24)) == Low(v, 32)
  {
    hide Or, Shl, Low;
  }

  /** What the code makes of three bytes: in big-endian order the upper two fall on the same place, in little-endian order
      the middle one goes to the highest place too and the last one is lost. */
  lemma ThreeBytes(data: seq<Byte>, big: bool)
    requires |data| == 3
    ensures var r := Assemble(data, big);
      if big then ByteAt(r, 0) == data[2] && ByteAt(r, 1) == Or(data[1], data[0]) && ByteAt(r, 2) == ByteAt(r, 3) == Zeros(8)
      else ByteAt(r, 0) == data[0] && ByteAt(r, 1) == ByteAt(r, 3) == data[1] && ByteAt(r, 2) == Zeros(8)
  {
    var r := Assemble(data, big);
    if big {
      assert ByteAt(r, 1) == Or(data[1], data[0]);
    }
  }

  /** A three-byte register gives back what was put in if and only if the highest byte is zero and, in little-endian order,
      the middle one too. */
  lemma ThreeBytesIff(v: Value32, big: bool)
    ensures Assemble(Split(v, 3, big), big) == Low(v, 24) <==>
      ByteAt(v, 2) == Zeros(8) && (!big ==> ByteAt(v, 1) == Zeros(8))
  {
    hide Assemble, Low;
    var r := Assemble(Split(v, 3, big), big);
    ThreeBytes(Split(v, 3, big), big);
    LowBytes(v);
    SameBytes(r, Low(v, 24));
    OrZeros(ByteAt(v, 1));
  }

  lemma ThreeBytesDiffer(big: bool)
    ensures var v: Value32 := Zeros(8) + seq(24, _ => true); Assemble(Split(v, 3, big), big) != Low(v, 24) == v
  {
    hide Assemble, Split;
    var v: Value32 := Zeros(8) + seq(24, _ => true);
    assert ByteAt(v, 2)[0];
    ThreeBytesIff(v, big);
  }

  lemma LowBytes(v: Value32)
    ensures var l := Low(v, 24);
      ByteAt(l, 0) == ByteAt(v, 0) && ByteAt(l, 1) == ByteAt(v, 1) && ByteAt(l, 2) == ByteAt(v, 2) && ByteAt(l, 3) == Zeros(8)
  {
  }

  lemma SameBytes(a: Value32, b: Value32)
    ensures a == b <==> ByteAt(a, 0) == ByteAt(b, 0) && ByteAt(a, 1) == ByteAt(b, 1)
                        && ByteAt(a, 2) == ByteAt(b, 2) && ByteAt(a, 3) == ByteAt(b, 3)
  {
    assert a == a[0..8] + a[8..16] + a[16..24] + a[24..32];
    assert b == b[0..8] + b[8..16] + b[16..24] + b[24..32];
  }

  lemma OrZeros(a: Byte)
    ensures Or(a, Zeros(8)) == a
  {
  }

  // ---- several descriptors ----

  function Bits(desc: seq<Desc>): nat {
    if desc == [] then 0 else 8 * desc[0].ndata + Bits(desc[1..])
  }

  /** Descriptors of one or two bytes, at most four bytes together. */
  predicate Plain(desc: seq<Desc>) {
    && |desc| <= MAX_DESC && Bits(desc) <= WIDTH
    && forall k | 0 <= k < |desc| :: desc[k].ndata == 1 || desc[k].ndata == 2
  }

  predicate Holds(desc: seq<Desc>, regs: seq<Register>) {
    |regs| == |desc| && forall k | 0 <= k < |desc| :: |regs[k]| == desc[k].ndata
  }

  /** The loop of spi_nor_read_reg_acc from its current state. */
  function Gather(readBig: bool, desc: seq<Desc>, regs: seq<Register>, val: Value32, shift: nat): Value32
    requires Plain(desc) && Holds(desc, regs) && shift + Bits(desc) <= WIDTH
    decreases |desc|
  {
    if desc == [] then val
    else
      var data := Assemble(regs[0], desc[0].big);
      PlainTail(desc, regs);
      Gather(readBig, desc[1..], regs[1..],
             if readBig then Or(Shl(val, shift), data) else Or(val, Shl(data, shift)),
             shift + 8 * desc[0].ndata)
  }

  /** The loop of spi_nor_write_reg_acc: low fields first, or, from the top, high fields first. */
  function Scatter(writeBig: bool, desc: seq<Desc>, val: Value32): (regs: seq<Register>)
    requires Plain(desc)
    ensures Holds(desc, regs)
    decreases |desc|
  {
    if desc == [] then []
    else
      var bits := 8 * desc[0].ndata;
      PlainTail(desc, Empty(desc));
      if writeBig then
        var rest := Scatter(true, desc[1..], val);
        [Split(Low(Shr(val, Bits(desc[1..])), bits), desc[0].ndata, desc[0].big)] + rest
      else
        [Split(Low(val, bits), desc[0].ndata, desc[0].big)] + Scatter(false, desc[1..], Shr(val, bits))
  }

  function ZeroBytes(n: nat): (r: Register)
    ensures |r| == n
  {
    seq(n, _ => Zeros(8))
  }

  function Empty(desc: seq<Desc>): (regs: seq<Register>)
    ensures Holds(desc, regs)
  {
    seq(|desc|, k requires 0 <= k < |desc| => ZeroBytes(desc[k].ndata))
  }

  lemma PlainTail(desc: seq<Desc>, regs: seq<Register>)
    requires Plain(desc) && Holds(desc, regs) && desc != []
    ensures Plain(desc[1..]) && Holds(desc[1..], regs[1..]) && Bits(desc) == 8 * desc[0].ndata + Bits(desc[1..])
  {
  }

  /** Little-endian over any such descriptors: what is gathered is what was scattered. */
  lemma {:induction false} GatherScatter(desc: seq<Desc>, v: Value32, val: Value32, shift: nat)
    requires Plain(desc) && shift + Bits(desc) <= WIDTH
    ensures Gather(false, desc, Scatter(false, desc, v), val, shift) == Or(val, Shl(Low(v, Bits(desc)), shift))
    decreases |desc|
  {
    if desc == [] {
      assert Or(val, Shl(Low(v, 0), shift)) == val;
    } else {
      var bits := 8 * desc[0].ndata;
      PlainTail(desc, Empty(desc));
      AssembleSplit(Low(v, bits), desc[0].ndata, desc[0].big);
      assert Low(Low(v, bits), bits) == Low(v, bits);
      GatherScatter(desc[1..], Shr(v, bits), Or(val, Shl(Low(v, bits), shift)), shift + bits);
      JoinFields(v, val, shift, bits, Bits(desc[1..]));
      assert Scatter(false, desc, v)[1..] == Scatter(false, desc[1..], Shr(v, bits));
    }
  }

  lemma JoinFields(v: Value32, val: Value32, shift: nat, bits: nat, rest: nat)
    requires shift + bits + rest <= WIDTH
    ensures Or(Or(val, Shl(Low(v, bits), shift)), Shl(Low(Shr(v, bits), rest), shift + bits))
         == Or(val, Shl(Low(v, bits + rest), shift))
  {
  }

  /** A value that fits the descriptors. */
  predicate FitsIn(v: Value32, desc: seq<Desc>) {
    Bits(desc) <= WIDTH && Low(v, Bits(desc)) == v
  }

  lemma LittleRoundTrip(desc: seq<Desc>, v: Value32)
    requires Plain(desc) && FitsIn(v, desc)
    ensures Gather(false, desc, Scatter(false, desc, v), Zeros(WIDTH), 0) == v
  {
    GatherScatter(desc, v, Zeros(WIDTH), 0);
    assert Or(Zeros(WIDTH), Shl(v, 0)) == v;
  }

  /** The condition a caller can check before using big-endian order across descriptors:
      the last field is as wide as all before it together. */
  predicate BigWorks(desc: seq<Desc>) {
    |desc| <= 1 || Bits(desc[..|desc| - 1]) == 8 * desc[|desc| - 1].ndata
  }

  /** Each field after the first is as wide as all before it together. */
  predicate Doubling(desc: seq<Desc>, shift: nat)
    decreases |desc|
  {
    desc == [] || ((shift == 0 || shift == 8 * desc[0].ndata) && Doubling(desc[1..], shift + 8 * desc[0].ndata))
  }

  lemma BigWorksDoubles(desc: seq<Desc>)
    requires Plain(desc) && BigWorks(desc)
    ensures Doubling(desc, 0)
  {
    if |desc| == 1 {
      assert desc[1..] == [];
    } else if |desc| == 2 {
      assert desc[..1][1..] == [] && desc[1..][1..] == [];
      assert Bits(desc[..1]) == 8 * desc[0].ndata;
      assert Doubling(desc[1..], 8 * desc[0].ndata);
    } else if |desc| >= 3 {
      var front := desc[..|desc| - 1];
      assert Bits(front) == 8 * front[0].ndata + Bits(front[1..]);
      assert Bits(front[1..]) == 8 * front[1].ndata + Bits(front[1..][1..]);
      if |desc| == 3 {
        assert desc[1..][1..][1..] == [];
        assert Doubling(desc[1..][1..], 8 * desc[0].ndata + 8 * desc[1].ndata);
        assert Doubling(desc[1..], 8 * desc[0].ndata);
      } else {
        FourFieldsTooWide(desc);
        assert false;
      }
    }
  }

  lemma FourFieldsTooWide(desc: seq<Desc>)
    requires Plain(desc) && |desc| == 4
    ensures !BigWorks(desc)
  {
    var front := desc[..3];
    assert Bits(front) == 8 * front[0].ndata + Bits(front[1..]);
    assert Bits(front[1..]) == 8 * front[1].ndata + Bits(front[1..][1..]);
    assert Bits(front[1..][1..]) == 8 * front[2].ndata + Bits(front[1..][1..][1..]);
  }

  /** One turn of either loop. */
  lemma GatherStep(readBig: bool, desc: seq<Desc>, regs: seq<Register>, val: Value32, shift: nat)
    requires Plain(desc) && Holds(desc, regs) && shift + Bits(desc) <= WIDTH && desc != []
    ensures Plain(desc[1..]) && Holds(desc[1..], regs[1..]) && Bits(desc) == 8 * desc[0].ndata + Bits(desc[1..])
    ensures var data := Assemble(regs[0], desc[0].big);
      Gather(readBig, desc, regs, val, shift)
        == Gather(readBig, desc[1..], regs[1..], if readBig then Or(Shl(val, shift), data) else Or(val, Shl(data, shift)),
                  shift + 8 * desc[0].ndata)
  {
    PlainTail(desc, regs);
  }

  lemma ScatterStep(big: bool, desc: seq<Desc>, v: Value32)
    requires Plain(desc) && desc != []
    ensures Plain(desc[1..]) && Bits(desc) == 8 * desc[0].ndata + Bits(desc[1..])
    ensures var bits := 8 * desc[0].ndata;
      var field := Low(if big then Shr(v, Bits(desc[1..])) else v, bits);
      && Scatter(big, desc, v)
           == [Split(field, desc[0].ndata, desc[0].big)] + Scatter(big, desc[1..], if big then v else Shr(v, bits))
      && Assemble(Scatter(big, desc, v)[0], desc[0].big) == field
      && Scatter(big, desc, v)[1..] == Scatter(big, desc[1..], if big then v else Shr(v, bits))
  {
    hide Low, Shr, Assemble, Split;
    PlainTail(desc, Empty(desc));
    var bits := 8 * desc[0].ndata;
    var w: Value32 := if big then Shr(v, Bits(desc[1..])) else v;
    AssembleSplit(Low(w, bits), desc[0].ndata, desc[0].big);
    LowTwice(w, bits);
  }

  /** One field written and read: what a turn of the write loop puts in the register is what a turn of the read loop
      takes from it. */
  lemma FieldThrough(big: bool, desc: seq<Desc>, v: Value32, val: Value32, shift: nat)
    requires Plain(desc) && shift + Bits(desc) <= WIDTH && desc != []
    ensures Plain(desc[1..]) && Bits(desc) == 8 * desc[0].ndata + Bits(desc[1..])
    ensures var bits := 8 * desc[0].ndata;
      var field := Low(if big then Shr(v, Bits(desc[1..])) else v, bits);
      Gather(big, desc, Scatter(big, desc, v), val, shift)
        == Gather(big, desc[1..], Scatter(big, desc[1..], if big then v else Shr(v, bits)),
                  if big then Or(Shl(val, shift), field) else Or(val, Shl(field, shift)), shift + bits)
  {
    hide Gather, Scatter, Or, Shl, Shr, Low, Assemble, Split;
    ScatterStep(big, desc, v);
    GatherStep(big, desc, Scatter(big, desc, v), val, shift);
  }

  lemma LowTwice(v: Value32, n: nat)
    requires n <= WIDTH
    ensures Low(Low(v, n), n) == Low(v, n)
  {
  }

  /** In a doubling sequence of fields the value read so far moves up by the width of the next field. */
  lemma DoublingStep(desc: seq<Desc>, v: Value32, val: Value32, shift: nat)
    requires Plain(desc) && shift + Bits(desc) <= WIDTH && desc != []
    requires if shift == 0 then val == Zeros(WIDTH) else shift == 8 * desc[0].ndata
    ensures Plain(desc[1..]) && desc[0].ndata > 0 && Bits(desc) == 8 * desc[0].ndata + Bits(desc[1..])
    ensures var bits := 8 * desc[0].ndata;
      Gather(true, desc, Scatter(true, desc, v), val, shift)
        == Gather(true, desc[1..], Scatter(true, desc[1..], v),
                  Appended(val, Low(Shr(v, Bits(desc[1..])), bits), bits), shift + bits)
  {
    assert desc[0].ndata > 0;
    hide Gather, Scatter, Shl, Shr, Or, Low, Bits, Plain;
    FieldThrough(true, desc, v, val, shift);
    if shift == 0 {
      ShlZeros(shift);
      ShlZeros(8 * desc[0].ndata);
    }
  }

  /** A field put below the value read so far. */
  function Appended(val: Value32, field: Value32, n: nat): Value32
    requires n <= WIDTH
  {
    Or(Shl(val, n), field)
  }

  lemma {:induction false} BigGather(desc: seq<Desc>, v: Value32, val: Value32, shift: nat)
    requires Plain(desc) && shift + Bits(desc) <= WIDTH && Doubling(desc, shift) && (shift == 0 ==> val == Zeros(WIDTH))
    ensures Gather(true, desc, Scatter(true, desc, v), val, shift) == Appended(val, Low(v, Bits(desc)), Bits(desc))
    decreases |desc|
  {
    hide Shl, Shr, Or, Low, Gather, Scatter, Bits, Plain, Appended;
    if desc == [] {
      NoField(desc, v, val, shift);
    } else {
      var bits, rest := 8 * desc[0].ndata, Bits(desc[1..]);
      DoublingStep(desc, v, val, shift);
      var next := Appended(val, Low(Shr(v, rest), bits), bits);
      BigGather(desc[1..], v, next, shift + bits);
      JoinHigh(v, val, bits, rest);
    }
  }

  lemma NoField(desc: seq<Desc>, v: Value32, val: Value32, shift: nat)
    requires desc == [] && Plain(desc) && shift <= WIDTH
    ensures Bits(desc) == 0
    ensures Gather(true, desc, Scatter(true, desc, v), val, shift) == Appended(val, Low(v, Bits(desc)), Bits(desc))
  {
    assert Or(Shl(val, 0), Low(v, 0)) == val;
  }

  lemma ShlZeros(n: nat)
    requires n <= WIDTH
    ensures Shl(Zeros(WIDTH), n) == Zeros(WIDTH)
  {
  }

  lemma JoinHigh(v: Value32, val: Value32, bits: nat, rest: nat)
    requires bits + rest <= WIDTH
    ensures Appended(Appended(val, Low(Shr(v, rest), bits), bits), Low(v, rest), rest)
         == Appended(val, Low(v, bits + rest), bits + rest)
  {
  }

  /** The value with a single one, p bits up. */
  function OneAt(p: nat): Value32
    requires p < WIDTH
  {
    Zeros(WIDTH - 1 - p) + [true] + Zeros(p)
  }

  lemma BitsCons(desc: seq<Desc>)
    requires desc != []
    ensures Bits(desc) == 8 * desc[0].ndata + Bits(desc[1..])
    ensures |desc| == 1 ==> Bits(desc[1..]) == 0
  {
  }

  lemma FrontBits(desc: seq<Desc>)
    requires Plain(desc) && |desc| >= 2
    ensures Plain(desc[1..]) && Bits(desc) == 8 * desc[0].ndata + Bits(desc[1..])
    ensures Bits(desc[..|desc| - 1]) == 8 * desc[0].ndata + (if |desc| == 2 then 0 else Bits(desc[1..][..|desc| - 2]))
    ensures |desc| == 2 ==> desc[1..] == [desc[1]] && Bits(desc[1..]) == 8 * desc[1].ndata
    ensures |desc| > 2 ==> 8 * desc[|desc| - 1].ndata < Bits(desc[1..])
    ensures 8 * desc[|desc| - 1].ndata < Bits(desc) && Bits(desc[..|desc| - 1]) < Bits(desc)
  {
    PlainTail(desc, Empty(desc));
    LastBelow(desc);
    hide Bits, Plain;
    FrontSplits(desc);
    BitsCons(desc[1..]);
  }

  lemma FrontSplits(desc: seq<Desc>)
    requires |desc| >= 2
    ensures Bits(desc[..|desc| - 1]) == 8 * desc[0].ndata + Bits(desc[1..][..|desc| - 2])
    ensures |desc| == 2 ==> Bits(desc[1..][..|desc| - 2]) == 0
    ensures Bits(desc) == Bits(desc[..|desc| - 1]) + 8 * desc[|desc| - 1].ndata
  {
    hide Bits;
    BitsSnoc(desc, |desc| - 1);
    assert desc[..|desc|] == desc;
    var front := desc[..|desc| - 1];
    BitsCons(front);
    assert front[0] == desc[0] && front[1..] == desc[1..][..|desc| - 2];
  }

  lemma LastBelow(desc: seq<Desc>)
    requires Plain(desc) && |desc| >= 2
    ensures |desc| > 2 ==> 8 * desc[|desc| - 1].ndata < Bits(desc[1..])
    ensures 0 < 8 * desc[|desc| - 1].ndata < Bits(desc)
  {
    PlainTail(desc, Empty(desc));
    hide Bits;
    if |desc| > 2 {
      LastBelowRest(desc[1..]);
    }
    LastBelowRest(desc);
  }

  /** The lowest bit above the last field comes back as far up as the other fields are wide. */
  lemma {:induction false} BigMoves(desc: seq<Desc>, shift: nat)
    requires Plain(desc) && |desc| >= 2 && shift + Bits(desc) <= WIDTH
    ensures 8 * desc[|desc| - 1].ndata < WIDTH && shift + Bits(desc[..|desc| - 1]) < WIDTH
    ensures Gather(true, desc, Scatter(true, desc, OneAt(8 * desc[|desc| - 1].ndata)), Zeros(WIDTH), shift)
         == OneAt(shift + Bits(desc[..|desc| - 1]))
    decreases |desc|
  {
    hide Gather, Scatter, Or, Shl, Shr, Low, OneAt, Bits;
    var last, bits := 8 * desc[|desc| - 1].ndata, 8 * desc[0].ndata;
    FrontBits(desc);
    if |desc| == 2 {
      FirstOfTwo(desc, shift);
      LastField(desc[1], shift + bits);
    } else {
      EarlierField(desc, shift, last);
      var tail := desc[1..];
      assert tail[|tail| - 1] == desc[|desc| - 1];
      BigMoves(tail, shift + bits);
    }
  }

  /** The first of two fields takes the one to the bottom of the value read so far. */
  lemma FirstOfTwo(desc: seq<Desc>, shift: nat)
    requires Plain(desc) && |desc| == 2 && shift + Bits(desc) <= WIDTH && 8 * desc[1].ndata < WIDTH
    ensures var v, e := OneAt(8 * desc[1].ndata), [desc[1]];
      && Plain(e) && Bits(desc) == 8 * desc[0].ndata + Bits(e)
      && Gather(true, desc, Scatter(true, desc, v), Zeros(WIDTH), shift)
           == Gather(true, e, Scatter(true, e, v), OneAt(0), shift + 8 * desc[0].ndata)
  {
    hide Gather, Scatter, Or, Shl, Shr, Low, OneAt, Bits;
    FrontBits(desc);
    var v, bits, rest := OneAt(8 * desc[1].ndata), 8 * desc[0].ndata, Bits(desc[1..]);
    FieldThrough(true, desc, v, Zeros(WIDTH), shift);
    OrShlZeros(Low(Shr(v, rest), bits), shift);
    OneShifted(8 * desc[1].ndata, rest, bits);
  }

  /** A field with no one in it leaves the value read so far at zero. */
  lemma EarlierField(desc: seq<Desc>, shift: nat, last: nat)
    requires Plain(desc) && |desc| > 2 && shift + Bits(desc) <= WIDTH && last < Bits(desc[1..])
    ensures last < WIDTH && Plain(desc[1..]) && Bits(desc) == 8 * desc[0].ndata + Bits(desc[1..])
    ensures Gather(true, desc, Scatter(true, desc, OneAt(last)), Zeros(WIDTH), shift)
         == Gather(true, desc[1..], Scatter(true, desc[1..], OneAt(last)), Zeros(WIDTH), shift + 8 * desc[0].ndata)
  {
    hide Gather, Scatter, Or, Shl, Shr, Low, OneAt, Bits;
    FrontBits(desc);
    var bits, rest := 8 * desc[0].ndata, Bits(desc[1..]);
    FieldThrough(true, desc, OneAt(last), Zeros(WIDTH), shift);
    OrShlZeros(Low(Shr(OneAt(last), rest), bits), shift);
    OneBelow(last, rest, bits);
  }

  lemma OrShlZeros(field: Value32, shift: nat)
    requires shift <= WIDTH
    ensures Or(Shl(Zeros(WIDTH), shift), field) == field
  {
  }

  lemma OneShifted(p: nat, rest: nat, bits: nat)
    requires p == rest < WIDTH && 0 < bits <= WIDTH
    ensures Low(Shr(OneAt(p), rest), bits) == OneAt(0)
  {
  }

  lemma OneBelow(p: nat, rest: nat, bits: nat)
    requires p < rest <= WIDTH && bits <= WIDTH
    ensures Low(Shr(OneAt(p), rest), bits) == Zeros(WIDTH)
  {
  }

  lemma LastBelowRest(desc: seq<Desc>)
    requires Plain(desc) && |desc| >= 2
    ensures 8 * desc[|desc| - 1].ndata < Bits(desc)
  {
    PlainTail(desc, Empty(desc));
    PlainTail(desc[1..], Empty(desc[1..]));
    if |desc| > 2 {
      LastBelowRest(desc[1..]);
    }
  }

  lemma LastField(d: Desc, shift: nat)
    requires Plain([d]) && shift + 8 * d.ndata <= WIDTH && 8 * d.ndata < WIDTH
    ensures Gather(true, [d], Scatter(true, [d], OneAt(8 * d.ndata)), OneAt(0), shift) == OneAt(shift)
  {
    hide Or, Shl, Shr, Low, OneAt, Assemble, Split;
    var v := OneAt(8 * d.ndata);
    assert [d][1..] == [] && Bits([d]) == 8 * d.ndata + Bits([]);
    FieldThrough(true, [d], v, OneAt(0), shift);
    OneDropped(8 * d.ndata);
    OneMoved(shift);
  }

  lemma OneDropped(p: nat)
    requires p < WIDTH
    ensures Low(Shr(OneAt(p), 0), p) == Zeros(WIDTH)
  {
  }

  lemma OneMoved(shift: nat)
    requires shift < WIDTH
    ensures Or(Shl(OneAt(0), shift), Zeros(WIDTH)) == OneAt(shift)
  {
  }

  /** Big-endian across descriptors gives every value back if and only if the last field
      is as wide as all before it together. */
  lemma BigRoundTripIff(desc: seq<Desc>)
    requires Plain(desc)
    ensures BigWorks(desc) <==>
      forall v: Value32 | FitsIn(v, desc) :: Gather(true, desc, Scatter(true, desc, v), Zeros(WIDTH), 0) == v
  {
    hide Gather, Scatter, Shl, Or, Low, OneAt;
    if BigWorks(desc) {
      BigWorksDoubles(desc);
      forall v: Value32 | FitsIn(v, desc)
        ensures Gather(true, desc, Scatter(true, desc, v), Zeros(WIDTH), 0) == v
      {
        BigGather(desc, v, Zeros(WIDTH), 0);
        OrShlZeros(v, Bits(desc));
      }
    } else {
      BigMoves(desc, 0);
      LastBelowRest(desc);
      var p, q := 8 * desc[|desc| - 1].ndata, Bits(desc[..|desc| - 1]);
      OnesDiffer(p, q, Bits(desc));
      assert FitsIn(OneAt(p), desc);
    }
  }

  lemma OnesDiffer(p: nat, q: nat, n: nat)
    requires p < n <= WIDTH && q < WIDTH && p != q
    ensures OneAt(p) != OneAt(q) && Low(OneAt(p), n) == OneAt(p)
  {
    assert OneAt(p)[WIDTH - 1 - p] && !OneAt(q)[WIDTH - 1 - p];
  }

  // ---- one write for several registers ----

  /** The bytes of a single write operation, handed out to registers of one byte in turn. */
  function HandOut(data: seq<Byte>): (regs: seq<Register>)
    ensures |regs| == |data| && forall k | 0 <= k < |data| :: regs[k] == [data[k]]
  {
    seq(|data|, k requires 0 <= k < |data| => [data[k]])
  }

  predicate SingleBytes(desc: seq<Desc>) {
    |desc| <= MAX_DESC && forall k | 0 <= k < |desc| :: desc[k].ndata == 1
  }

  lemma {:induction false} SingleBytesPlain(desc: seq<Desc>)
    requires SingleBytes(desc)
    ensures Bits(desc) == 8 * |desc| && Plain(desc)
    decreases |desc|
  {
    if desc != [] {
      SingleBytesPlain(desc[1..]);
    }
  }

  /** Register k of a scatter over one-byte descriptors. */
  lemma {:induction false} ScatterSingle(big: bool, desc: seq<Desc>, v: Value32, k: nat)
    requires SingleBytes(desc) && k < |desc| && Plain(desc)
    ensures Scatter(big, desc, v)[k] == [ByteAt(v, if big then |desc| - 1 - k else k)]
    decreases |desc|
  {
    hide Scatter, Split, Shr, Low, ByteAt, Plain, Bits;
    SingleBytesPlain(desc[1..]);
    ScatterStep(big, desc, v);
    if k == 0 {
      SplitOne(v, if big then |desc| - 1 else 0, desc[0].big);
    } else if big {
      ScatterSingle(big, desc[1..], v, k - 1);
    } else {
      ScatterSingle(big, desc[1..], Shr(v, 8), k - 1);
      ByteAtShr(v, k);
    }
  }

  lemma SplitOne(v: Value32, k: nat, big: bool)
    requires k < 4
    ensures Split(Low(Shr(v, 8 * k), 8), 1, big) == [ByteAt(v, k)]
    ensures k == 0 ==> Split(Low(v, 8), 1, big) == [ByteAt(v, 0)]
  {
    assert ByteAt(Low(Shr(v, 8 * k), 8), 0) == ByteAt(v, k);
    assert ByteAt(Low(v, 8), 0) == ByteAt(v, 0);
  }

  lemma ByteAtShr(v: Value32, k: nat)
    requires 0 < k < 4
    ensures ByteAt(Shr(v, 8), k - 1) == ByteAt(v, k)
  {
  }

  /** The write-once form leaves the registers as the register-by-register form does. */
  lemma OnceIsScatter(desc: seq<Desc>, v: Value32, big: bool)
    requires SingleBytes(desc)
    ensures Plain(desc) && HandOut(Split(v, |desc|, big)) == Scatter(big, desc, v)
  {
    hide Scatter;
    SingleBytesPlain(desc);
    forall k | 0 <= k < |desc| ensures HandOut(Split(v, |desc|, big))[k] == Scatter(big, desc, v)[k] {
      ScatterSingle(big, desc, v, k);
    }
  }

  // ---- the access itself ----

  /** One turn of the read loop at index i. */
  lemma GatherAt(readBig: bool, desc: seq<Desc>, regs: seq<Register>, i: nat, val: Value32, shift: nat)
    requires i < |desc| == |regs| && Plain(desc[i..]) && Holds(desc[i..], regs[i..]) && shift + Bits(desc[i..]) <= WIDTH
    ensures 1 <= |regs[i]| <= 4 && Plain(desc[i + 1..]) && Holds(desc[i + 1..], regs[i + 1..])
    ensures var shift' := shift + desc[i].ndata * 8;
      && shift <= WIDTH && shift' + Bits(desc[i + 1..]) <= WIDTH
      && var data := Assemble(regs[i], desc[i].big);
         Gather(readBig, desc[i..], regs[i..], val, shift)
           == Gather(readBig, desc[i + 1..], regs[i + 1..],
                     if readBig then Or(Shl(val, shift), data) else Or(val, Shl(data, shift)), shift')
  {
    hide Gather, Assemble, Or, Shl, Bits;
    assert desc[i..][0] == desc[i] && regs[i..][0] == regs[i];
    assert desc[i..][1..] == desc[i + 1..] && regs[i..][1..] == regs[i + 1..];
    GatherStep(readBig, desc[i..], regs[i..], val, shift);
  }

  /** The value the registers hold. */
  function Reading(access: Access, regs: seq<Register>): Value32
    requires Plain(access.desc) && Holds(access.desc, regs)
  {
    Gather(access.readBig, access.desc, regs, Zeros(WIDTH), 0)
  }

  /** Before turn i the read loop has still to gather the registers from i on. */
  predicate Gathering(access: Access, regs: seq<Register>, i: nat, val: Value32, shift: nat)
    requires Plain(access.desc) && Holds(access.desc, regs)
  {
    && i <= |access.desc| == |regs|
    && Plain(access.desc[i..]) && Holds(access.desc[i..], regs[i..]) && shift + Bits(access.desc[i..]) <= WIDTH
    && Gather(access.readBig, access.desc[i..], regs[i..], val, shift) == Reading(access, regs)
  }

  lemma GatheringStarts(access: Access, regs: seq<Register>)
    requires Plain(access.desc) && Holds(access.desc, regs)
    ensures Gathering(access, regs, 0, Zeros(WIDTH), 0)
  {
    assert access.desc[0..] == access.desc && regs[0..] == regs;
  }

  lemma GatheringGoesOn(access: Access, regs: seq<Register>, i: nat, val: Value32, shift: nat)
    requires Plain(access.desc) && Holds(access.desc, regs) && Gathering(access, regs, i, val, shift) && i < |access.desc|
    ensures i < |regs| && 1 <= |regs[i]| <= 4 && shift <= WIDTH
    ensures var data := Assemble(regs[i], access.desc[i].big);
      Gathering(access, regs, i + 1, if access.readBig then Or(Shl(val, shift), data) else Or(val, Shl(data, shift)),
                shift + access.desc[i].ndata * 8)
  {
    hide Gather, Assemble, Or, Shl, Bits, Plain, Holds;
    GatherAt(access.readBig, access.desc, regs, i, val, shift);
  }

  lemma GatheringEnds(access: Access, regs: seq<Register>, val: Value32, shift: nat)
    requires Plain(access.desc) && Holds(access.desc, regs) && Gathering(access, regs, |access.desc|, val, shift)
    ensures val == Reading(access, regs)
  {
    hide Gather, Plain, Holds;
    GatherNone(access.readBig, access.desc[|access.desc|..], regs[|access.desc|..], val, shift);
  }

  /** spi_nor_read_reg_acc on registers that hold the right number of bytes, with no transfer failing. */
  method ReadAcc(access: Access, regs: seq<Register>) returns (val: Value32)
    requires Plain(access.desc) && Holds(access.desc, regs)
    ensures val == Reading(access, regs)
  {
    hide *;
    GatheringStarts(access, regs);
    val := Zeros(WIDTH);
    var shift: nat := 0;
    for i := 0 to |access.desc|
      invariant Gathering(access, regs, i, val, shift)
    {
      GatheringGoesOn(access, regs, i, val, shift);
      var data := Assemble(regs[i], access.desc[i].big);
      if access.readBig {
        val := Shl(val, shift);
        val := Or(val, data);
      } else {
        val := Or(val, Shl(data, shift));
      }
      shift := shift + access.desc[i].ndata * 8;
    }
    GatheringEnds(access, regs, val, shift);
  }

  lemma GatherNone(readBig: bool, desc: seq<Desc>, regs: seq<Register>, val: Value32, shift: nat)
    requires desc == [] && regs == [] && shift <= WIDTH
    ensures Gather(readBig, desc, regs, val, shift) == val
  {
  }

  /** The bits of all descriptors together, as the loop in front of a big-endian write counts them. */
  method CountBits(desc: seq<Desc>) returns (shift: nat)
    ensures shift == Bits(desc)
  {
    shift := 0;
    for i := 0 to |desc|
      invariant shift == Bits(desc[..i])
    {
      shift := shift + desc[i].ndata * 8;
      BitsSnoc(desc, i);
    }
    assert desc[..|desc|] == desc;
  }

  /** The write-once branch: a single operation carries the bytes of all registers. */
  method WriteOnce(desc: seq<Desc>, val: Value32) returns (regs: seq<Register>)
    requires desc != [] && SingleBytes(desc)
    ensures regs == HandOut(Split(val, |desc|, desc[0].big))
  {
    var ndata := 0;
    for i := 0 to |desc|
      invariant ndata == i
    {
      ndata := ndata + desc[i].ndata;
    }
    regs := HandOut(Split(val, ndata, desc[0].big));
  }

  /** The register-by-register branch. */
  method WriteEach(writeBig: bool, desc: seq<Desc>, val0: Value32) returns (regs: seq<Register>)
    requires Plain(desc)
    ensures regs == Scatter(writeBig, desc, val0)
  {
    hide Scatter, Low, Shr, Split, Assemble;
    regs := [];
    var val: Value32, shift: nat := val0, 0;
    if writeBig {
      shift := CountBits(desc);
    }
    assert desc[0..] == desc;
    for i := 0 to |desc|
      invariant |regs| == i && Plain(desc[i..])
      invariant writeBig ==> shift == Bits(desc[i..]) && val == val0
      invariant regs + Scatter(writeBig, desc[i..], val) == Scatter(writeBig, desc, val0)
    {
      var d := desc[i];
      var bits := d.ndata * 8;
      ScatterStep(writeBig, desc[i..], val);
      assert desc[i..][1..] == desc[i + 1..];
      ghost var was := val;
      var data: Value32;
      if writeBig {
        shift := shift - bits;
        data := Low(Shr(val, shift), bits);
      } else {
        data := Low(val, bits);
        val := Shr(val, bits);
      }
      MoveOne(regs, Scatter(writeBig, desc[i..], was), Split(data, d.ndata, d.big), Scatter(writeBig, desc[i + 1..], val));
      regs := regs + [Split(data, d.ndata, d.big)];
    }
    ScatterNone(writeBig, desc[|desc|..], val);
    assert regs + [] == regs;
  }

  lemma MoveOne(done: seq<Register>, todo: seq<Register>, next: Register, rest: seq<Register>)
    requires todo == [next] + rest
    ensures (done + [next]) + rest == done + todo
  {
  }

  /** spi_nor_write_reg_acc, with no transfer failing. */
  method WriteAcc(access: Access, val: Value32) returns (regs: seq<Register>)
    requires Plain(access.desc) && (access.once ==> access.desc != [] && SingleBytes(access.desc))
    ensures Holds(access.desc, regs)
    ensures access.once ==> regs == HandOut(Split(val, |access.desc|, access.desc[0].big))
    ensures !access.once ==> regs == Scatter(access.writeBig, access.desc, val)
  {
    hide Scatter, Split;
    if access.once {
      regs := WriteOnce(access.desc, val);
    } else {
      regs := WriteEach(access.writeBig, access.desc, val);
    }
  }

  lemma ScatterNone(big: bool, desc: seq<Desc>, v: Value32)
    requires desc == []
    ensures Scatter(big, desc, v) == []
  {
  }

  lemma {:induction false} BitsSplit(desc: seq<Desc>, n: nat)
    requires n <= |desc|
    ensures Bits(desc) == Bits(desc[..n]) + Bits(desc[n..])
    decreases n
  {
    if n == 0 {
      assert desc[0..] == desc && desc[..0] == [];
    } else {
      BitsSplit(desc[1..], n - 1);
      assert desc[..n][1..] == desc[1..][..n - 1] && desc[n..] == desc[1..][n - 1..];
    }
  }

  lemma BitsSnoc(desc: seq<Desc>, n: nat)
    requires n < |desc|
    ensures Bits(desc[..n + 1]) == Bits(desc[..n]) + 8 * desc[n].ndata
  {
    BitsSplit(desc[..n + 1], n);
    assert desc[..n + 1][..n] == desc[..n] && desc[..n + 1][n..] == [desc[n]];
    assert [desc[n]][1..] == [];
  }

  /** The orders in which a write can be read back. */
  predicate RoundTrips(access: Access) {
    if access.once then
      access.desc != [] && SingleBytes(access.desc) && access.desc[0].big == access.readBig
      && (access.readBig ==> BigWorks(access.desc))
    else
      Plain(access.desc) && access.writeBig == access.readBig && (access.readBig ==> BigWorks(access.desc))
  }

  /** What the registers hold after writing v reads back as v. */
  lemma WrittenReadsBack(access: Access, v: Value32)
    requires Plain(access.desc) && RoundTrips(access) && FitsIn(v, access.desc)
    ensures var regs := if access.once then HandOut(Split(v, |access.desc|, access.desc[0].big))
                        else Scatter(access.writeBig, access.desc, v);
      && Holds(access.desc, regs) && Reading(access, regs) == v
  {
    if access.once {
      OnceIsScatter(access.desc, v, access.desc[0].big);
    }
    if access.readBig {
      BigRoundTripIff(access.desc);
    } else {
      LittleRoundTrip(access.desc, v);
    }
  }

  /** spi_nor_update_reg_acc: afterwards the register reads as before with the bits of clr cleared, then those of set set;
      nothing is written when that changes nothing. */
  method UpdateAcc(access: Access, regs: seq<Register>, clr: Value32, set_: Value32)
    returns (regs': seq<Register>, wrote: bool)
    requires Plain(access.desc) && Holds(access.desc, regs) && RoundTrips(access) && FitsIn(set_, access.desc)
    ensures Holds(access.desc, regs')
    ensures var val := Reading(access, regs);
      var val' := Reading(access, regs');
      && (forall i | 0 <= i < WIDTH :: val'[i] == (if set_[i] then true else if clr[i] then false else val[i]))
      && (wrote <==> val' != val) && (!wrote ==> regs' == regs)
  {
    var val := ReadAcc(access, regs);
    var new_ := Or(AndNot(val, clr), set_);
    if new_ == val {
      return regs, false;
    }
    ReadingFits(access, regs);
    FitsUpdate(access.desc, val, clr, set_);
    WrittenReadsBack(access, new_);
    regs' := WriteAcc(access, new_);
    wrote := true;
  }

  lemma AssembleFits(data: seq<Byte>, big: bool)
    requires |data| == 1 || |data| == 2
    ensures Low(Assemble(data, big), 8 * |data|) == Assemble(data, big)
  {
  }

  lemma TurnFits(readBig: bool, val: Value32, data: Value32, shift: nat, bits: nat)
    requires shift + bits <= WIDTH && Low(val, shift) == val && Low(data, bits) == data
    requires readBig ==> shift == 0 || shift == bits
    ensures var next := if readBig then Or(Shl(val, shift), data) else Or(val, Shl(data, shift));
      Low(next, shift + bits) == next
  {
    forall i | 0 <= i < WIDTH ensures (i < WIDTH - shift ==> !val[i]) && (i < WIDTH - bits ==> !data[i]) {
      assert val[i] == Low(val, shift)[i] && data[i] == Low(data, bits)[i];
    }
  }

  lemma GatherNothing(readBig: bool, desc: seq<Desc>, regs: seq<Register>, val: Value32, shift: nat)
    requires Plain(desc) && Holds(desc, regs) && shift + Bits(desc) <= WIDTH
    ensures shift <= WIDTH && (desc == [] ==> Gather(readBig, desc, regs, val, shift) == val && Bits(desc) == 0)
  {
  }

  lemma HeadFits(desc: seq<Desc>, regs: seq<Register>, shift: nat)
    requires Plain(desc) && Holds(desc, regs) && desc != []
    ensures regs != [] && |regs[0]| == desc[0].ndata && (desc[0].ndata == 1 || desc[0].ndata == 2)
    ensures Doubling(desc, shift) ==>
      (shift == 0 || shift == 8 * desc[0].ndata) && Doubling(desc[1..], shift + 8 * desc[0].ndata)
  {
  }

  /** What is gathered takes no more bits than the registers have. */
  lemma {:induction false} GatherFits(readBig: bool, desc: seq<Desc>, regs: seq<Register>, val: Value32, shift: nat)
    requires Plain(desc) && Holds(desc, regs) && shift + Bits(desc) <= WIDTH
    requires Low(val, shift) == val && (readBig ==> Doubling(desc, shift))
    ensures Low(Gather(readBig, desc, regs, val, shift), shift + Bits(desc)) == Gather(readBig, desc, regs, val, shift)
    decreases |desc|
  {
    hide *;
    GatherNothing(readBig, desc, regs, val, shift);
    if desc != [] {
      GatherStep(readBig, desc, regs, val, shift);
      HeadFits(desc, regs, shift);
      AssembleFits(regs[0], desc[0].big);
      var data := Assemble(regs[0], desc[0].big);
      TurnFits(readBig, val, data, shift, 8 * desc[0].ndata);
      GatherFits(readBig, desc[1..], regs[1..], if readBig then Or(Shl(val, shift), data) else Or(val, Shl(data, shift)),
                 shift + 8 * desc[0].ndata);
    }
  }

  lemma PlainStarts(desc: seq<Desc>)
    requires Plain(desc)
    ensures Bits(desc) <= WIDTH && Low(Zeros(WIDTH), 0) == Zeros(WIDTH)
  {
  }

  /** In the orders in which a write can be read back, a reading fits the registers it comes from. */
  lemma ReadingFits(access: Access, regs: seq<Register>)
    requires Plain(access.desc) && Holds(access.desc, regs) && RoundTrips(access)
    ensures FitsIn(Reading(access, regs), access.desc)
  {
    hide Low, Bits, Plain, Holds, Gather, Doubling, BigWorks, SingleBytes;
    PlainStarts(access.desc);
    if access.readBig {
      BigWorksDoubles(access.desc);
    }
    GatherFits(access.readBig, access.desc, regs, Zeros(WIDTH), 0);
  }

  lemma FitsUpdate(desc: seq<Desc>, val: Value32, clr: Value32, set_: Value32)
    requires FitsIn(val, desc) && FitsIn(set_, desc)
    ensures FitsIn(Or(AndNot(val, clr), set_), desc)
  {
    forall i | 0 <= i < WIDTH - Bits(desc) ensures !val[i] && !set_[i] {
      assert val[i] == Low(val, Bits(desc))[i] && set_[i] == Low(set_, Bits(desc))[i];
    }
  }
}
