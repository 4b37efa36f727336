/** CRC-32 in its reflected and its normal form: bit at a time, by table, and as the remainder of a division of
    polynomials over GF(2). Registers are words of 32 bits, message bytes words of 8. */
module Crc32 {
  import opened BitString

  const WIDTH := 32
  const ENTRIES := 256
  const REFLECTED_POLYNOMIAL := 0xEDB8_8320
  const NORMAL_POLYNOMIAL := 0x04C1_1DB7

  type Register = w: Word | |w| == WIDTH witness Zeros(WIDTH)
  type Byte = w: Word | |w| == 8 witness Zeros(8)

  /** A byte as an unsigned 32-bit number, and its low byte back. */
  function Widen(x: Byte): Register { Zeros(24) + x }

  function LowByte(v: Register): Byte { v[24..] }

  // ---- bit at a time ----

  function ReflectedStep(v: Register, poly: Register): Register {
    Xor(Shr(v, 1), if v[31] then poly else Zeros(WIDTH))
  }

  function NormalStep(v: Register, poly: Register): Register {
    Xor(Shl(v, 1), if v[0] then poly else Zeros(WIDTH))
  }

  function ReflectedSteps(v: Register, poly: Register, n: nat): Register {
    if n == 0 then v else ReflectedStep(ReflectedSteps(v, poly, n - 1), poly)
  }

  function NormalSteps(v: Register, poly: Register, n: nat): Register {
    if n == 0 then v else NormalStep(NormalSteps(v, poly, n - 1), poly)
  }

  /** The bit-at-a-time CRC of a message. */
  function Reflected(crc: Register, data: seq<Byte>, poly: Register): Register
    decreases |data|
  {
    if data == [] then crc
    else Reflected(ReflectedSteps(Xor(crc, Widen(data[0])), poly, 8), data[1..], poly)
  }

  function Normal(crc: Register, data: seq<Byte>, poly: Register): Register
    decreases |data|
  {
    if data == [] then crc
    else Normal(NormalSteps(Xor(crc, Shl(Widen(data[0]), 24)), poly, 8), data[1..], poly)
  }

  /** Checksumming a concatenation is chaining the checksums. */
  lemma {:induction false} ReflectedAppend(crc: Register, a: seq<Byte>, b: seq<Byte>, poly: Register)
    ensures Reflected(crc, a + b, poly) == Reflected(Reflected(crc, a, poly), b, poly)
    decreases |a|
  {
    if a == [] {
      assert a + b == b;
    } else {
      assert (a + b)[1..] == a[1..] + b;
      ReflectedAppend(ReflectedSteps(Xor(crc, Widen(a[0])), poly, 8), a[1..], b, poly);
    }
  }

  lemma {:induction false} NormalAppend(crc: Register, a: seq<Byte>, b: seq<Byte>, poly: Register)
    ensures Normal(crc, a + b, poly) == Normal(Normal(crc, a, poly), b, poly)
    decreases |a|
  {
    if a == [] {
      assert a + b == b;
    } else {
      assert (a + b)[1..] == a[1..] + b;
      NormalAppend(NormalSteps(Xor(crc, Shl(Widen(a[0]), 24)), poly, 8), a[1..], b, poly);
    }
  }

  function Ones(): Register { seq(WIDTH, _ => true) }

  /** crc32 and crc32_be: the register is complemented before and after, so that calls can be chained. */
  function Complemented(reflected: bool, crc: Register, data: seq<Byte>, poly: Register): Register {
    var start := Xor(crc, Ones());
    Xor(if reflected then Reflected(start, data, poly) else Normal(start, data, poly), Ones())
  }

  lemma ComplementTwice(v: Register)
    ensures Xor(Xor(v, Ones()), Ones()) == v
  {
  }

  lemma ComplementedAppend(reflected: bool, crc: Register, a: seq<Byte>, b: seq<Byte>, poly: Register)
    ensures Complemented(reflected, crc, a + b, poly)
         == Complemented(reflected, Complemented(reflected, crc, a, poly), b, poly)
  {
    hide Reflected, Normal, Xor, Ones;
    var start := Xor(crc, Ones());
    ReflectedAppend(start, a, b, poly);
    NormalAppend(start, a, b, poly);
    ComplementTwice(if reflected then Reflected(start, a, poly) else Normal(start, a, poly));
  }

  // ---- by table ----

  /** Entry i is what eight steps make of the byte i. */
  ghost predicate ReflectedTable(table: seq<Register>, poly: Register) {
    |table| == 256 && forall i | 0 <= i < 256 :: table[i] == ReflectedSteps(ToWord(i, WIDTH), poly, 8)
  }

  ghost predicate NormalTable(table: seq<Register>, poly: Register) {
    |table| == 256 && forall i | 0 <= i < 256 :: table[i] == NormalSteps(Shl(ToWord(i, WIDTH), 24), poly, 8)
  }

  /** The inner loop of crc32_reflected_init. */
  method ReflectedEntry(x: Register, poly: Register, bits: nat) returns (v: Register)
    ensures v == ReflectedSteps(x, poly, bits)
  {
    hide Xor, Shr;
    v := x;
    for j := 0 to bits
      invariant v == ReflectedSteps(x, poly, j)
    {
      v := Xor(Shr(v, 1), if v[31] then poly else Zeros(WIDTH));
    }
  }

  /** crc32_reflected_init */
  method ReflectedInit(table: array<Register>, poly: Register)
    requires table.Length == ENTRIES
    modifies table
    ensures ReflectedTable(table[..], poly)
  {
    hide ToWord, ReflectedSteps;
    for i := 0 to ENTRIES
      invariant forall k | 0 <= k < i :: table[k] == ReflectedSteps(ToWord(k, WIDTH), poly, 8)
    {
      table[i] := ReflectedEntry(ToWord(i, WIDTH), poly, 8);
    }
  }

  /** The inner loop of crc32_normal_init. */
  method NormalEntry(x: Register, poly: Register, bits: nat) returns (v: Register)
    ensures v == NormalSteps(x, poly, bits)
  {
    hide Xor, Shl;
    v := x;
    for j := 0 to bits
      invariant v == NormalSteps(x, poly, j)
    {
      v := Xor(Shl(v, 1), if v[0] then poly else Zeros(WIDTH));
    }
  }

  /** crc32_normal_init */
  method NormalInit(table: array<Register>, poly: Register)
    requires table.Length == ENTRIES
    modifies table
    ensures NormalTable(table[..], poly)
  {
    hide ToWord, NormalSteps, Shl;
    for i := 0 to ENTRIES
      invariant forall k | 0 <= k < i :: table[k] == NormalSteps(Shl(ToWord(k, WIDTH), 24), poly, 8)
    {
      table[i] := NormalEntry(Shl(ToWord(i, WIDTH), 24), poly, 8);
    }
  }

  /** crc32_reflected_cal: with a table for poly it is the bit-at-a-time CRC. */
  method ReflectedCal(crc0: Register, data: seq<Byte>, table: array<Register>, ghost poly: Register) returns (crc: Register)
    requires ReflectedTable(table[..], poly)
    ensures crc == Reflected(crc0, data, poly)
  {
    hide ReflectedSteps, Reflected, Value, ToWord;
    crc := crc0;
    ReflectedNone(crc0, poly);
    assert data[..0] == [];
    for n := 0 to |data|
      invariant crc == Reflected(crc0, data[..n], poly)
    {
      var x := LowByte(Xor(crc, Widen(data[n])));
      ByteIndex(x);
      ReflectedTableStep(crc, data[n], poly);
      NextByte(data, n);
      ReflectedAppend(crc0, data[..n], [data[n]], poly);
      ReflectedOne(crc, data[n], poly);
      assert table[..][Value(x)] == ReflectedSteps(ToWord(Value(x), WIDTH), poly, 8);
      crc := Xor(table[Value(x)], Shr(crc, 8));
    }
    assert data[..|data|] == data;
  }

  /** crc32_normal_cal: with a table for poly it is the bit-at-a-time CRC. */
  method NormalCal(crc0: Register, data: seq<Byte>, table: array<Register>, ghost poly: Register) returns (crc: Register)
    requires NormalTable(table[..], poly)
    ensures crc == Normal(crc0, data, poly)
  {
    hide NormalSteps, Normal, Value, ToWord;
    crc := crc0;
    NormalNone(crc0, poly);
    assert data[..0] == [];
    for n := 0 to |data|
      invariant crc == Normal(crc0, data[..n], poly)
    {
      var x := LowByte(Xor(Shr(crc, 24), Widen(data[n])));
      ByteIndex(x);
      NormalTableStep(crc, data[n], poly);
      NextByte(data, n);
      NormalAppend(crc0, data[..n], [data[n]], poly);
      NormalOne(crc, data[n], poly);
      assert table[..][Value(x)] == NormalSteps(Shl(ToWord(Value(x), WIDTH), 24), poly, 8);
      crc := Xor(table[Value(x)], Shl(crc, 8));
    }
    assert data[..|data|] == data;
  }

  lemma NextByte(data: seq<Byte>, n: nat)
    requires n < |data|
    ensures data[..n + 1] == data[..n] + [data[n]]
  {
  }

  lemma ReflectedNone(crc: Register, poly: Register)
    ensures Reflected(crc, [], poly) == crc
  {
  }

  lemma NormalNone(crc: Register, poly: Register)
    ensures Normal(crc, [], poly) == crc
  {
  }

  lemma ReflectedOne(crc: Register, x: Byte, poly: Register)
    ensures Reflected(crc, [x], poly) == ReflectedSteps(Xor(crc, Widen(x)), poly, 8)
  {
    hide ReflectedSteps;
    assert [x][1..] == [];
  }

  lemma NormalOne(crc: Register, x: Byte, poly: Register)
    ensures Normal(crc, [x], poly) == NormalSteps(Xor(crc, Shl(Widen(x), 24)), poly, 8)
  {
    hide NormalSteps;
    assert [x][1..] == [];
  }

  lemma ByteIndex(x: Byte)
    ensures Value(x) < ENTRIES && ToWord(Value(x), WIDTH) == Widen(x)
  {
    ValueBound(x);
    assert Power2(8) == 2 * Power2(7) && Power2(7) == 2 * Power2(6) && Power2(6) == 2 * Power2(5) && Power2(5) == 2 * Power2(4)
        && Power2(4) == 2 * Power2(3) && Power2(3) == 2 * Power2(2) && Power2(2) == 2 * Power2(1) && Power2(1) == 2;
    ToWordValue(x);
    ToWordWiden(Value(x), 8, WIDTH);
  }

  /** A step is linear over XOR. */
  lemma ReflectedStepLinear(a: Register, b: Register, poly: Register)
    ensures ReflectedStep(Xor(a, b), poly) == Xor(ReflectedStep(a, poly), ReflectedStep(b, poly))
  {
  }

  lemma NormalStepLinear(a: Register, b: Register, poly: Register)
    ensures NormalStep(Xor(a, b), poly) == Xor(NormalStep(a, poly), NormalStep(b, poly))
  {
  }

  lemma {:induction false} ReflectedLinear(a: Register, b: Register, poly: Register, n: nat)
    ensures ReflectedSteps(Xor(a, b), poly, n) == Xor(ReflectedSteps(a, poly, n), ReflectedSteps(b, poly, n))
  {
    hide ReflectedStep, Xor;
    if n > 0 {
      ReflectedLinear(a, b, poly, n - 1);
      ReflectedStepLinear(ReflectedSteps(a, poly, n - 1), ReflectedSteps(b, poly, n - 1), poly);
    }
  }

  lemma {:induction false} NormalLinear(a: Register, b: Register, poly: Register, n: nat)
    ensures NormalSteps(Xor(a, b), poly, n) == Xor(NormalSteps(a, poly, n), NormalSteps(b, poly, n))
  {
    hide NormalStep, Xor;
    if n > 0 {
      NormalLinear(a, b, poly, n - 1);
      NormalStepLinear(NormalSteps(a, poly, n - 1), NormalSteps(b, poly, n - 1), poly);
    }
  }

  lemma ReflectedShiftOne(w: Register, poly: Register)
    requires !w[31]
    ensures ReflectedStep(w, poly) == Shr(w, 1)
  {
  }

  lemma NormalShiftOne(w: Register, poly: Register)
    requires !w[0]
    ensures NormalStep(w, poly) == Shl(w, 1)
  {
  }

  /** Zero bits are shifted out without touching the polynomial. */
  lemma {:induction false} ReflectedShifts(v: Register, poly: Register, n: nat)
    requires n <= WIDTH && forall i | WIDTH - n <= i < WIDTH :: !v[i]
    ensures ReflectedSteps(v, poly, n) == Shr(v, n)
  {
    hide ReflectedStep;
    if n == 0 {
      assert Shr(v, 0) == v;
    } else {
      ReflectedShifts(v, poly, n - 1);
      var w: Register := Shr(v, n - 1);
      assert !w[31];
      ReflectedShiftOne(w, poly);
      assert Shr(w, 1) == Shr(v, n);
    }
  }

  lemma {:induction false} NormalShifts(v: Register, poly: Register, n: nat)
    requires n <= WIDTH && forall i | 0 <= i < n :: !v[i]
    ensures NormalSteps(v, poly, n) == Shl(v, n)
  {
    hide NormalStep;
    if n == 0 {
      assert Shl(v, 0) == v;
    } else {
      NormalShifts(v, poly, n - 1);
      var w: Register := Shl(v, n - 1);
      assert !w[0];
      NormalShiftOne(w, poly);
      assert Shl(w, 1) == Shl(v, n);
    }
  }

  /** One byte by table: the low byte through the table, the rest shifted down. */
  lemma ReflectedTableStep(crc: Register, x: Byte, poly: Register)
    ensures Xor(ReflectedSteps(Widen(LowByte(Xor(crc, Widen(x)))), poly, 8), Shr(crc, 8))
         == ReflectedSteps(Xor(crc, Widen(x)), poly, 8)
  {
    hide ReflectedSteps;
    var v := Xor(crc, Widen(x));
    var low, rest := Widen(LowByte(v)), v[..24] + Zeros(8);
    assert v == Xor(low, rest) && Shr(rest, 8) == Shr(crc, 8);
    ReflectedLinear(low, rest, poly, 8);
    ReflectedShifts(rest, poly, 8);
  }

  lemma NormalTableStep(crc: Register, x: Byte, poly: Register)
    ensures Xor(NormalSteps(Shl(Widen(LowByte(Xor(Shr(crc, 24), Widen(x)))), 24), poly, 8), Shl(crc, 8))
         == NormalSteps(Xor(crc, Shl(Widen(x), 24)), poly, 8)
  {
    hide NormalSteps;
    var v := Xor(crc, Shl(Widen(x), 24));
    var high, rest := v[..8] + Zeros(24), Zeros(8) + v[8..];
    assert v == Xor(high, rest) && Shl(rest, 8) == Shl(crc, 8);
    assert Shl(Widen(LowByte(Xor(Shr(crc, 24), Widen(x)))), 24) == high;
    NormalLinear(high, rest, poly, 8);
    NormalShifts(rest, poly, 8);
  }

  // ---- bit reversal ----

  function ReverseBytes(data: seq<Byte>): (r: seq<Byte>)
    ensures |r| == |data| && forall i | 0 <= i < |data| :: r[i] == Reverse(data[i])
  {
    seq(|data|, i requires 0 <= i < |data| => Reverse(data[i]))
  }

  lemma ReverseStep(v: Register, poly: Register)
    ensures Reverse(ReflectedStep(v, poly)) == NormalStep(Reverse(v), Reverse(poly))
  {
    assert Reverse(v)[0] == v[31];
    hide Reverse, Xor, Shr, Shl;
    ReverseXor(Shr(v, 1), if v[31] then poly else Zeros(WIDTH));
    ReverseShift(v, 1);
    ReverseZeros(WIDTH);
  }

  lemma {:induction false} ReverseSteps(v: Register, poly: Register, n: nat)
    ensures Reverse(ReflectedSteps(v, poly, n)) == NormalSteps(Reverse(v), Reverse(poly), n)
  {
    hide ReflectedStep, NormalStep, Reverse;
    if n > 0 {
      ReverseSteps(v, poly, n - 1);
      ReverseStep(ReflectedSteps(v, poly, n - 1), poly);
    }
  }

  lemma ReverseByte(crc: Register, x: Byte)
    ensures Reverse(Xor(crc, Widen(x))) == Xor(Reverse(crc), Shl(Widen(Reverse(x)), 24))
  {
  }

  /** The two forms are each other's mirror image. */
  lemma {:induction false} Duality(crc: Register, data: seq<Byte>, poly: Register)
    ensures Reverse(Reflected(crc, data, poly)) == Normal(Reverse(crc), ReverseBytes(data), Reverse(poly))
    decreases |data|
  {
    hide ReflectedSteps, NormalSteps;
    if data != [] {
      var next := ReflectedSteps(Xor(crc, Widen(data[0])), poly, 8);
      ReverseByte(crc, data[0]);
      ReverseSteps(Xor(crc, Widen(data[0])), poly, 8);
      Duality(next, data[1..], poly);
      assert ReverseBytes(data)[1..] == ReverseBytes(data[1..]);
    }
  }

  // ---- division of polynomials over GF(2), highest power first ----

  /** a with b added to its leading coefficients. */
  function AddLeading(a: Word, b: Word): (r: Word)
    requires |b| <= |a|
    ensures |r| == |a| && forall i | 0 <= i < |a| :: r[i] == (a[i] != (i < |b| && b[i]))
  {
    seq(|a|, i requires 0 <= i < |a| => if i < |b| then a[i] != b[i] else a[i])
  }

  /** The remainder of schoolbook division by p. */
  function Remainder(d: Word, p: Word): Word
    requires |p| > 0
    decreases |d|
  {
    if |d| < |p| then d
    else Remainder(DivideOnce(d, p), p)
  }

  /** The product q * p, |q| + |p| - 1 coefficients. */
  function Product(q: Word, p: Word): (r: Word)
    requires |p| > 0
    ensures |r| == |q| + |p| - 1
  {
    if q == [] then Zeros(|p| - 1)
    else AddLeading([false] + Product(q[1..], p), if q[0] then p else [])
  }

  /** a with r added to its trailing coefficients. */
  function AddTrailing(a: Word, r: Word): (d: Word)
    requires |r| <= |a|
    ensures |d| == |a| && forall i | 0 <= i < |d| :: d[i] == (a[i] != (i >= |a| - |r| && r[i - (|a| - |r|)]))
  {
    seq(|a|, i requires 0 <= i < |a| => if i < |a| - |r| then a[i] else a[i] != r[i - (|a| - |r|)])
  }

  /** q * p + r, with r in the lowest coefficients. */
  function Combine(q: Word, p: Word, r: Word): (d: Word)
    requires |p| == |r| + 1
    ensures |d| == |q| + |r|
  {
    AddTrailing(Product(q, p), r)
  }

  lemma ProductStep(q: Word, p: Word)
    requires q != [] && |p| > 0
    ensures Product(q, p) == AddLeading([false] + Product(q[1..], p), if q[0] then p else [])
  {
  }

  lemma ProductHead(q: Word, p: Word)
    requires q != [] && |p| > 0
    ensures Product(q, p)[0] == (q[0] && p[0])
  {
  }

  lemma ProductAt(q: Word, p: Word, i: nat)
    requires q != [] && |p| > 0 && i < |q| + |p| - 2
    ensures Product(q, p)[i + 1] == (Product(q[1..], p)[i] != (q[0] && i + 1 < |p| && p[i + 1]))
  {
    hide *;
    ProductStep(q, p);
    AddedAt(Product(q[1..], p), if q[0] then p else [], i);
  }

  lemma AddedAt(a: Word, b: Word, i: nat)
    requires |b| <= 1 + |a| && i < |a|
    ensures AddLeading([false] + a, b)[i + 1] == (a[i] != (i + 1 < |b| && b[i + 1]))
  {
  }

  /** One step of the division, undone: the leading coefficient of the quotient is that of the dividend. */
  lemma CombineCons(q: Word, p: Word, r: Word)
    requires q != [] && |p| == |r| + 1 && p[0]
    ensures Combine(q, p, r)[0] == q[0]
    ensures forall i | 0 <= i < |q| + |r| - 1 ::
              Combine(q, p, r)[i + 1] == (Combine(q[1..], p, r)[i] != (q[0] && i + 1 < |p| && p[i + 1]))
  {
    hide Product, AddTrailing;
    ProductHead(q, p);
    forall i | 0 <= i < |q| + |r| - 1
      ensures Combine(q, p, r)[i + 1] == (Combine(q[1..], p, r)[i] != (q[0] && i + 1 < |p| && p[i + 1]))
    {
      ProductAt(q, p, i);
      assert Combine(q, p, r)[i + 1] == (Product(q, p)[i + 1] != (i + 1 >= |q| && r[i + 1 - |q|]));
      assert Combine(q[1..], p, r)[i] == (Product(q[1..], p)[i] != (i >= |q| - 1 && r[i - (|q| - 1)]));
    }
  }

  /** What one step of the division leaves. */
  function DivideOnce(d: Word, p: Word): (r: Word)
    requires 0 < |p| <= |d|
    ensures |r| == |d| - 1
    ensures forall i | 0 <= i < |r| :: r[i] == (d[i + 1] != (d[0] && i + 1 < |p| && p[i + 1]))
  {
    if d[0] then AddLeading(d, p)[1..] else d[1..]
  }

  /** Division is right: some q has d == q * p + Remainder(d, p). */
  lemma {:induction false} RemainderExists(d: Word, p: Word) returns (q: Word)
    requires |p| > 0 && p[0] && |d| >= |p| - 1
    ensures |q| == |d| + 1 - |p| && |Remainder(d, p)| == |p| - 1
    ensures d == Combine(q, p, Remainder(d, p))
    decreases |d|
  {
    hide Combine, DivideOnce;
    if |d| < |p| {
      q := [];
      CombineNone(p, d);
    } else {
      var q' := RemainderExists(DivideOnce(d, p), p);
      q := [d[0]] + q';
      assert q[1..] == q';
      var r := Remainder(d, p);
      CombineCons(q, p, r);
      forall i | 0 <= i < |d| ensures d[i] == Combine(q, p, r)[i] {
        assert i > 0 ==> DivideOnce(d, p)[i - 1] == Combine(q', p, r)[i - 1]
                         && Combine(q, p, r)[i - 1 + 1] == (Combine(q', p, r)[i - 1] != (q[0] && i < |p| && p[i]));
      }
    }
  }

  lemma CombineNone(p: Word, r: Word)
    requires |p| == |r| + 1
    ensures Combine([], p, r) == r
  {
  }

  /** And it is the only such remainder. */
  lemma {:induction false} RemainderUnique(q: Word, p: Word, r: Word)
    requires |p| > 0 && p[0] && |r| == |p| - 1
    ensures Remainder(Combine(q, p, r), p) == r
    decreases |q|
  {
    hide Combine, DivideOnce;
    var d := Combine(q, p, r);
    if q == [] {
      CombineNone(p, r);
    } else {
      RemainderUnique(q[1..], p, r);
      CombineCons(q, p, r);
      assert DivideOnce(d, p) == Combine(q[1..], p, r);
    }
  }

  function MessageBits(data: seq<Byte>): (r: Word)
    ensures |r| == 8 * |data|
  {
    if data == [] then [] else data[0] + MessageBits(data[1..])
  }

  /** The dividend for register value crc and the message bits still to come. */
  function Dividend(crc: Register, message: Word): Word { AddLeading(message + Zeros(WIDTH), crc) }

  function Divisor(poly: Register): Word { [true] + poly }

  lemma DivideZeroBit(crc: Register, message: Word, poly: Register)
    ensures DivideOnce(Dividend(crc, [false] + message), Divisor(poly)) == Dividend(NormalStep(crc, poly), message)
  {
    hide DivideOnce;
  }

  /** Dividing one zero bit further is one step of the register. */
  lemma DivideStep(crc: Register, message: Word, poly: Register)
    ensures Remainder(Dividend(crc, [false] + message), Divisor(poly))
         == Remainder(Dividend(NormalStep(crc, poly), message), Divisor(poly))
  {
    hide DivideOnce, NormalStep;
    DivideZeroBit(crc, message, poly);
  }

  /** Adding a message byte to the register is the same as leaving it in the message. */
  lemma AbsorbByte(crc: Register, x: Byte, message: Word)
    ensures Dividend(crc, x + message) == Dividend(Xor(crc, Shl(Widen(x), 24)), Zeros(8) + message)
  {
  }

  lemma {:induction false} DivideSteps(crc: Register, message: Word, poly: Register, n: nat)
    ensures Remainder(Dividend(crc, Zeros(n) + message), Divisor(poly))
         == Remainder(Dividend(NormalSteps(crc, poly, n), message), Divisor(poly))
    decreases n
  {
    hide Remainder, Dividend, NormalStep;
    if n == 0 {
      assert Zeros(0) + message == message;
    } else {
      assert Zeros(n) + message == Zeros(n - 1) + ([false] + message);
      DivideSteps(crc, [false] + message, poly, n - 1);
      DivideStep(NormalSteps(crc, poly, n - 1), message, poly);
    }
  }

  /** The normal CRC is the remainder of the message, thirty-two zeros appended and the start value
      added to its leading bits, divided by the polynomial with its leading one. */
  lemma {:induction false} NormalIsRemainder(crc: Register, data: seq<Byte>, poly: Register)
    ensures Normal(crc, data, poly) == Remainder(Dividend(crc, MessageBits(data)), Divisor(poly))
    decreases |data|
  {
    hide Remainder, NormalSteps;
    if data == [] {
      EmptyMessage(crc, poly);
    } else {
      hide Dividend;
      var next := Xor(crc, Shl(Widen(data[0]), 24));
      AbsorbByte(crc, data[0], MessageBits(data[1..]));
      DivideSteps(next, MessageBits(data[1..]), poly, 8);
      NormalIsRemainder(NormalSteps(next, poly, 8), data[1..], poly);
    }
  }

  /** That is: the dividend is a multiple of the polynomial, x^32 included, plus the CRC, and this is the only such sum. */
  lemma NormalDivides(crc: Register, data: seq<Byte>, poly: Register) returns (q: Word)
    ensures Dividend(crc, MessageBits(data)) == Combine(q, [true] + poly, Normal(crc, data, poly))
    ensures forall q': Word, r: Register :: Dividend(crc, MessageBits(data)) == Combine(q', [true] + poly, r) ==>
              r == Normal(crc, data, poly)
  {
    assert |Dividend(crc, MessageBits(data))| == WIDTH + 8 * |data|;
    hide Remainder, Dividend, Combine, MessageBits;
    NormalIsRemainder(crc, data, poly);
    q := RemainderExists(Dividend(crc, MessageBits(data)), Divisor(poly));
    forall q': Word, r: Register | Dividend(crc, MessageBits(data)) == Combine(q', [true] + poly, r)
      ensures r == Normal(crc, data, poly)
    {
      RemainderUnique(q', Divisor(poly), r);
    }
  }

  lemma EmptyMessage(crc: Register, poly: Register)
    ensures Remainder(Dividend(crc, MessageBits([])), Divisor(poly)) == crc
  {
    assert Dividend(crc, []) == crc;
  }

  /** The reflected CRC is the same remainder of the mirrored message, read backwards. */
  lemma ReflectedIsRemainder(crc: Register, data: seq<Byte>, poly: Register)
    ensures Reverse(Reflected(crc, data, poly))
         == Remainder(Dividend(Reverse(crc), MessageBits(ReverseBytes(data))), Divisor(Reverse(poly)))
  {
    Duality(crc, data, poly);
    NormalIsRemainder(Reverse(crc), ReverseBytes(data), Reverse(poly));
  }

  lemma ReverseAppend(a: Word, b: Word)
    ensures Reverse(a + b) == Reverse(b) + Reverse(a)
  {
  }

  lemma ReverseEight(a: Word, b: Word, c: Word, d: Word, e: Word, f: Word, g: Word, h: Word)
    ensures Reverse(a + b + c + d + e + f + g + h)
         == Reverse(h) + (Reverse(g) + (Reverse(f) + (Reverse(e) + (Reverse(d) + (Reverse(c) + (Reverse(b) + Reverse(a)))))))
  {
    hide Reverse;
    ReverseAppend(a, b);
    ReverseAppend(a + b, c);
    ReverseAppend(a + b + c, d);
    ReverseAppend(a + b + c + d, e);
    ReverseAppend(a + b + c + d + e, f);
    ReverseAppend(a + b + c + d + e + f, g);
    ReverseAppend(a + b + c + d + e + f + g, h);
  }

  /** The two default polynomials are mirror images. */
  lemma DefaultPolynomials()
    ensures Reverse(ToWord(NORMAL_POLYNOMIAL, WIDTH)) == ToWord(REFLECTED_POLYNOMIAL, WIDTH)
  {
    hide ToWord, Reverse;
    var n := EightDigits(0, 4, 0xC, 1, 1, 0xD, 0xB, 7);
    var r := EightDigits(0xE, 0xD, 0xB, 8, 8, 3, 2, 0);
    ReverseEight(ToWord(0, 4), ToWord(4, 4), ToWord(0xC, 4), ToWord(1, 4),
                 ToWord(1, 4), ToWord(0xD, 4), ToWord(0xB, 4), ToWord(7, 4));
    MirrorDigit(0, 0); MirrorDigit(4, 2); MirrorDigit(0xC, 3); MirrorDigit(1, 8);
    MirrorDigit(0xD, 0xB); MirrorDigit(0xB, 0xD); MirrorDigit(7, 0xE);
    Associate(ToWord(0xE, 4), ToWord(0xD, 4), ToWord(0xB, 4), ToWord(8, 4),
              ToWord(8, 4), ToWord(3, 4), ToWord(2, 4), ToWord(0, 4));
  }

  lemma Associate(a: Word, b: Word, c: Word, d: Word, e: Word, f: Word, g: Word, h: Word)
    ensures a + (b + (c + (d + (e + (f + (g + h)))))) == a + b + c + d + e + f + g + h
  {
  }

  /** Two hexadecimal digits with their bits in opposite order. */
  lemma MirrorDigit(d: nat, m: nat)
    requires d < 16 && m < 16 && d / 8 == m % 2 && d / 4 % 2 == m / 2 % 2 && d / 2 % 2 == m / 4 % 2 && d % 2 == m / 8
    ensures Reverse(ToWord(d, 4)) == ToWord(m, 4)
  {
    hide ToWord;
    Digit(d);
    Digit(m);
  }

  lemma Digit(d: nat)
    requires d < 16
    ensures ToWord(d, 4) == [d / 8 == 1, d / 4 % 2 == 1, d / 2 % 2 == 1, d % 2 == 1]
  {
    hide ToWord;
    var zero, none: nat := 0, 0;
    FourBits(zero, none, d / 8 == 1, d / 4 % 2 == 1, d / 2 % 2 == 1, d % 2 == 1);
    assert ToWord(zero, none) == [];
  }

  lemma EightDigits(a: nat, b: nat, c: nat, d: nat, e: nat, f: nat, g: nat, h: nat) returns (w: Word)
    requires a < 16 && b < 16 && c < 16 && d < 16 && e < 16 && f < 16 && g < 16 && h < 16
    ensures w == ToWord(16 * (16 * (16 * (16 * (16 * (16 * (16 * a + b) + c) + d) + e) + f) + g) + h, 32)
    ensures w == ToWord(a, 4) + ToWord(b, 4) + ToWord(c, 4) + ToWord(d, 4)
               + ToWord(e, 4) + ToWord(f, 4) + ToWord(g, 4) + ToWord(h, 4)
  {
    hide ToWord;
    var v := 16 * a + b;
    ToWordDigit(a, b, 4);
    ToWordDigit(v, c, 8);
    v := 16 * v + c;
    ToWordDigit(v, d, 12);
    v := 16 * v + d;
    ToWordDigit(v, e, 16);
    v := 16 * v + e;
    ToWordDigit(v, f, 20);
    v := 16 * v + f;
    ToWordDigit(v, g, 24);
    v := 16 * v + g;
    ToWordDigit(v, h, 28);
    w := ToWord(16 * v + h, 32);
  }

  // ---- the two checksums the programmer uses ----

  /** Every bit the other way round. */
  function Negated(w: Word): (r: Word)
    ensures |r| == |w| && forall i | 0 <= i < |w| :: r[i] == !w[i]
  {
    seq(|w|, i requires 0 <= i < |w| => !w[i])
  }

  lemma ComplementIsNegated(v: Register)
    ensures Xor(v, Ones()) == Negated(v)
  {
  }

  /** The big-endian checksum is the remainder with every bit negated, started from the negated register;
      the other one is that of the mirrored message and polynomial, read backwards. */
  lemma ComplementedIsRemainder(crc: Register, data: seq<Byte>, poly: Register)
    ensures Complemented(false, crc, data, poly)
         == Negated(Remainder(Dividend(Negated(crc), MessageBits(data)), Divisor(poly)))
    ensures Reverse(Complemented(true, crc, data, poly))
         == Negated(Remainder(Dividend(Reverse(Negated(crc)), MessageBits(ReverseBytes(data))), Divisor(Reverse(poly))))
  {
    hide Reflected, Normal, Remainder, Dividend, MessageBits, Divisor, Xor, Ones;
    ComplementIsNegated(crc);
    NormalIsRemainder(Negated(crc), data, poly);
    ComplementIsNegated(Normal(Negated(crc), data, poly));
    ReflectedIsRemainder(Negated(crc), data, poly);
    ComplementIsNegated(Reflected(Negated(crc), data, poly));
    var r := Reflected(Negated(crc), data, poly);
    assert Reverse(Negated(r)) == Negated(Reverse(r));
  }

  /** The coefficients of x^26 + x^23 + x^22 + x^16 + x^12 + x^11 + x^10 + x^8 + x^7 + x^5 + x^4 + x^2 + x + 1, which with
      x^32 in front is the polynomial of both checksums. */
  function Coefficients(): Register {
    seq(WIDTH, i requires 0 <= i < WIDTH => WIDTH - 1 - i in {26, 23, 22, 16, 12, 11, 10, 8, 7, 5, 4, 2, 1, 0})
  }

  lemma NormalCoefficients()
    ensures ToWord(NORMAL_POLYNOMIAL, WIDTH) == Coefficients()
  {
    hide ToWord;
    var n := EightDigits(0, 4, 0xC, 1, 1, 0xD, 0xB, 7);
    Digit(0); Digit(4); Digit(0xC); Digit(1); Digit(0xD); Digit(0xB); Digit(7);
  }

  /** crc32 of a message: coefficient 31 - i of the negated remainder is bit i. */
  predicate IsCrc32(crc: Register, data: seq<Byte>, r: Register) {
    Reverse(r) == Negated(Remainder(Dividend(Reverse(Negated(crc)), MessageBits(ReverseBytes(data))), Divisor(Coefficients())))
  }

  predicate IsCrc32Be(crc: Register, data: seq<Byte>, r: Register) {
    r == Negated(Remainder(Dividend(Negated(crc), MessageBits(data)), Divisor(Coefficients())))
  }

  lemma ComplementedIs(crc: Register, data: seq<Byte>)
    ensures var r := Xor(Reflected(Xor(crc, Ones()), data, ToWord(REFLECTED_POLYNOMIAL, WIDTH)), Ones());
      IsCrc32(crc, data, r) && r == Complemented(true, crc, data, ToWord(REFLECTED_POLYNOMIAL, WIDTH))
    ensures var r := Xor(Normal(Xor(crc, Ones()), data, ToWord(NORMAL_POLYNOMIAL, WIDTH)), Ones());
      IsCrc32Be(crc, data, r) && r == Complemented(false, crc, data, ToWord(NORMAL_POLYNOMIAL, WIDTH))
  {
    hide ToWord, Reverse, Reflected, Normal, Remainder, Dividend, MessageBits, Divisor, Xor, Ones, Coefficients, Negated;
    DefaultPolynomials();
    NormalCoefficients();
    ReverseTwice(ToWord(NORMAL_POLYNOMIAL, WIDTH));
    ComplementedIsRemainder(crc, data, ToWord(REFLECTED_POLYNOMIAL, WIDTH));
    ComplementedIsRemainder(crc, data, ToWord(NORMAL_POLYNOMIAL, WIDTH));
  }

  /** The two static tables. */
  class Tables {
    const reflected: array<Register>
    const normal: array<Register>
    var made: bool

    constructor ()
      ensures !made && Valid() && fresh(reflected) && fresh(normal)
    {
      reflected, normal, made := new Register[ENTRIES](_ => Zeros(WIDTH)), new Register[ENTRIES](_ => Zeros(WIDTH)), false;
    }

    ghost predicate Valid()
      reads this, reflected, normal
    {
      && reflected != normal && reflected.Length == normal.Length == ENTRIES
      && (made ==> ReflectedTable(reflected[..], ToWord(REFLECTED_POLYNOMIAL, WIDTH))
                   && NormalTable(normal[..], ToWord(NORMAL_POLYNOMIAL, WIDTH)))
    }

    /** make_crc_table */
    method Make()
      requires Valid()
      modifies this, reflected, normal
      ensures Valid() && made
    {
      hide ToWord, ReflectedTable, NormalTable;
      if made {
        return;
      }
      ReflectedInit(reflected, ToWord(REFLECTED_POLYNOMIAL, WIDTH));
      NormalInit(normal, ToWord(NORMAL_POLYNOMIAL, WIDTH));
      made := true;
    }

    /** crc32_no_comp and crc32_be_no_comp */
    method NoComp(crc: Register, data: seq<Byte>) returns (r: Register)
      requires Valid() && made
      ensures r == Reflected(crc, data, ToWord(REFLECTED_POLYNOMIAL, WIDTH))
    {
      r := ReflectedCal(crc, data, reflected, ToWord(REFLECTED_POLYNOMIAL, WIDTH));
    }

    method BeNoComp(crc: Register, data: seq<Byte>) returns (r: Register)
      requires Valid() && made
      ensures r == Normal(crc, data, ToWord(NORMAL_POLYNOMIAL, WIDTH))
    {
      r := NormalCal(crc, data, normal, ToWord(NORMAL_POLYNOMIAL, WIDTH));
    }

    /** crc32 */
    method Crc(crc: Register, data: seq<Byte>) returns (r: Register)
      requires Valid() && made
      ensures IsCrc32(crc, data, r) && r == Complemented(true, crc, data, ToWord(REFLECTED_POLYNOMIAL, WIDTH))
    {
      hide *;
      ComplementedIs(crc, data);
      r := NoComp(Xor(crc, Ones()), data);
      r := Xor(r, Ones());
    }

    /** crc32_be */
    method CrcBe(crc: Register, data: seq<Byte>) returns (r: Register)
      requires Valid() && made
      ensures IsCrc32Be(crc, data, r) && r == Complemented(false, crc, data, ToWord(NORMAL_POLYNOMIAL, WIDTH))
    {
      hide *;
      ComplementedIs(crc, data);
      r := BeNoComp(Xor(crc, Ones()), data);
      r := Xor(r, Ones());
    }
  }
}
