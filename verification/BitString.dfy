/** Machine words as their bits, most significant first. */
module BitString {

  type Word = seq<bool>

  function Zeros(n: nat): (r: Word)
    ensures |r| == n
  {
    seq(n, _ => false)
  }

  function Xor(a: Word, b: Word): (r: Word)
    requires |a| == |b|
    ensures |r| == |a| && forall i | 0 <= i < |r| :: r[i] == (a[i] != b[i])
  {
    seq(|a|, i requires 0 <= i < |a| => a[i] != b[i])
  }

  function Or(a: Word, b: Word): (r: Word)
    requires |a| == |b|
    ensures |r| == |a| && forall i | 0 <= i < |r| :: r[i] == (a[i] || b[i])
  {
    seq(|a|, i requires 0 <= i < |a| => a[i] || b[i])
  }

  function And(a: Word, b: Word): (r: Word)
    requires |a| == |b|
    ensures |r| == |a| && forall i | 0 <= i < |r| :: r[i] == (a[i] && b[i])
  {
    seq(|a|, i requires 0 <= i < |a| => a[i] && b[i])
  }

  function AndNot(a: Word, b: Word): (r: Word)
    requires |a| == |b|
    ensures |r| == |a| && forall i | 0 <= i < |r| :: r[i] == (a[i] && !b[i])
  {
    seq(|a|, i requires 0 <= i < |a| => a[i] && !b[i])
  }

  /** The low n bits, the others cleared. */
  function Low(a: Word, n: nat): (r: Word)
    requires n <= |a|
    ensures |r| == |a| && forall i | 0 <= i < |r| :: r[i] == (i >= |a| - n && a[i])
  {
    Zeros(|a| - n) + a[|a| - n..]
  }

  function Shr(a: Word, n: nat): (r: Word)
    requires n <= |a|
    ensures |r| == |a| && forall i | 0 <= i < |r| :: r[i] == (i >= n && a[i - n])
  {
    Zeros(n) + a[..|a| - n]
  }

  function Shl(a: Word, n: nat): (r: Word)
    requires n <= |a|
    ensures |r| == |a| && forall i | 0 <= i < |r| :: r[i] == (i + n < |a| && a[i + n])
  {
    a[n..] + Zeros(n)
  }

  function Reverse(a: Word): (r: Word)
    ensures |r| == |a| && forall i | 0 <= i < |r| :: r[i] == a[|a| - 1 - i]
  {
    seq(|a|, i requires 0 <= i < |a| => a[|a| - 1 - i])
  }

  lemma ReverseXor(a: Word, b: Word)
    requires |a| == |b|
    ensures Reverse(Xor(a, b)) == Xor(Reverse(a), Reverse(b))
  {
  }

  lemma ReverseShift(a: Word, n: nat)
    requires n <= |a|
    ensures Reverse(Shr(a, n)) == Shl(Reverse(a), n)
  {
  }

  lemma ReverseZeros(n: nat)
    ensures Reverse(Zeros(n)) == Zeros(n)
  {
  }

  lemma ReverseTwice(a: Word)
    ensures Reverse(Reverse(a)) == a
  {
  }

  /** The number a word stands for. */
  function Value(a: Word): nat {
    if a == [] then 0 else 2 * Value(a[..|a| - 1]) + (if a[|a| - 1] then 1 else 0)
  }

  /** The low n bits of a number. */
  function ToWord(v: nat, n: nat): (r: Word)
    ensures |r| == n
  {
    if n == 0 then [] else ToWord(v / 2, n - 1) + [v % 2 == 1]
  }

  function Power2(n: nat): (r: nat)
    ensures r > 0
  {
    if n == 0 then 1 else 2 * Power2(n - 1)
  }

  lemma {:induction false} ValueBound(a: Word)
    ensures Value(a) < Power2(|a|)
  {
    if a != [] {
      ValueBound(a[..|a| - 1]);
    }
  }

  lemma {:induction false} ToWordValue(a: Word)
    ensures ToWord(Value(a), |a|) == a
  {
    if a != [] {
      ToWordValue(a[..|a| - 1]);
    }
  }

  lemma {:induction false} ValueToWord(v: nat, n: nat)
    requires v < Power2(n)
    ensures Value(ToWord(v, n)) == v
  {
    if n > 0 {
      ValueToWord(v / 2, n - 1);
      assert ToWord(v, n)[..n - 1] == ToWord(v / 2, n - 1);
    }
  }

  /** A number below 2^m has zeros above its low m bits. */
  lemma {:induction false} ToWordWiden(v: nat, m: nat, n: nat)
    requires m <= n && v < Power2(m)
    ensures ToWord(v, n) == Zeros(n - m) + ToWord(v, m)
  {
    if m > 0 {
      ToWordWiden(v / 2, m - 1, n - 1);
    } else if n > 0 {
      ToWordWiden(0, 0, n - 1);
      assert ToWord(v, n) == Zeros(n - 1) + [false];
    }
  }

  lemma ToWordBit(v: nat, b: bool, n: nat)
    ensures ToWord(2 * v + (if b then 1 else 0), n + 1) == ToWord(v, n) + [b]
  {
  }

  /** Appending a hexadecimal digit appends its four bits. */
  lemma ToWordDigit(v: nat, d: nat, n: nat)
    requires d < 16
    ensures ToWord(16 * v + d, n + 4) == ToWord(v, n) + ToWord(d, 4)
  {
    hide ToWord;
    var b3, b2, b1, b0 := d / 8 == 1, d / 4 % 2 == 1, d / 2 % 2 == 1, d % 2 == 1;
    FourBits(v, n, b3, b2, b1, b0);
    var zero, none: nat := 0, 0;
    FourBits(zero, none, b3, b2, b1, b0);
    assert ToWord(zero, none) == [];
  }

  lemma FourBits(v: nat, n: nat, b3: bool, b2: bool, b1: bool, b0: bool)
    ensures ToWord(16 * v + (if b3 then 8 else 0) + (if b2 then 4 else 0) + (if b1 then 2 else 0) + (if b0 then 1 else 0), n + 4)
         == ToWord(v, n) + [b3, b2, b1, b0]
  {
    hide ToWord;
    ToWordBit(v, b3, n);
    var v1 := 2 * v + if b3 then 1 else 0;
    ToWordBit(v1, b2, n + 1);
    var v2 := 2 * v1 + if b2 then 1 else 0;
    ToWordBit(v2, b1, n + 2);
    ToWordBit(2 * v2 + if b1 then 1 else 0, b0, n + 3);
  }
}
