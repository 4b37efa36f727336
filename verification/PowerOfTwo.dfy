/** Divisibility facts about powers of two, the arithmetic behind block alignment.
    Rounding an address with the mask ~(n - 1) is written here as subtracting the remainder by n. */
module PowerOfTwo {

  /** is_power_of_2: a positive number that halves evenly down to one. */
  predicate IsPow2(n: nat) {
    n == 1 || (n > 1 && n % 2 == 0 && IsPow2(n / 2))
  }

  function AlignDown(x: nat, n: nat): (r: nat)
    requires n > 0
    ensures r <= x < r + n && r % n == 0
  {
    MultipleMod(x / n, n);
    x / n * n
  }

  function AlignUp(x: nat, n: nat): (r: nat)
    requires n > 0
    ensures x <= r < x + n && r % n == 0
  {
    AlignDown(x + n - 1, n)
  }

  lemma MultipleMod(q: int, n: nat)
    requires n > 0
    ensures q * n % n == 0
  {
    DivModUnique(q * n, n, q, 0);
  }

  lemma DivModUnique(x: int, n: int, q: int, r: int)
    requires 0 <= r < n && x == q * n + r
    ensures x / n == q && x % n == r
  {
    var k := x / n - q;
    assert k * n == r - x % n by {
      assert x == n * (x / n) + x % n;
      assert k * n == (x / n) * n - q * n;
    }
    SmallMultiple(k, n);
  }

  /** The only multiple of n nearer to zero than n is zero. */
  lemma SmallMultiple(k: int, n: int)
    requires -n < k * n < n
    ensures k == 0
  {
    if k > 0 {
      AtLeastOnce(k, n);
    } else if k < 0 {
      AtLeastOnce(-k, n);
    }
  }

  lemma AtLeastOnce(k: int, n: int)
    requires k > 0 && n >= 0
    ensures k * n >= n
  {
    assert k * n == (k - 1) * n + n;
  }

  /** Adding a multiple of n does not change the remainder. */
  lemma ModAdd(x: int, y: int, n: nat)
    requires n > 0 && x % n == 0
    ensures (x + y) % n == y % n
  {
    var q := x / n;
    assert x == q * n;
    assert x + y == (q + y / n) * n + y % n;
    DivModUnique(x + y, n, q + y / n, y % n);
  }

  lemma ModSub(x: int, y: int, n: nat)
    requires n > 0 && x % n == 0
    ensures (y - x) % n == y % n
  {
    var q := x / n;
    assert x == q * n;
    assert y - x == (y / n - q) * n + y % n;
    DivModUnique(y - x, n, y / n - q, y % n);
  }

  /** A multiple of n at or below x is at or below x rounded down. */
  lemma AlignDownLargest(x: nat, n: nat, m: nat)
    requires n > 0 && m % n == 0 && m <= x
    ensures m <= AlignDown(x, n)
  {
    if AlignDown(x, n) < m {
      MultiplesApart(AlignDown(x, n), m, n);
    }
  }

  lemma AlignDownUnique(x: nat, n: nat, r: nat)
    requires n > 0 && r % n == 0 && r <= x < r + n
    ensures AlignDown(x, n) == r
  {
    AlignDownLargest(x, n, r);
    if r < AlignDown(x, n) {
      MultiplesApart(r, AlignDown(x, n), n);
    }
  }

  /** Rounding down from a base that is itself a multiple of n is rounding down from zero. */
  lemma AlignDownFrom(base: nat, x: nat, n: nat)
    requires n > 0 && base % n == 0 && base <= x
    ensures base + AlignDown(x - base, n) == AlignDown(x, n)
  {
    ModAdd(base, AlignDown(x - base, n), n);
    AlignDownUnique(x, n, base + AlignDown(x - base, n));
  }

  lemma ModTransitive(x: int, b: nat, a: nat)
    requires a > 0 && b > 0 && x % b == 0 && b % a == 0
    ensures x % a == 0
  {
    var q, r := x / b, b / a;
    assert x == q * b && b == r * a;
    assert x == (q * r) * a;
    MultipleMod(q * r, a);
  }

  /** Two multiples of n that differ are at least n apart. */
  lemma MultiplesApart(x: int, y: int, n: nat)
    requires n > 0 && x % n == 0 && y % n == 0 && x < y
    ensures x + n <= y
  {
    var p, q := x / n, y / n;
    assert x == p * n && y == q * n;
    assert q <= p ==> q * n <= p * n;
    assert (p + 1) * n <= q * n;
  }

  /** The smaller of two powers of two divides the larger. */
  lemma {:induction false} Pow2Divides(a: nat, b: nat)
    requires IsPow2(a) && IsPow2(b) && a <= b
    ensures a > 0 && b % a == 0
  {
    if a == 1 {
    } else {
      Pow2Divides(a / 2, b / 2);
      var q := b / 2 / (a / 2);
      assert b / 2 == q * (a / 2);
      assert b == q * a;
      MultipleMod(q, a);
    }
  }
}
