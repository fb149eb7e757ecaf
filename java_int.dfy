/**
 * The Java integer semantics the identifier arithmetic relies on, written out on
 * Dafny's unbounded integers: 64-bit two's-complement `long` values, wrap-around
 * addition and left shift, the arithmetic (`>>`) and logical (`>>>`) right shifts,
 * and the bitwise `&` and `|` operators.
 */
module JavaInt {

  const TWO_31: int := 0x8000_0000
  const TWO_32: int := 0x1_0000_0000
  const TWO_63: int := 0x8000_0000_0000_0000
  const TWO_64: int := 0x1_0000_0000_0000_0000

  /** A Java `long`. */
  type Long = x: int | -0x8000_0000_0000_0000 <= x < 0x8000_0000_0000_0000

  /** A Java `int`. */
  type Int = x: int | -0x8000_0000 <= x < 0x8000_0000

  /** 2^n. */
  function Pow2(n: nat): (r: nat)
    ensures r > 0
  {
    if n == 0 then 1 else 2 * Pow2(n - 1)
  }

  lemma {:induction false} Pow2Add(k: nat, m: nat)
    ensures Pow2(k + m) == Pow2(k) * Pow2(m)
    decreases m
  {
    if m > 0 {
      Pow2Add(k, m - 1);
      var a, b := Pow2(k), Pow2(m - 1);
      assert Pow2(k + m) == 2 * (a * b);
      assert a * Pow2(m) == a * (2 * b) == 2 * (a * b);
    }
  }

  lemma {:induction false} Pow2Monotone(k: nat, m: nat)
    requires k <= m
    ensures Pow2(k) <= Pow2(m)
    decreases m
  {
    if k < m {
      Pow2Monotone(k, m - 1);
    }
  }

  /** The powers of two the identifier layout uses. */
  lemma Pow2Literals()
    ensures Pow2(8) == 0x100 && Pow2(10) == 0x400 && Pow2(14) == 0x4000
    ensures Pow2(22) == 0x40_0000 && Pow2(24) == 0x100_0000 && Pow2(32) == TWO_32
    ensures Pow2(41) == 0x200_0000_0000 && Pow2(42) == 0x400_0000_0000
    ensures Pow2(62) == 0x4000_0000_0000_0000 && Pow2(63) == TWO_63 && Pow2(64) == TWO_64
  {
    assert Pow2(8) == 0x100 && Pow2(10) == 0x400;
    Pow2Add(8, 6);
    Pow2Add(8, 8);
    Pow2Add(16, 6);
    Pow2Add(16, 8);
    Pow2Add(16, 16);
    Pow2Add(32, 9);
    Pow2Add(32, 10);
    Pow2Add(32, 30);
    Pow2Add(32, 31);
    Pow2Add(32, 32);
    Pow2Add(16, 14);
    Pow2Add(16, 15);
  }

  lemma MulMonotone(x: int, y: int, d: int)
    requires x <= y && d > 0
    ensures x * d <= y * d
  {
    assert y * d - x * d == (y - x) * d;
  }

  /** If q * d <= a < (q + 1) * d then q is the quotient of a by d. */
  lemma QuotientBelow(a: int, d: int, q: int)
    requires d > 0 && q * d <= a
    ensures q <= a / d
  {
    var q' := a / d;
    assert a == q' * d + a % d;
    if q' < q {
      MulMonotone(q' + 1, q, d);
      assert false;
    }
  }

  lemma QuotientAbove(a: int, d: int, q: int)
    requires d > 0 && a < (q + 1) * d
    ensures a / d <= q
  {
    var q' := a / d;
    assert a == q' * d + a % d;
    if q' > q {
      MulMonotone(q + 1, q', d);
      assert false;
    }
  }

  /** Quotient and remainder are the unique q, r with a == q * d + r and 0 <= r < d. */
  lemma DivModUnique(a: int, d: int, q: int, r: int)
    requires d > 0 && 0 <= r < d && a == q * d + r
    ensures a / d == q && a % d == r
  {
    QuotientBelow(a, d, q);
    QuotientAbove(a, d, q);
    assert a == (a / d) * d + a % d;
  }

  /** Dividing by a positive number keeps the sign and does not grow the magnitude. */
  lemma DivBounds(x: int, p: int)
    requires p > 0
    ensures 0 <= x ==> 0 <= x / p <= x
    ensures x < 0 ==> x <= x / p < 0
  {
    if 0 <= x {
      QuotientBelow(x, p, 0);
      QuotientAbove(x, p, x);
    } else {
      QuotientBelow(x, p, x);
      QuotientAbove(x, p, -1);
    }
  }

  /** Two's-complement wrap-around: the `long` that is congruent to x modulo 2^64. */
  function Wrap(x: int): (r: Long)
    ensures -TWO_63 <= x < TWO_63 ==> r == x
  {
    (x + TWO_63) % TWO_64 - TWO_63
  }

  /** The 64-bit pattern of a `long`, read as an unsigned number. */
  function Unsigned(x: Long): (u: nat)
    ensures u < TWO_64
  {
    if x < 0 then x + TWO_64 else x
  }

  /** The `long` whose 64-bit pattern is u. */
  function Signed(u: nat): (x: Long)
    requires u < TWO_64
    ensures Unsigned(x) == u
  {
    if u < TWO_63 then u else u - TWO_64
  }

  /** Java `x + y` on `long`. */
  function Add(x: Long, y: Long): Long
  {
    Wrap(x + y)
  }

  /** Java `x << n` on `long`: only the low six bits of n are used. */
  function Shl(x: Long, n: int): Long
  {
    Wrap(x * Pow2(n % 64))
  }

  /** Java `x >> n` on `long`: the sign-extending shift, i.e. division rounded down. */
  function Shr(x: Long, n: int): Long
  {
    DivBounds(x, Pow2(n % 64));
    x / Pow2(n % 64)
  }

  /** Java `x >>> n` on `long`: the zero-filling shift of the 64-bit pattern. */
  function Ushr(x: Long, n: int): Long
  {
    DivBounds(Unsigned(x), Pow2(n % 64));
    Signed(Unsigned(x) / Pow2(n % 64))
  }

  /** Bitwise and of two unsigned numbers, one bit at a time from the least significant. */
  function BitAnd(a: nat, b: nat): (r: nat)
    ensures r <= a && r <= b
    decreases a
  {
    if a == 0 || b == 0 then 0
    else 2 * BitAnd(a / 2, b / 2) + (if a % 2 == 1 && b % 2 == 1 then 1 else 0)
  }

  /** Bitwise or of two unsigned numbers, one bit at a time from the least significant. */
  function BitOr(a: nat, b: nat): (r: nat)
    ensures a <= r && b <= r && r <= a + b
    decreases a
  {
    if a == 0 then b
    else if b == 0 then a
    else 2 * BitOr(a / 2, b / 2) + (if a % 2 == 1 || b % 2 == 1 then 1 else 0)
  }

  /** Or-ing two k-bit numbers gives a k-bit number. */
  lemma {:induction false} BitOrBound(a: nat, b: nat, k: nat)
    requires a < Pow2(k) && b < Pow2(k)
    ensures BitOr(a, b) < Pow2(k)
    decreases k
  {
    if a != 0 && b != 0 {
      assert k > 0;
      BitOrBound(a / 2, b / 2, k - 1);
    }
  }

  /** Java `x & y` on `long`. */
  function And(x: Long, y: Long): Long
  {
    Signed(BitAnd(Unsigned(x), Unsigned(y)))
  }

  /** Java `x | y` on `long`. */
  function Or(x: Long, y: Long): Long
  {
    Pow2Literals();
    BitOrBound(Unsigned(x), Unsigned(y), 64);
    Signed(BitOr(Unsigned(x), Unsigned(y)))
  }

  lemma RemainderSplit(a: nat, p: nat)
    requires p > 0
    ensures a % (2 * p) == 2 * ((a / 2) % p) + a % 2
  {
    var h := a / 2;
    assert a == 2 * h + a % 2;
    assert h == (h / p) * p + h % p;
    assert a == (h / p) * (2 * p) + (2 * (h % p) + a % 2);
    DivModUnique(a, 2 * p, h / p, 2 * (h % p) + a % 2);
  }

  /** One step of the bit recursion of BitAnd against a mask 2p - 1. */
  lemma BitAndMaskStep(a: nat, p: nat)
    requires a != 0 && p > 0
    ensures BitAnd(a, 2 * p - 1) == 2 * BitAnd(a / 2, p - 1) + a % 2
  {
    var mask := 2 * p - 1;
    assert mask / 2 == p - 1 && mask % 2 == 1;
  }

  /** And-ing with a mask of k one-bits keeps the number modulo 2^k. */
  lemma {:induction false} BitAndLowMask(a: nat, k: nat)
    ensures BitAnd(a, Pow2(k) - 1) == a % Pow2(k)
    decreases k
  {
    if k > 0 && a != 0 {
      var p := Pow2(k - 1);
      assert Pow2(k) == 2 * p;
      calc {
        BitAnd(a, Pow2(k) - 1);
        { BitAndMaskStep(a, p); }
        2 * BitAnd(a / 2, p - 1) + a % 2;
        { BitAndLowMask(a / 2, k - 1); }
        2 * ((a / 2) % p) + a % 2;
        { RemainderSplit(a, p); }
        a % (2 * p);
      }
    } else if k == 0 {
      assert Pow2(k) == 1;
    } else {
      assert BitAnd(a, Pow2(k) - 1) == 0;
    }
  }

  /** Or-ing a multiple of 2^k with a number below 2^k is the same as adding them. */
  lemma {:induction false} BitOrDisjoint(a: nat, b: nat, k: nat)
    requires b < Pow2(k)
    ensures BitOr(a * Pow2(k), b) == a * Pow2(k) + b
    decreases k
  {
    if k > 0 && a != 0 && b != 0 {
      var h := a * Pow2(k - 1);
      assert a * Pow2(k) == 2 * h;
      BitOrDisjoint(a, b / 2, k - 1);
    }
  }

  lemma ModAddMultiple(x: int, p: int, m: int)
    requires p > 0
    ensures (x + m * p) % p == x % p
  {
    assert x == (x / p) * p + x % p;
    assert x + m * p == (x / p + m) * p + x % p;
    DivModUnique(x + m * p, p, x / p + m, x % p);
  }

  /** Every power of two below 2^63 divides 2^64. */
  lemma Pow2DividesTwo64(k: nat)
    requires Pow2(k) < TWO_63
    ensures k < 63 && TWO_64 == Pow2(64 - k) * Pow2(k)
  {
    Pow2Literals();
    if 63 <= k {
      Pow2Monotone(63, k);
      assert false;
    }
    Pow2Add(64 - k, k);
  }

  /** Java `x & (2^k - 1)` is x modulo 2^k, for negative x too. */
  lemma AndLowMask(x: Long, k: nat)
    requires Pow2(k) < TWO_63
    ensures And(x, Pow2(k) - 1) == x % Pow2(k)
  {
    var p := Pow2(k);
    assert Unsigned(p - 1) == p - 1;
    BitAndLowMask(Unsigned(x), k);
    assert And(x, p - 1) == Unsigned(x) % p;
    if x < 0 {
      Pow2DividesTwo64(k);
      ModAddMultiple(x, p, Pow2(64 - k));
    }
  }

  /** Dividing by a then by b is dividing by a * b. */
  lemma DivDiv(x: int, a: int, b: int)
    requires a > 0 && b > 0
    ensures (x / a) / b == x / (a * b)
  {
    var q, r := x / a, x % a;
    var q2, r2 := q / b, q % b;
    assert x == q * a + r;
    assert q == q2 * b + r2;
    assert x == q2 * (a * b) + (r2 * a + r);
    MulMonotone(r2, b - 1, a);
    assert r2 * a + r < a * b;
    DivModUnique(x, a * b, q2, r2 * a + r);
  }
}
