/**
 * Machine-integer helpers shared by the bench runner model.
 *
 * The runner computes with `size_t`, `uintmax_t` (both 64-bit, unsigned,
 * wrapping) and `intmax_t` (64-bit two's complement). Dafny integers are
 * unbounded, so the conversions between those views are written out here.
 */
module Base {

  datatype Option<T> = None | Some(value: T)

  const U64: nat := 0x1_0000_0000_0000_0000
  const I64Min: int := -0x8000_0000_0000_0000
  const I64Max: int := 0x7fff_ffff_ffff_ffff

  predicate IsU64(x: int) { 0 <= x < U64 }
  predicate IsI64(x: int) { I64Min <= x <= I64Max }

  /** Conversion of any integer to `uintmax_t` (truncation modulo 2^64). */
  function ToU64(x: int): (r: nat)
    ensures IsU64(r)
    ensures IsU64(x) ==> r == x
  {
    x % U64
  }

  /** Conversion of a `uintmax_t` bit pattern to `intmax_t` (two's complement). */
  function ToI64(x: nat): (r: int)
    requires IsU64(x)
    ensures IsI64(r)
    ensures x <= I64Max ==> r == x
    ensures x > I64Max ==> r < 0
  {
    if x <= I64Max then x else x - U64
  }

  /** Unsigned negation `-x` on a `uintmax_t`. */
  function NegU64(x: nat): (r: nat)
    requires IsU64(x)
    ensures IsU64(r)
    ensures (r + x) % U64 == 0
  {
    if x == 0 then 0 else U64 - x
  }

  lemma SignedRoundTrip(v: int)
    requires IsI64(v)
    ensures ToI64(ToU64(v)) == v
  {
  }

  function Abs(x: int): nat
  {
    if x < 0 then -x else x
  }

  /**
   * q is the quotient of a by b rounded toward zero, as C's `/` computes it:
   * the remainder a - q*b is smaller than b in magnitude and never has the
   * opposite sign of a.
   */
  predicate TruncQuotient(a: int, b: int, q: int)
  {
    var rem := a - q * b;
    && Abs(rem) < Abs(b)
    && (a >= 0 ==> rem >= 0)
    && (a <= 0 ==> rem <= 0)
  }

  /** C's `/` on signed operands: the quotient is truncated toward zero. */
  function TruncDiv(a: int, b: int): (q: int)
    requires b != 0
    ensures TruncQuotient(a, b, q)
    ensures a >= 0 && b > 0 ==> q == a / b
  {
    var q0 := Abs(a) / Abs(b);
    SignedQuotients(Abs(a), Abs(b));
    if (a >= 0) == (b > 0) then q0 else -q0
  }

  /**
   * The quotient of the magnitudes, negated when exactly one operand is
   * negative, is the truncated quotient for every choice of signs.
   */
  lemma SignedQuotients(x: int, y: int)
    requires x >= 0 && y > 0
    ensures TruncQuotient(x, y, x / y) && TruncQuotient(x, -y, -(x / y))
    ensures TruncQuotient(-x, y, -(x / y)) && TruncQuotient(-x, -y, x / y)
  {
    var q := x / y;
    assert x == y * q + x % y;
    var rem := x - q * y;
    assert 0 <= rem < y;
    assert x - (-q) * (-y) == rem;
    assert -x - (-q) * y == -rem;
    assert -x - q * (-y) == -rem;
  }

  /** Unlike Dafny's Euclidean `/`, C rounds a negative quotient up toward zero. */
  lemma TruncDivSigns()
    ensures TruncDiv(-7, 2) == -3 && TruncDiv(7, -2) == -3 && TruncDiv(-7, -2) == 3
    ensures -7 / 2 == -4
  {
  }

  /** At most one quotient satisfies TruncQuotient, so it pins C's `/` down. */
  lemma TruncQuotientUnique(a: int, b: int, q1: int, q2: int)
    requires b != 0 && TruncQuotient(a, b, q1) && TruncQuotient(a, b, q2)
    ensures q1 == q2
  {
    var r1, r2 := a - q1 * b, a - q2 * b;
    assert r1 - r2 == (q2 - q1) * b;
    assert Abs(r1 - r2) < Abs(b);
    if q1 != q2 {
      MulAtLeast(q2 - q1, b);
    }
  }

  /** A nonzero multiple of b is at least b away from 0. */
  lemma MulAtLeast(t: int, b: int)
    requires t != 0 && b != 0
    ensures Abs(t * b) >= Abs(b)
  {
    if b > 0 {
      MulBound(b, t);
      assert t * b == b * t;
    } else {
      MulBound(-b, t);
      assert t * b == -((-b) * t);
    }
  }

  function Max(a: int, b: int): (m: int)
    ensures m >= a && m >= b && (m == a || m == b)
  {
    if a > b then a else b
  }

  /** Euclidean division is unique: a remainder in range fixes quotient and remainder. */
  lemma DivModUnique(x: int, m: int, k: int, r: int)
    requires m > 0 && 0 <= r < m && x == m * k + r
    ensures x / m == k && x % m == r
  {
    var q, s := x / m, x % m;
    assert x == m * q + s;
    assert m * (k - q) == s - r;
    MulBound(m, k - q);
  }

  /** A nonzero multiple of m is at least m away from 0. */
  lemma MulBound(m: int, t: int)
    requires m > 0
    ensures t >= 1 ==> m * t >= m
    ensures t <= -1 ==> m * t <= -m
  {
    assert m * t == m + m * (t - 1);
    assert m * t == -m + m * (t + 1);
  }

  /** For a >= 0 and b > 0 the rounded-up quotient is a/b + 1, at most a + 1. */
  lemma QuotientSucc(a: int, b: int)
    requires a >= 0 && b > 0
    ensures (a + b) / b == a / b + 1
    ensures a / b + 1 <= a + 1
  {
    var q, r := a / b, a % b;
    assert a == b * q + r;
    SuccMultiple(a, b, q, r);
    DivModUnique(a + b, b, q + 1, r);
    MulGrows(b, q);
  }

  lemma SuccMultiple(a: int, b: int, q: int, r: int)
    requires a == b * q + r
    ensures a + b == b * (q + 1) + r
  {
  }

  lemma MulGrows(b: int, q: int)
    requires q >= 0 && b > 0
    ensures b * q >= q
  {
    assert b * q == q + (b - 1) * q;
  }

  /** Below the quotient, multiples of b stay within a. */
  lemma BelowQuotient(a: int, b: int, j: int)
    requires a >= 0 && b > 0 && 0 <= j <= a / b
    ensures 0 <= j * b <= a
  {
    assert a == b * (a / b) + a % b;
    assert (a / b) * b - j * b == (a / b - j) * b;
  }

  lemma ModAddMultiple(a: int, m: int, k: int)
    requires m > 0
    ensures (a + m * k) % m == a % m
  {
    assert a == m * (a / m) + a % m;
    assert a + m * k == m * (a / m + k) + a % m;
    DivModUnique(a + m * k, m, a / m + k, a % m);
  }

  lemma ModAddAbsorb(a: int, b: int, m: int)
    requires m > 0
    ensures (a % m + b) % m == (a + b) % m
  {
    assert a == m * (a / m) + a % m;
    assert a + b == (a % m + b) + m * (a / m);
    ModAddMultiple(a % m + b, m, a / m);
  }

  /**
   * One digit of a mixed-radix decomposition: with radix R for the lower
   * digits and c for the next, the remainder modulo R*c adds the next digit,
   * and dividing by R then by c is dividing by R*c.
   */
  lemma MixedRadixStep(p: nat, radix: nat, c: nat)
    requires radix >= 1 && c >= 1
    ensures p % (radix * c) == p % radix + radix * ((p / radix) % c)
    ensures p / (radix * c) == (p / radix) / c
  {
    var q, r := p / radix, p % radix;
    var hi, lo := q / c, q % c;
    assert p == radix * q + r;
    assert q == c * hi + lo;
    Distribute(radix, c, hi, lo);
    assert p == (radix * c) * hi + (radix * lo + r);
    MulBelow(radix, c, lo, r);
    DivModUnique(p, radix * c, hi, radix * lo + r);
  }

  lemma Distribute(radix: int, c: int, hi: int, lo: int)
    ensures radix * (c * hi + lo) == (radix * c) * hi + radix * lo
  {
  }

  lemma MulBelow(radix: int, c: int, lo: int, r: int)
    requires radix >= 1 && 0 <= lo < c && 0 <= r < radix
    ensures 0 <= radix * lo + r < radix * c
  {
    assert radix * (c - 1 - lo) >= 0;
    assert radix * c == radix * lo + radix * (c - 1 - lo) + radix;
  }

  /** Reducing a factor modulo m first does not change a product modulo m. */
  lemma ModMulAbsorb(a: int, b: int, m: int)
    requires m > 0
    ensures (a % m * b) % m == (a * b) % m
  {
    assert a == m * (a / m) + a % m;
    assert a * b == a % m * b + m * ((a / m) * b);
    ModAddMultiple(a % m * b, m, (a / m) * b);
  }

  lemma ModAtMost(x: nat, m: nat)
    requires m > 0
    ensures x % m <= x
  {
    if x < m {
      SmallMod(x, m);
    }
  }

  lemma SmallMod(p: nat, m: nat)
    requires p < m
    ensures p % m == p
  {
  }

  function Pow16(i: nat): (r: nat)
    ensures r >= 1
  {
    if i == 0 then 1 else 16 * Pow16(i - 1)
  }
}
