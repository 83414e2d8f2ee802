/**
 * Integer facts shared by both factorisers: powers, the bit length of a
 * machine word, divisibility, primality and a Euclidean gcd.
 */
module Numbers {

  /** One more than the largest value of a Java `long`. */
  const LONG_LIMIT: int := 0x8000_0000_0000_0000

  function Abs(x: int): nat {
    if x < 0 then -x else x
  }

  function Pow(b: int, e: nat): int {
    if e == 0 then 1 else b * Pow(b, e - 1)
  }

  function Pow2(e: nat): (r: nat)
    ensures r >= 1
  {
    if e == 0 then 1 else 2 * Pow2(e - 1)
  }

  /** `d` divides `n`. */
  predicate Divides(d: int, n: int) {
    d != 0 && n % d == 0
  }

  ghost predicate IsPrime(p: int) {
    p >= 2 && forall d :: 1 < d < p ==> !Divides(d, p)
  }

  /**
   * Number of significant bits of `n`: for a positive `long` this is
   * `64 - Long.numberOfLeadingZeros(n)`.
   */
  function BitLength(n: nat): nat {
    if n == 0 then 0 else 1 + BitLength(n / 2)
  }

  /** A positive number lies between the powers of two its bit length names. */
  lemma {:induction false} BitLengthBounds(n: nat)
    requires n > 0
    ensures BitLength(n) >= 1
    ensures Pow2(BitLength(n) - 1) <= n < Pow2(BitLength(n))
  {
    if n > 1 {
      BitLengthBounds(n / 2);
    }
  }

  lemma {:induction false} PowAdd(b: int, e1: nat, e2: nat)
    ensures Pow(b, e1 + e2) == Pow(b, e1) * Pow(b, e2)
  {
    if e1 > 0 {
      PowAdd(b, e1 - 1, e2);
      calc {
        Pow(b, e1 + e2);
        b * Pow(b, e1 - 1 + e2);
        b * (Pow(b, e1 - 1) * Pow(b, e2));
        (b * Pow(b, e1 - 1)) * Pow(b, e2);
      }
    }
  }

  /** `Pow2` is `Pow` at base 2. */
  lemma {:induction false} Pow2IsPow(e: nat)
    ensures Pow2(e) == Pow(2, e)
  {
    if e > 0 {
      Pow2IsPow(e - 1);
    }
  }

  lemma Pow2Add(e1: nat, e2: nat)
    ensures Pow2(e1 + e2) == Pow2(e1) * Pow2(e2)
  {
    Pow2IsPow(e1);
    Pow2IsPow(e2);
    Pow2IsPow(e1 + e2);
    PowAdd(2, e1, e2);
  }

  /**
   * An exact re-multiplication check is a divisibility test: whatever
   * quotient `q` was guessed, `q * p == n` makes `p` divide `n`.
   */
  lemma ExactProductDivides(q: int, p: int, n: int)
    requires p > 0
    requires q * p == n
    ensures n % p == 0 && n / p == q
  {
    DivModUnique(n, p, q, 0);
  }

  /** Euclidean division is unique: a quotient and a remainder in `[0, m)` are `n / m` and `n % m`. */
  lemma DivModUnique(n: int, m: int, q: int, r: int)
    requires m > 0 && 0 <= r < m
    requires n == q * m + r
    ensures n / m == q && n % m == r
  {
    var d, s := n / m, n % m;
    assert (q - d) * m == s - r;
    MultipleBelowDivisor(q - d, m);
  }

  /** The only multiple of `m` in `(-m, m)` is zero. */
  lemma MultipleBelowDivisor(k: int, m: int)
    requires m > 0 && -m < k * m < m
    ensures k == 0
  {
  }

  /** `(c - x) % m` is the step from `x` up to the next value congruent to `c`. */
  lemma StepUpToResidue(x: int, c: int, m: int)
    requires m > 0
    ensures 0 <= (c - x) % m < m
    ensures (x + (c - x) % m - c) % m == 0
  {
    var q := (c - x) / m;
    assert x + (c - x) % m - c == (-q) * m;
    DivModUnique(x + (c - x) % m - c, m, -q, 0);
  }

  /** Dividing out a factor `p` of `n` leaves a cofactor `c` with `c * p == n`. */
  lemma DivideOut(n: int, p: int)
    requires p > 0 && n % p == 0
    ensures (n / p) * p == n
  {
  }

  lemma DividesByRemainder(x: nat, y: nat, g: nat)
    requires y > 0 && g > 0
    requires y % g == 0 && (x % y) % g == 0
    ensures x % g == 0
  {
    var s, t := y / g, (x % y) / g;
    assert y == s * g;
    assert x % y == t * g;
    assert x == (x / y) * y + x % y;
    assert x == ((x / y) * s + t) * g;
    ExactProductDivides((x / y) * s + t, g, x);
  }

  /**
   * Greatest common divisor by Euclid's algorithm; it stands for the
   * gcd engine, which is not part of this model, with the contract the
   * factorisers rely on: it is positive and divides both arguments.
   */
  function Gcd(x: nat, y: nat): (g: nat)
    ensures x > 0 || y > 0 ==> g > 0 && x % g == 0 && y % g == 0
    ensures g <= x || g <= y
    decreases y
  {
    if y == 0 then x
    else
      var g := Gcd(y, x % y);
      DividesByRemainder(x, y, g);
      g
  }

  /** A positive multiple of `d` is at least `d`, and dividing it out leaves a smaller positive cofactor. */
  lemma DivideOutSmaller(n: int, d: int)
    requires n >= 1 && d >= 2 && n % d == 0
    ensures d <= n && 1 <= n / d < n && (n / d) * d == n
  {
    var q := n / d;
    assert n == q * d;
    assert q >= 1;
    assert q * d >= q * 2;
  }

  /** A divisor of a divisor of `n` divides `n`. */
  lemma DividesTransitive(a: int, b: int, n: int)
    requires a > 0 && b > 0
    requires b % a == 0 && n % b == 0
    ensures n % a == 0
  {
    var s, t := b / a, n / b;
    assert b == s * a && n == t * b;
    assert n == (t * s) * a;
    ExactProductDivides(t * s, a, n);
  }

  /** Every number from 2 on has a prime divisor no larger than itself. */
  lemma {:induction false} PrimeDivisor(m: int) returns (q: int)
    requires m >= 2
    ensures IsPrime(q) && q <= m && m % q == 0
    decreases m
  {
    if IsPrime(m) {
      q := m;
    } else {
      var d :| 1 < d < m && Divides(d, m);
      q := PrimeDivisor(d);
      DividesTransitive(q, d, m);
    }
  }

  /** A proper divisor `d` of `n` or its cofactor is a divisor whose square is at most `n`. */
  lemma SmallDivisor(n: int, d: int) returns (m: int)
    requires 1 < d < n && n % d == 0
    ensures 1 < m && m * m <= n && n % m == 0
  {
    var e := n / d;
    DivideOutSmaller(n, d);
    if d <= e {
      m := d;
      assert d * d <= e * d;
    } else {
      m := e;
      assert e * e <= e * d;
      ExactProductDivides(d, e, n);
    }
  }

  /** A number from 2 on that is not prime has a prime divisor whose square is at most the number. */
  lemma SmallPrimeDivisor(n: int) returns (q: int)
    requires n >= 2 && !IsPrime(n)
    ensures IsPrime(q) && q * q <= n && n % q == 0
  {
    var d :| 1 < d < n && Divides(d, n);
    var m := SmallDivisor(n, d);
    q := PrimeDivisor(m);
    DividesTransitive(q, m, n);
    SquareMonotone(q, m);
  }

  /** Squares of non-negative numbers are ordered like the numbers. */
  lemma SquareMonotone(x: int, y: int)
    requires 0 <= x <= y
    ensures x * x <= y * y
  {
    assert x * x <= x * y <= y * y;
  }
}
