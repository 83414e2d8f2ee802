/**
 * Trial division that replaces most divisions by multiplications with
 * stored reciprocals of the primes.  For the smallest primes it divides
 * exactly; for the larger ones it multiplies N by the reciprocal, rounds,
 * and accepts the prime only when the rounded quotient times the prime is
 * exactly N again.
 *
 * The floating-point quotient is an oracle `quotient(N, reciprocal)`
 * standing for `(long) (N * reciprocal + DISCRIMINATOR)`, and the prime
 * table comes from an oracle `primeSource(i)`, the i-th prime.  Integers
 * are unbounded, so `quotient * p == N` is the exact product: the
 * properties below hold whatever the quotient oracle returns, and they
 * carry over to Java's 64-bit `long` for quotients whose product with the
 * prime does not wrap around.
 */
module TDiv {
  import opened Numbers

  datatype Option<T> = None | Some(value: T)

  /** Precision, in bits, at which a product is recognised as near an integer. */
  const DISCRIMINATOR_BITS: int := 10

  /** Mantissa bits of a double. */
  const DOUBLE_MANTISSA_BITS: int := 53

  /**
   * `64 - Long.numberOfLeadingZeros(N)`: the number of bits N needs, with
   * all 64 bits significant for a negative `long`.
   */
  function LongBitLength(N: int): (bits: nat)
    ensures N < 0 ==> bits == 64
    ensures N == 0 ==> bits == 0
    ensures N > 0 ==> 1 <= bits && Pow2(bits - 1) <= N < Pow2(bits)
  {
    PositiveBitLength(N);
    if N < 0 then 64 else BitLength(N)
  }

  lemma PositiveBitLength(N: int)
    ensures N > 0 ==> 1 <= BitLength(N) && Pow2(BitLength(N) - 1) <= N < Pow2(BitLength(N))
  {
    if N > 0 {
      BitLengthBounds(N);
    }
  }

  /** `pMinBits = bitLength(N) - 53 + DISCRIMINATOR_BITS`. */
  function PMinBits(N: int): int {
    LongBitLength(N) - DOUBLE_MANTISSA_BITS + DISCRIMINATOR_BITS
  }

  /**
   * Primes below this bound are tested by exact division, because their
   * reciprocals are too imprecise; 0 when there is no exact phase.  A
   * negative `long` counts as 64 bits wide.
   */
  function PMin(N: int): (pMin: int)
    ensures pMin == 0 || pMin >= 2
    ensures N < 0 ==> pMin == Pow2(21)
  {
    if PMinBits(N) > 0 then Pow2(PMinBits(N)) else 0
  }

  /**
   * For every prime from `pMin` on, `N / p` stays below 2^43, so the
   * 53-bit mantissa keeps DISCRIMINATOR_BITS = 10 bits to tell an integer
   * quotient from a fraction; and `pMin` is the least power of two that
   * does this.
   */
  lemma PMinWindow(N: int)
    requires 0 <= N
    ensures N < Pow2(43) * (if PMin(N) > 0 then PMin(N) else 1)
    ensures PMin(N) > 0 ==> Pow2(42) * PMin(N) <= N
  {
    var b := LongBitLength(N);
    if b > 43 {
      WindowSplit(N, b, 43);
    } else if 0 < N {
      Pow2Add(b, 43 - b);
      AtLeastOneFactor(Pow2(b), Pow2(43 - b));
    }
  }

  /** Splitting the bit length `b` of `N` at `lo` brackets N between multiples of `2^(b - lo)`. */
  lemma WindowSplit(N: int, b: nat, lo: nat)
    requires 0 < lo < b && Pow2(b - 1) <= N < Pow2(b)
    ensures N < Pow2(lo) * Pow2(b - lo) && Pow2(lo - 1) * Pow2(b - lo) <= N
  {
    Pow2Add(lo, b - lo);
    Pow2Add(lo - 1, b - lo);
  }

  /**
   * Multiplying by a factor of at least 1 does not decrease.  Kept apart
   * from PMinWindow, where the same assertion inline costs the solver
   * about twice as much.
   */
  lemma AtLeastOneFactor(x: int, y: int)
    requires x >= 0 && y >= 1
    ensures x * y >= x
  {
  }

  /** `ps` lists the primes from 2 on in order, none skipped. */
  ghost predicate ConsecutivePrimes(ps: seq<int>) {
    && (|ps| > 0 ==> ps[0] == 2)
    && (forall i :: 0 <= i < |ps| ==> IsPrime(ps[i]))
    && (forall i, j :: 0 <= i < j < |ps| ==> ps[i] < ps[j])
    && (forall i, q :: 0 < i < |ps| && ps[i - 1] < q < ps[i] ==> !IsPrime(q))
  }

  /** `source(i)` is the i-th prime, counting from 0. */
  ghost predicate PrimeSource(source: nat -> int) {
    && source(0) == 2
    && (forall i: nat :: IsPrime(source(i)))
    && (forall i: nat, j: nat :: i < j ==> source(i) < source(j))
    && (forall i: nat, q :: 0 < i && source(i - 1) < q < source(i) ==> !IsPrime(q))
  }

  /** The first entries of a prime source list consecutive primes. */
  lemma SourcePrefix(source: nat -> int, ps: seq<int>)
    requires PrimeSource(source)
    requires forall j :: 0 <= j < |ps| ==> ps[j] == source(j)
    ensures ConsecutivePrimes(ps)
  {
    forall i, q | 0 < i < |ps| && ps[i - 1] < q < ps[i]
      ensures !IsPrime(q)
    {
      assert ps[i - 1] == source(i - 1);
    }
  }

  /** Every prime up to the i-th table entry is in the table at or before index i. */
  lemma {:induction false} PrimeInTable(ps: seq<int>, i: nat, q: int) returns (j: nat)
    requires ConsecutivePrimes(ps) && i < |ps|
    requires IsPrime(q) && q <= ps[i]
    ensures j <= i && ps[j] == q
    decreases i
  {
    if q == ps[i] {
      j := i;
    } else if i == 0 {
      assert false;
    } else if q <= ps[i - 1] {
      j := PrimeInTable(ps, i - 1, q);
    } else {
      assert false;
    }
  }

  /** Table prime `p` is tested with the exact `N % p` when it is below `pMin`, by the reciprocal quotient otherwise. */
  predicate Passes(N: int, p: int, q: int, pMin: int)
    ensures Passes(N, p, q, pMin) && p > 0 ==> N % p == 0
    ensures Passes(N, p, q, pMin) && p > 0 && p >= pMin ==> q == N / p
  {
    if p < pMin then Divides(p, N)
    else if p > 0 && q * p == N then ExactProductDivides(q, p, N); true
    else q * p == N
  }

  /** The scan reaches prime `p`: it is in the exact phase, or not above `pLimit`. */
  predicate InScope(p: int, pMin: int, pLimit: int)
    ensures 0 <= p && pMin <= 0 ==> (InScope(p, pMin, pLimit) <==> p <= pLimit)
    ensures pLimit < pMin ==> (InScope(p, pMin, pLimit) <==> p < pMin)
  {
    p < pMin || p <= pLimit
  }

  /**
   * The result of the scan from table index `i`: the first prime in scope
   * that passes its test, or 0 when the scan leaves the scope or the table.
   */
  function Scan(ps: seq<int>, rs: seq<real>, N: int, pMin: int, pLimit: int, quotient: (int, real) -> int, i: nat): (r: int)
    requires |rs| == |ps|
    ensures r != 0 ==> r in ps && InScope(r, pMin, pLimit)
    decreases |ps| - i
  {
    if i >= |ps| || !InScope(ps[i], pMin, pLimit) then 0
    else if Passes(N, ps[i], quotient(N, rs[i]), pMin) then ps[i]
    else Scan(ps, rs, N, pMin, pLimit, quotient, i + 1)
  }

  /** A nonzero scan result is the first table prime from `i` on that is in scope and passes. */
  lemma {:induction false} ScanFindsFirst(ps: seq<int>, rs: seq<real>, N: int, pMin: int, pLimit: int, quotient: (int, real) -> int, i: nat)
    returns (j: nat)
    requires |rs| == |ps|
    requires Scan(ps, rs, N, pMin, pLimit, quotient, i) != 0
    ensures i <= j < |ps| && Scan(ps, rs, N, pMin, pLimit, quotient, i) == ps[j]
    ensures InScope(ps[j], pMin, pLimit) && Passes(N, ps[j], quotient(N, rs[j]), pMin)
    ensures forall l :: i <= l < j ==> InScope(ps[l], pMin, pLimit) && !Passes(N, ps[l], quotient(N, rs[l]), pMin)
    decreases |ps| - i
  {
    if Passes(N, ps[i], quotient(N, rs[i]), pMin) {
      j := i;
    } else {
      j := ScanFindsFirst(ps, rs, N, pMin, pLimit, quotient, i + 1);
    }
  }

  /**
   * Over an ascending table, the scan from `i` returns 0 exactly when no
   * table prime from `i` on is in scope and passes its test.
   */
  lemma {:induction false} ScanZero(ps: seq<int>, rs: seq<real>, N: int, pMin: int, pLimit: int, quotient: (int, real) -> int, i: nat)
    requires |rs| == |ps|
    requires forall l :: 0 <= l < |ps| ==> ps[l] >= 2
    requires forall l, m :: 0 <= l < m < |ps| ==> ps[l] < ps[m]
    ensures Scan(ps, rs, N, pMin, pLimit, quotient, i) == 0 <==>
              forall j :: i <= j < |ps| && InScope(ps[j], pMin, pLimit) ==> !Passes(N, ps[j], quotient(N, rs[j]), pMin)
    decreases |ps| - i
  {
    if i < |ps| {
      if !InScope(ps[i], pMin, pLimit) {
        assert forall j :: i <= j < |ps| ==> !InScope(ps[j], pMin, pLimit) by {
          forall j | i <= j < |ps| ensures !InScope(ps[j], pMin, pLimit) {
            if j > i { assert ps[i] < ps[j]; }
          }
        }
      } else if !Passes(N, ps[i], quotient(N, rs[i]), pMin) {
        ScanZero(ps, rs, N, pMin, pLimit, quotient, i + 1);
      }
    }
  }

  /**
   * A nonzero scan result divides N, whatever the quotient oracle returned:
   * in the exact phase by `N % p == 0`, in the reciprocal phase because the
   * rounded quotient multiplied back to N.
   */
  lemma ScanDivides(ps: seq<int>, rs: seq<real>, N: int, pMin: int, pLimit: int, quotient: (int, real) -> int, i: nat)
    requires |rs| == |ps|
    requires forall l :: 0 <= l < |ps| ==> ps[l] >= 2
    requires Scan(ps, rs, N, pMin, pLimit, quotient, i) != 0
    ensures var r := Scan(ps, rs, N, pMin, pLimit, quotient, i); r >= 2 && N % r == 0
  {
    var j := ScanFindsFirst(ps, rs, N, pMin, pLimit, quotient, i);
    if ps[j] >= pMin {
      ExactProductDivides(quotient(N, rs[j]), ps[j], N);
    }
  }

  /**
   * A prime the exact phase returns is the smallest table prime dividing N;
   * a prime the reciprocal phase returns is at most `pLimit`.
   */
  lemma ScanPhases(ps: seq<int>, rs: seq<real>, N: int, pMin: int, pLimit: int, quotient: (int, real) -> int)
    requires |rs| == |ps|
    requires forall l, m :: 0 <= l < m < |ps| ==> ps[l] < ps[m]
    requires Scan(ps, rs, N, pMin, pLimit, quotient, 0) != 0
    ensures var r := Scan(ps, rs, N, pMin, pLimit, quotient, 0);
            r < pMin ==> forall l :: 0 <= l < |ps| && ps[l] < r ==> !Divides(ps[l], N)
    ensures var r := Scan(ps, rs, N, pMin, pLimit, quotient, 0); r >= pMin ==> r <= pLimit
  {
    var j := ScanFindsFirst(ps, rs, N, pMin, pLimit, quotient, 0);
  }

  /** The map `m` with `count` more copies of `key`, as `SortedMultiset.add(key, count)` does. */
  function AddCount(m: map<int, nat>, key: int, count: nat): (r: map<int, nat>)
    ensures key in r && r[key] == (if key in m then m[key] else 0) + count
    ensures forall k :: k != key ==> (k in r <==> k in m) && (k in m ==> r[k] == m[k])
  {
    m[key := (if key in m then m[key] else 0) + count]
  }

  /** The product of `key^count` over the keys of `m` from 2 up to `hi`. */
  function Product(m: map<int, nat>, hi: int): int
    decreases hi
  {
    if hi < 2 then 1
    else (if hi in m then Pow(hi, m[hi]) else 1) * Product(m, hi - 1)
  }

  /** Keys above `hi` do not enter the product up to `hi`. */
  lemma {:induction false} ProductIgnoresAbove(m: map<int, nat>, key: int, count: nat, hi: int)
    requires hi < key
    ensures Product(AddCount(m, key, count), hi) == Product(m, hi)
    decreases hi
  {
    if hi >= 2 {
      ProductIgnoresAbove(m, key, count, hi - 1);
    }
  }

  /**
   * Associativity and a swap of factors, as lemmas of their own: inline
   * among the products of ProductAddCount and ProductAddCountAtKey these
   * steps run the solver out of resource.
   */
  lemma MulAssoc(x: int, y: int, z: int)
    ensures x * (y * z) == (x * y) * z
  {
  }

  lemma MulSwap(x: int, y: int, z: int)
    ensures (x * y) * z == (x * z) * y
  {
  }

  /** Adding `count` copies of `key` multiplies the product up to `key` by `key^count`. */
  lemma ProductAddCountAtKey(m: map<int, nat>, key: int, count: nat)
    requires 2 <= key
    ensures Product(AddCount(m, key, count), key) == Product(m, key) * Pow(key, count)
  {
    var m' := AddCount(m, key, count);
    var e := if key in m then m[key] else 0;
    ProductIgnoresAbove(m, key, count, key - 1);
    PowAdd(key, e, count);
    var a, b, c := Pow(key, e), Pow(key, count), Product(m, key - 1);
    assert Product(m, key) == a * c;
    assert m'[key] == e + count;
    assert Product(m', key) == Pow(key, e + count) * c;
    MulSwap(a, b, c);
  }

  /** Adding `count` copies of `key` multiplies the product by `key^count`. */
  lemma {:induction false} ProductAddCount(m: map<int, nat>, key: int, count: nat, hi: int)
    requires 2 <= key <= hi
    ensures Product(AddCount(m, key, count), hi) == Product(m, hi) * Pow(key, count)
    decreases hi
  {
    if hi == key {
      ProductAddCountAtKey(m, key, count);
    } else {
      ProductAddCount(m, key, count, hi - 1);
      var m' := AddCount(m, key, count);
      var f := if hi in m then Pow(hi, m[hi]) else 1;
      assert (if hi in m' then Pow(hi, m'[hi]) else 1) == f;
      var c, b := Product(m, hi - 1), Pow(key, count);
      assert Product(m', hi) == f * (c * b);
      MulAssoc(f, c, b);
    }
  }

  /** The empty map has product 1. */
  lemma {:induction false} ProductEmpty(hi: int)
    ensures Product(map[], hi) == 1
    decreases hi
  {
    if hi >= 2 {
      ProductEmpty(hi - 1);
    }
  }

  /** Dividing `p` out of `n` once more keeps `n * p^exp` unchanged. */
  lemma RegroupPower(p: int, exp: nat, n: int)
    requires p > 0 && n % p == 0
    ensures (n / p) * Pow(p, exp + 1) == n * Pow(p, exp)
  {
    DivideOut(n, p);
    var w := Pow(p, exp);
    assert Pow(p, exp + 1) == p * w;
    calc {
      (n / p) * Pow(p, exp + 1);
      (n / p) * (p * w);
      ((n / p) * p) * w;
      n * w;
    }
  }

  /** A number `q` that does not divide `n` does not divide any divisor `d` of `n`. */
  lemma DivisorIndivisible(n: int, d: int, q: int)
    requires d >= 1 && q >= 1 && n % d == 0
    requires n % q != 0
    ensures d % q != 0
  {
    if d % q == 0 {
      DividesTransitive(q, d, n);
    }
  }

  /** Regrouping `product * (p^exp * rest)` after `p^exp` joins the product. */
  lemma Regroup(product: int, power: int, rest: int, n: int, N: int)
    requires product * n == N && rest * power == n
    ensures (product * power) * rest == N
  {
    assert product * (rest * power) == N;
  }

  /** Every key of `m` lies in [2, N] and has a positive count. */
  predicate FactorsIn(m: map<int, nat>, N: int) {
    forall k :: k in m ==> 2 <= k <= N && m[k] >= 1
  }

  /** Every key of `m` is prime. */
  ghost predicate AllPrime(m: map<int, nat>) {
    forall k :: k in m ==> IsPrime(k)
  }

  /**
   * Recording `key^count`, which together with `rest` makes up `n`, keeps
   * the product of the recorded factors times what remains equal to N.
   */
  lemma RecordFactor(m: map<int, nat>, key: int, count: nat, rest: int, n: int, N: int)
    requires 2 <= key <= N && count >= 1
    requires Product(m, N) * n == N && rest * Pow(key, count) == n
    requires FactorsIn(m, N)
    ensures Product(AddCount(m, key, count), N) * rest == N
    ensures FactorsIn(AddCount(m, key, count), N)
    ensures AllPrime(m) && IsPrime(key) ==> AllPrime(AddCount(m, key, count))
  {
    ProductAddCount(m, key, count, N);
    Regroup(Product(m, N), Pow(key, count), rest, n, N);
  }

  /** Largest and smallest values of a Java `int`. */
  const INT_MAX: int := 0x7fff_ffff
  const INT_MIN: int := -0x8000_0000

  /** Java's `(int)` applied to a quotient that is already a whole number: it saturates at the `int` range. */
  function IntCast(x: int): (r: int)
    ensures INT_MIN <= r <= INT_MAX
    ensures INT_MIN <= x <= INT_MAX ==> r == x
    ensures x > INT_MAX ==> r == INT_MAX
  {
    if x > INT_MAX then INT_MAX else if x < INT_MIN then INT_MIN else x
  }

  /**
   * The re-multiplication test in the inner loop of `factor` as written:
   * the rounded quotient passes through `(int)` before it is multiplied
   * back, unlike the `(long)` of the same test in `findSingleFactor`.
   */
  predicate StripCheckAsWritten(n: int, p: int, q: int)
    ensures StripCheckAsWritten(n, p, q) && p > 0 ==> n % p == 0
    ensures INT_MIN <= q <= INT_MAX ==> (StripCheckAsWritten(n, p, q) <==> q * p == n)
  {
    if p > 0 && IntCast(q) * p == n then ExactProductDivides(IntCast(q), p, n); true
    else IntCast(q) * p == n
  }

  /** Through the `(int)` cast, prime p is rejected for every n above INT_MAX * p, whatever the quotient. */
  lemma StripCheckAsWrittenRejectsLarge(n: int, p: int, q: int)
    requires p >= 1 && n > INT_MAX * p
    ensures !StripCheckAsWritten(n, p, q)
  {
    var c := IntCast(q);
    assert c * p <= INT_MAX * p by {
      assert (INT_MAX - c) * p >= 0;
    }
  }

  /**
   * For n = 2^32 and p = 2 even the exact quotient 2^31 fails the test as
   * written, while the `(long)` test accepts it: `factor` never divides
   * out 2 from 2^32.
   */
  lemma StripCheckAsWrittenMissesTwo()
    ensures !StripCheckAsWritten(0x1_0000_0000, 2, 0x1_0000_0000 / 2)
    ensures (0x1_0000_0000 / 2) * 2 == 0x1_0000_0000
  {
    StripCheckAsWrittenRejectsLarge(0x1_0000_0000, 2, 0x1_0000_0000 / 2);
  }

  class TDivInverse {
    /** The primes the scan tests, in ascending order. */
    const primes: array<int>
    /** `reciprocals[i]` is `1.0 / primes[i]`. */
    const reciprocals: array<real>
    /** Largest prime the reciprocal phase tests. */
    var pLimit: int
    const primeCountBound: int

    ghost predicate Valid()
      reads this, primes, reciprocals
    {
      && primes.Length == primeCountBound && reciprocals.Length == primeCountBound
      && ConsecutivePrimes(primes[..])
      && forall i :: 0 <= i < primes.Length ==> reciprocals[i] == 1.0 / (primes[i] as real)
    }

    /**
     * Sets up the tables for factors up to `factorLimit`.  `primeCountBound`
     * stands for the prime-count upper bound computed from `factorLimit`,
     * and `primeSource` for the shared table of small primes.
     */
    constructor (factorLimit: int, primeCountBound: nat, primeSource: nat -> int)
      requires PrimeSource(primeSource)
      ensures Valid() && fresh(primes) && fresh(reciprocals)
      ensures pLimit == factorLimit && this.primeCountBound == primeCountBound
      ensures forall i :: 0 <= i < primeCountBound ==> primes[i] == primeSource(i)
    {
      pLimit := factorLimit;
      this.primeCountBound := primeCountBound;
      var ps := new int[primeCountBound];
      var rs := new real[primeCountBound];
      for i := 0 to primeCountBound
        invariant forall j :: 0 <= j < i ==> ps[j] == primeSource(j)
        invariant forall j :: 0 <= j < i ==> rs[j] == 1.0 / (primeSource(j) as real)
      {
        var p := primeSource(i);
        ps[i] := p;
        rs[i] := 1.0 / (p as real);
      }
      SourcePrefix(primeSource, ps[..]);
      primes := ps;
      reciprocals := rs;
    }

    /** Sets the largest prime the next scans test. */
    method SetTestLimit(p: int)
      modifies this
      ensures pLimit == p
      ensures primes[..] == old(primes[..]) && reciprocals[..] == old(reciprocals[..])
      ensures Valid() == old(Valid())
    {
      pLimit := p;
    }

    /**
     * Returns a table prime dividing N, or 0.  Primes below PMin(N) are
     * tested by `N % p`, the rest up to `pLimit` by `quotient(N, 1/p) * p == N`.
     * Running off the end of the table returns 0 as well.
     */
    method FindSingleFactor(N: int, quotient: (int, real) -> int) returns (r: int)
      requires Valid()
      requires -LONG_LIMIT <= N < LONG_LIMIT
      ensures r == Scan(primes[..], reciprocals[..], N, PMin(N), pLimit, quotient, 0)
      ensures r != 0 ==> r in primes[..] && IsPrime(r) && N % r == 0
    {
      r := ScanTable(N, quotient);
      if r != 0 {
        ScanPrime(N, quotient);
      }
    }

    /** A nonzero scan result is a table prime that divides N. */
    lemma ScanPrime(N: int, quotient: (int, real) -> int)
      requires Valid()
      requires Scan(primes[..], reciprocals[..], N, PMin(N), pLimit, quotient, 0) != 0
      ensures var r := Scan(primes[..], reciprocals[..], N, PMin(N), pLimit, quotient, 0);
              r in primes[..] && IsPrime(r) && N % r == 0
    {
      var ps, rs := primes[..], reciprocals[..];
      var j := ScanFindsFirst(ps, rs, N, PMin(N), pLimit, quotient, 0);
      ScanDivides(ps, rs, N, PMin(N), pLimit, quotient, 0);
    }

    /** The two loops of the scan: exact division below PMin(N), the reciprocal test up to `pLimit`. */
    method ScanTable(N: int, quotient: (int, real) -> int) returns (r: int)
      requires Valid()
      ensures r == Scan(primes[..], reciprocals[..], N, PMin(N), pLimit, quotient, 0)
    {
      var i := 0;
      var nBits := LongBitLength(N);
      var pMinBits := nBits - DOUBLE_MANTISSA_BITS + DISCRIMINATOR_BITS;
      if pMinBits > 0 {
        r, i := ExactPhase(N, Pow2(pMinBits), quotient);
        if r != 0 {
          return;
        }
      }
      r := ReciprocalPhase(N, i, quotient);
    }

    /**
     * Tests the primes below `pMinimum` by `N % p`.  Returns the first one
     * dividing N, or 0 with `i` at the first prime not below `pMinimum` (or
     * at the end of the table).
     */
    method ExactPhase(N: int, pMinimum: int, quotient: (int, real) -> int) returns (r: int, i: int)
      requires Valid() && pMinimum == PMin(N)
      ensures 0 <= i <= primes.Length
      ensures r != 0 ==> r == Scan(primes[..], reciprocals[..], N, PMin(N), pLimit, quotient, 0)
      ensures r == 0 ==> i < primes.Length ==> primes[i] >= PMin(N)
      ensures r == 0 ==> Scan(primes[..], reciprocals[..], N, PMin(N), pLimit, quotient, i)
                         == Scan(primes[..], reciprocals[..], N, PMin(N), pLimit, quotient, 0)
    {
      ghost var ps, rs := primes[..], reciprocals[..];
      i := 0;
      while i < primes.Length && primes[i] < pMinimum
        invariant 0 <= i <= primes.Length
        invariant Scan(ps, rs, N, pMinimum, pLimit, quotient, i) == Scan(ps, rs, N, pMinimum, pLimit, quotient, 0)
      {
        if N % primes[i] == 0 {
          return primes[i], i;
        }
        i := i + 1;
      }
      r := 0;
    }

    /**
     * Tests the primes from index `i` up to `pLimit` by the rounded
     * quotient; 0 when none passes or the table runs out.
     */
    method ReciprocalPhase(N: int, i0: int, quotient: (int, real) -> int) returns (r: int)
      requires Valid() && 0 <= i0 <= primes.Length
      requires i0 < primes.Length ==> primes[i0] >= PMin(N)
      ensures r == Scan(primes[..], reciprocals[..], N, PMin(N), pLimit, quotient, i0)
    {
      ghost var ps, rs, pMin := primes[..], reciprocals[..], PMin(N);
      var i := i0;
      while true
        invariant i0 <= i <= primes.Length
        invariant i < primes.Length ==> primes[i] >= pMin
        invariant Scan(ps, rs, N, pMin, pLimit, quotient, i) == Scan(ps, rs, N, pMin, pLimit, quotient, i0)
        decreases primes.Length - i
      {
        if i >= primes.Length {
          return 0;  // the table read is out of bounds
        }
        if primes[i] > pLimit {
          return 0;
        }
        var nDivPrime := quotient(N, reciprocals[i]);
        if nDivPrime * primes[i] == N {
          return primes[i];
        }
        if i + 1 < primes.Length {
          assert primes[i] < primes[i + 1];
        }
        i := i + 1;
      }
    }

    /**
     * The precondition under which `factor` is complete: whenever a table
     * prime divides n, the rounded quotient is exactly n / p.  The model
     * takes this as a hypothesis.  The `(long)(n * r + DISCRIMINATOR)`
     * rounding guarantees it only while n / p stays below about 2^42 (n
     * below 2^53); for n = 3 * (2^61 + 1) and p = 3 the rounded quotient
     * is 2^61, not 2^61 + 1.  The `(int)` cast of `factor` as written also
     * fails it once n / p exceeds INT_MAX.
     */
    ghost predicate ExactQuotients(quotient: (int, real) -> int)
      reads this, primes, reciprocals
      requires Valid()
    {
      forall n: int, j :: 0 <= j < primes.Length && n % primes[j] == 0 ==> quotient(n, reciprocals[j]) == n / primes[j]
    }

    /**
     * Divides table prime `primes[i]` out of `n` for as long as the
     * reciprocal quotient multiplies back to `n` and `n % p == 0`; `exp`
     * counts the divisions and `rest` is what remains of `n`.  Here
     * `quotient` may stand for the `(int)`-cast quotient as written as well
     * as for the `(long)` one: the contracts that hold for every oracle hold
     * for both.
     */
    method StripPrime(i: int, n: int, quotient: (int, real) -> int) returns (exp: nat, rest: int)
      requires Valid() && 0 <= i < primes.Length && n >= 1
      ensures 1 <= rest <= n && rest * Pow(primes[i], exp) == n && n % rest == 0
      ensures exp > 0 ==> primes[i] <= n
      ensures ExactQuotients(quotient) && FreeBelow(n, i) ==> FreeBelow(rest, i + 1)
    {
      var r := reciprocals[i];
      var p := primes[i];
      exp, rest := 0, n;
      while true
        invariant 1 <= rest <= n && rest * Pow(p, exp) == n
        invariant exp > 0 ==> p <= n
        decreases rest
      {
        var nDivPrime := quotient(rest, r);
        if nDivPrime * p != rest {
          break;
        }
        if rest % p != 0 {
          break;
        }
        // p divides rest
        DivideOutSmaller(rest, p);
        RegroupPower(p, exp, rest);
        exp := exp + 1;
        rest := rest / p;
      }
      ExactProductDivides(Pow(p, exp), rest, n);
      if ExactQuotients(quotient) && FreeBelow(n, i) {
        assert rest % p != 0 by {
          if rest % p == 0 {
            assert quotient(rest, r) == rest / p;
            DivideOut(rest, p);
          }
        }
        KeepsIndivisible(n, rest, i);
      }
    }

    /**
     * Factors N by stripping the table primes in order; once `p * p > N`
     * the residual N, if above 1, is recorded as the last factor.  None
     * stands for running off the end of the table.
     */
    method Factor(N: int, quotient: (int, real) -> int) returns (result: Option<map<int, nat>>)
      requires Valid()
      requires 1 <= N < LONG_LIMIT
      ensures result.Some? ==> Product(result.value, N) == N
      ensures result.Some? ==> FactorsIn(result.value, N)
      ensures result.Some? && ExactQuotients(quotient) ==> AllPrime(result.value)
      ensures result.None? ==> forall j :: 0 <= j < primes.Length ==> primes[j] * primes[j] <= N
    {
      ghost var exact := ExactQuotients(quotient);
      var primeFactors: map<int, nat> := map[];
      ProductEmpty(N);
      var n := N;
      var i := 0;
      while true
        invariant 0 <= i <= primes.Length
        invariant 1 <= n <= N
        invariant Product(primeFactors, N) * n == N
        invariant FactorsIn(primeFactors, N) && AllPrime(primeFactors)
        invariant 0 < i ==> primes[i - 1] * primes[i - 1] <= n
        invariant exact ==> FreeBelow(n, i)
        decreases primes.Length - i
      {
        if i >= primes.Length {
          SquaresBelow(i, n);
          return None;  // the table read is out of bounds
        }
        var p := primes[i];
        TablePrime(i);
        var exp, rest := StripPrime(i, n, quotient);
        if exp > 0 {
          RecordFactor(primeFactors, p, exp, rest, n, N);
          primeFactors := AddCount(primeFactors, p, exp);
        }
        n := rest;
        if p * p > n {
          RecordResidual(primeFactors, n, N, i, quotient);
          if n > 1 {
            primeFactors := AddCount(primeFactors, n, 1);
          }
          return Some(primeFactors);
        }
        i := i + 1;
      }
    }

    /** Below a table prime whose square is at most n, every earlier table prime's square is too. */
    lemma SquaresBelow(i: int, n: int)
      requires Valid() && 0 <= i <= primes.Length
      requires 0 < i ==> primes[i - 1] * primes[i - 1] <= n
      ensures forall j :: 0 <= j < i ==> primes[j] * primes[j] <= n
    {
      forall j | 0 <= j < i
        ensures primes[j] * primes[j] <= n
      {
        if j < i - 1 {
          assert primes[j] < primes[i - 1];
          SquareMonotone(primes[j], primes[i - 1]);
        }
      }
    }

    lemma TablePrime(i: int)
      requires Valid() && 0 <= i < primes.Length
      ensures IsPrime(primes[i])
    {
      assert primes[..][i] == primes[i];
    }

    /**
     * Once the square of the i-th prime exceeds the residual `n`, recording
     * `n` when it is above 1 completes the factorisation of N.
     */
    lemma RecordResidual(m: map<int, nat>, n: int, N: int, i: int, quotient: (int, real) -> int)
      requires Valid() && 0 <= i < primes.Length
      requires 1 <= n <= N && primes[i] * primes[i] > n
      requires Product(m, N) * n == N && FactorsIn(m, N) && AllPrime(m)
      requires ExactQuotients(quotient) ==> FreeBelow(n, i + 1)
      ensures var m' := if n > 1 then AddCount(m, n, 1) else m;
              Product(m', N) == N && FactorsIn(m', N) && (ExactQuotients(quotient) ==> AllPrime(m'))
    {
      if n > 1 {
        if ExactQuotients(quotient) {
          ResidualIsPrime(n, i);
        }
        RecordFactor(m, n, 1, 1, n, N);
      }
    }

    /** None of the first `i` table primes divides `n`. */
    ghost predicate FreeBelow(n: int, i: int)
      reads primes
      requires i <= primes.Length
      decreases i
    {
      i <= 0 || (!Divides(primes[i - 1], n) && FreeBelow(n, i - 1))
    }

    lemma {:induction false} FreeBelowAll(n: int, i: int)
      requires 0 <= i <= primes.Length
      ensures FreeBelow(n, i) <==> forall j :: 0 <= j < i ==> !Divides(primes[j], n)
      decreases i
    {
      if i > 0 {
        FreeBelowAll(n, i - 1);
      }
    }

    /** A divisor of n stays free of the table primes before index i that n is free of. */
    lemma {:induction false} KeepsIndivisible(n: int, d: int, i: int)
      requires Valid() && 0 <= i <= primes.Length
      requires d >= 1 && n % d == 0
      requires FreeBelow(n, i)
      ensures FreeBelow(d, i)
      decreases i
    {
      if i > 0 {
        KeepsIndivisible(n, d, i - 1);
        assert primes[..][i - 1] == primes[i - 1];
        DivisorIndivisible(n, d, primes[i - 1]);
      }
    }

    /**
     * A residual above 1 that no table prime up to index i divides, and
     * below the square of the i-th prime, is prime.
     */
    lemma ResidualIsPrime(n: int, i: int)
      requires Valid() && 0 <= i < primes.Length
      requires n > 1 && primes[i] * primes[i] > n
      requires FreeBelow(n, i + 1)
      ensures IsPrime(n)
    {
      if !IsPrime(n) {
        var q := SmallPrimeDivisor(n);
        if q > primes[i] {
          SquareMonotone(primes[i], q);
        }
        var j := PrimeInTable(primes[..], i, q);
        FreeBelowAll(n, i + 1);
        assert false;
      }
    }
  }
}
