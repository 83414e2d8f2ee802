/**
 * Hart's one-line factoriser in the variant that only tries multipliers
 * k that are multiples of K_MULT and keeps a table of sqrt(i * K_MULT).
 *
 * Every floating-point value the search uses is an oracle: the table
 * entries come from `sqrtOf`, the rounded candidate `a` from
 * `rounded(sqrt[i])`, and the truncated root of `test` from `root`.  The
 * exact integer checks around them are modelled as written, so every
 * property below holds whatever the oracles return.  Integers are
 * unbounded: the search matches Java's 64-bit arithmetic while `4N`,
 * `kN + 1` and `a*a - k*4N` stay in the `long` range; that a returned
 * factor is a proper divisor of N does not depend on it, because it is a
 * gcd with N.
 */
module Hart {
  import opened Numbers

  /** Only multipliers k that are multiples of this constant (3*3*5*7) are tried. */
  const K_MULT: int := 315

  /** Size of the square-root table (1 << 20). */
  const I_MAX: int := 0x10_0000

  /** The multiplier paired with table index `i`. */
  function Multiplier(i: int): int {
    i * K_MULT
  }

  /** Stepping the index by one steps the multiplier by K_MULT. */
  lemma MultiplierStep(i: int)
    ensures Multiplier(i + 1) == Multiplier(i) + K_MULT
  {
  }

  /** Because K_MULT is odd, the multiplier has the parity of its index. */
  lemma MultiplierParity(i: int)
    ensures Multiplier(i) % 2 == i % 2
  {
    assert Multiplier(i) == 2 * (157 * i) + i;
  }

  /** `x | 1L` on a two's-complement `long`: the least odd value not below `x`. */
  function OrOne(x: int): (r: int)
    ensures r % 2 == 1
    ensures x <= r <= x + 1
  {
    if x % 2 == 0 then x + 1 else x
  }

  /** `x` is congruent to `c` or to `-c` modulo `m`. */
  predicate CongruentUpToSign(x: int, c: int, m: int)
    requires m > 0
  {
    (x - c) % m == 0 || (x + c) % m == 0
  }

  /**
   * `a` plus the smaller of the steps `(c - a) & (m-1)` and `(-c - a) & (m-1)`:
   * the first value from `a` on that is congruent to `c` or `-c` modulo `m`.
   */
  function NearestUpToSign(a: int, c: int, m: int): (r: int)
    requires m > 0
    ensures a <= r < a + m && CongruentUpToSign(r, c, m)
  {
    var adjust1 := (c - a) % m;
    var adjust2 := (-c - a) % m;
    StepUpToResidue(a, c, m);
    StepUpToResidue(a, -c, m);
    a + (if adjust1 < adjust2 then adjust1 else adjust2)
  }

  /**
   * Moves `a` up to the nearest value whose residue is compatible with
   * `a*a - 4kN` being a square for odd k, where `kNp1 = k*N + 1`.  The
   * masks `& 3`, `& 7`, `& 15`, `& 31` of a two's-complement value are
   * its Euclidean residues, so they are written as `%` here.
   */
  function AdjustAForOddK(a: int, kNp1: int): (r: int)
    ensures kNp1 % 4 == 0 ==> a <= r < a + 8 && (r - kNp1) % 8 == 0
    ensures kNp1 % 4 != 0 && kNp1 % 8 == 6 ==> a <= r < a + 32 && CongruentUpToSign(r, kNp1, 32)
    ensures kNp1 % 4 != 0 && kNp1 % 8 != 6 ==> a <= r < a + 16 && CongruentUpToSign(r, kNp1, 16)
  {
    if kNp1 % 4 == 0 then
      StepUpToResidue(a, kNp1, 8);
      a + (kNp1 - a) % 8
    else if kNp1 % 8 == 6 then
      NearestUpToSign(a, kNp1, 32)
    else
      NearestUpToSign(a, kNp1, 16)
  }

  /** The modulus AdjustAForOddK works with for a given `kN + 1`. */
  function AdjustModulus(kNp1: int): int {
    if kNp1 % 4 == 0 then 8 else if kNp1 % 8 == 6 then 32 else 16
  }

  /** A step `d` in `[0, m)` reaching the residue of `c` is that residue's distance from `a`. */
  lemma StepToResidue(a: int, d: int, c: int, m: int)
    requires m > 0 && 0 <= d < m
    requires (a + d - c) % m == 0
    ensures (c - a) % m == d
  {
    var q := (a + d - c) / m;
    assert a + d - c == q * m;
    DivModUnique(c - a, m, -q, d);
  }

  /**
   * The adjustment is the smallest one: no value between `a` and the
   * result satisfies the residue condition the result satisfies.
   */
  lemma AdjustAForOddKIsLeast(a: int, kNp1: int, x: int)
    requires a <= x < AdjustAForOddK(a, kNp1)
    ensures kNp1 % 4 == 0 ==> (x - kNp1) % 8 != 0
    ensures kNp1 % 4 != 0 ==> !CongruentUpToSign(x, kNp1, AdjustModulus(kNp1))
  {
    var m := AdjustModulus(kNp1);
    var d := x - a;
    if (x - kNp1) % m == 0 {
      StepToResidue(a, d, kNp1, m);
    }
    if m != 8 && (x + kNp1) % m == 0 {
      StepToResidue(a, d, -kNp1, m);
    }
  }

  /** Values congruent up to sign modulo an even modulus have the same parity. */
  lemma CongruentUpToSignParity(x: int, c: int, m: int)
    requires m > 0 && m % 2 == 0
    requires CongruentUpToSign(x, c, m)
    ensures x % 2 == c % 2
  {
    var h := m / 2;
    if (x - c) % m == 0 {
      var q := (x - c) / m;
      assert x == 2 * (h * q + c / 2) + c % 2;
      DivModUnique(x, 2, h * q + c / 2, c % 2);
    } else {
      var q := (x + c) / m;
      assert x == 2 * (h * q - c / 2 - c % 2) + c % 2;
      DivModUnique(x, 2, h * q - c / 2 - c % 2, c % 2);
    }
  }

  /** The adjusted candidate has the parity of `kN + 1`. */
  lemma AdjustAForOddKParity(a: int, kNp1: int)
    ensures AdjustAForOddK(a, kNp1) % 2 == kNp1 % 2
  {
    CongruentUpToSignParity(AdjustAForOddK(a, kNp1), kNp1, AdjustModulus(kNp1));
  }

  /**
   * The candidate `a` the search forms at table index `i` from the
   * rounded guess: adjusted for odd k, forced odd for even k.
   */
  function Candidate(N: int, i: int, guess: int): (a: int)
    ensures guess <= a < guess + 32
    ensures i % 2 == 1 ==> a % 2 == (Multiplier(i) * N + 1) % 2
    ensures i % 2 != 1 ==> a % 2 == 1
  {
    var kNp1 := Multiplier(i) * N + 1;
    AdjustAForOddKParity(guess, kNp1);
    if i % 2 == 1 then AdjustAForOddK(guess, kNp1) else OrOne(guess)
  }

  /**
   * `test = a*a - k*4N` at index `i`.  The candidate is chosen so that
   * `test` can be a square: for odd k it is congruent to the square
   * `(kN - 1)^2` modulo 8, 16 or 32, and for even k it is 1 modulo 8,
   * like every odd square.
   */
  function Test(N: int, i: int, guess: int): (test: int)
    ensures var kNp1 := Multiplier(i) * N + 1;
            i % 2 == 1 ==> (test - (kNp1 - 2) * (kNp1 - 2)) % AdjustModulus(kNp1) == 0
    ensures i % 2 != 1 ==> test % 8 == 1
  {
    var a, k := Candidate(N, i, guess), Multiplier(i);
    CandidateResidue(N, i, guess);
    TestResidue(a, k, N, i);
    a * a - k * (4 * N)
  }

  /** An odd candidate's residue modulo the adjustment's modulus, as AdjustAForOddK chose it. */
  lemma CandidateResidue(N: int, i: int, guess: int)
    ensures var kNp1 := Multiplier(i) * N + 1;
            i % 2 == 1 ==> CongruentUpToSign(Candidate(N, i, guess), kNp1, AdjustModulus(kNp1))
  {
  }

  /** The residue of `a*a - 4kN` that the choice of candidate guarantees. */
  lemma TestResidue(a: int, k: int, N: int, i: int)
    requires k == Multiplier(i)
    requires i % 2 == 1 ==> CongruentUpToSign(a, k * N + 1, AdjustModulus(k * N + 1))
    requires i % 2 != 1 ==> a % 2 == 1
    ensures var kNp1 := k * N + 1;
            i % 2 == 1 ==> (a * a - k * (4 * N) - (kNp1 - 2) * (kNp1 - 2)) % AdjustModulus(kNp1) == 0
    ensures i % 2 != 1 ==> (a * a - k * (4 * N)) % 8 == 1
  {
    var kNp1 := k * N + 1;
    if i % 2 == 1 {
      SquareResidue(a, kNp1, AdjustModulus(kNp1));
      TestShift(a, k, N);
    } else {
      MultiplierParity(i);
      var s := k / 2;
      assert k * (4 * N) == 8 * (s * N);
      var q := OddSquare(a);
      DivModUnique(a * a - k * (4 * N), 8, q - s * N, 1);
    }
  }

  /** Numbers congruent up to sign have squares congruent modulo the same modulus. */
  lemma SquareResidue(a: int, c: int, m: int)
    requires m > 0 && CongruentUpToSign(a, c, m)
    ensures (a * a - c * c) % m == 0
  {
    DifferenceOfSquares(a, c);
    if (a - c) % m == 0 {
      MultipleTimes(a - c, a + c, m);
    } else {
      MultipleTimes(a + c, a - c, m);
    }
  }

  /** A multiple of `m` times anything is a multiple of `m`. */
  lemma MultipleTimes(x: int, y: int, m: int)
    requires m > 0 && x % m == 0
    ensures (x * y) % m == 0 && (y * x) % m == 0
  {
    var t := x / m;
    assert x == t * m;
    assert x * y == (t * y) * m;
    ExactProductDivides(t * y, m, x * y);
  }

  /** With `c = kN + 1`, `a*a - 4kN - (c - 2)^2` is `a*a - c*c`. */
  lemma TestShift(a: int, k: int, N: int)
    ensures var c := k * N + 1; a * a - k * (4 * N) - (c - 2) * (c - 2) == a * a - c * c
  {
    var c := k * N + 1;
    assert k * (4 * N) == 4 * (k * N);
    assert (c - 2) * (c - 2) == c * c - 4 * c + 4;
  }

  /** Every odd square is 1 modulo 8. */
  lemma OddSquare(a: int) returns (q: int)
    requires a % 2 == 1
    ensures a * a == 8 * q + 1
  {
    var u := a / 4;
    if a % 4 == 1 {
      assert a == 4 * u + 1;
      q := 2 * u * u + u;
      calc {
        a * a;
        (4 * u + 1) * (4 * u + 1);
        16 * u * u + 8 * u + 1;
      }
    } else {
      assert a == 4 * u + 3;
      q := 2 * u * u + 3 * u + 1;
      calc {
        a * a;
        (4 * u + 3) * (4 * u + 3);
        16 * u * u + 24 * u + 9;
      }
    }
  }

  /**
   * A square is nonnegative.  Stated as a lemma of its own so that the
   * solver meets the product `b * b` without the context of IsSquareHit.
   */
  lemma SquareNonNegative(b: int)
    ensures b * b >= 0
  {
  }

  /** `test` is accepted as a square only if the truncated root squares back to it exactly. */
  predicate IsSquareHit(N: int, i: int, guess: int, root: int -> int)
    ensures IsSquareHit(N, i, guess, root) ==> Test(N, i, guess) >= 0
  {
    var test := Test(N, i, guess);
    var b := root(test);
    SquareNonNegative(b);
    b * b == test
  }

  /** `gcd(a + b, N)` at index `i`: a divisor of both `a + b` and N. */
  function HitGcd(N: nat, i: int, guess: int, root: int -> int): (g: nat)
    ensures N > 0 ==> g > 0 && N % g == 0
    ensures N > 0 ==> Abs(Candidate(N, i, guess) + root(Test(N, i, guess))) % g == 0
  {
    var a := Candidate(N, i, guess);
    Gcd(Abs(a + root(Test(N, i, guess))), N)
  }

  /** Index `i` yields a factor: an exact square whose gcd with N is proper, and so a proper divisor of N. */
  predicate Hit(N: nat, i: int, guess: int, root: int -> int)
    ensures Hit(N, i, guess, root) ==> var g := HitGcd(N, i, guess, root); 1 < g < N && N % g == 0
  {
    IsSquareHit(N, i, guess, root) && 1 < HitGcd(N, i, guess, root) < N
  }

  /**
   * An accepted square is a Fermat relation: with `b*b == a*a - 4kN`,
   * `(a + b)(a - b) == 4kN`, which is why `gcd(a + b, N)` may be a factor.
   */
  lemma SquareHitIsFermatRelation(N: int, i: int, guess: int, root: int -> int)
    requires IsSquareHit(N, i, guess, root)
    ensures var a, b := Candidate(N, i, guess), root(Test(N, i, guess));
            (a + b) * (a - b) == Multiplier(i) * (4 * N)
  {
    var a, k := Candidate(N, i, guess), Multiplier(i);
    var b := root(Test(N, i, guess));
    assert b * b == a * a - k * (4 * N);
    DifferenceOfSquares(a, b);
  }

  /**
   * `(a + b)(a - b) == a*a - b*b`.  Kept apart from its callers: as an
   * inline assertion among their other products, the solver runs out of
   * resource on it.
   */
  lemma DifferenceOfSquares(a: int, b: int)
    ensures (a + b) * (a - b) == a * a - b * b
  {
  }

  /** What index `i` contributes to the search: its gcd if it is a hit, otherwise 0. */
  function Outcome(N: nat, i: int, guess: int, root: int -> int): int {
    if Hit(N, i, guess, root) then HitGcd(N, i, guess, root) else 0
  }

  /** The outcomes of table indices `lo` up to the end of the table, in order. */
  function OutcomesFrom(N: nat, table: seq<real>, lo: nat, rounded: real -> int, root: int -> int): (r: seq<int>)
    ensures |r| == if lo < |table| then |table| - lo else 0
    decreases |table| - lo
  {
    if lo >= |table| then [] else [Outcome(N, lo, rounded(table[lo]), root)] + OutcomesFrom(N, table, lo + 1, rounded, root)
  }

  /** The outcomes of every table index. */
  function Outcomes(N: nat, table: seq<real>, rounded: real -> int, root: int -> int): (r: seq<int>)
    ensures |r| == |table|
  {
    OutcomesFrom(N, table, 0, rounded, root)
  }

  lemma {:induction false} OutcomesFromAt(N: nat, table: seq<real>, lo: nat, rounded: real -> int, root: int -> int, i: nat)
    requires lo <= i < |table|
    ensures OutcomesFrom(N, table, lo, rounded, root)[i - lo] == Outcome(N, i, rounded(table[i]), root)
    decreases i - lo
  {
    if lo < i {
      OutcomesFromAt(N, table, lo + 1, rounded, root, i);
    }
  }

  /** Entry `i` of the outcomes is index `i`'s outcome. */
  lemma OutcomesAt(N: nat, table: seq<real>, rounded: real -> int, root: int -> int, i: nat)
    requires i < |table|
    ensures Outcomes(N, table, rounded, root)[i] == Outcome(N, i, rounded(table[i]), root)
  {
    OutcomesFromAt(N, table, 0, rounded, root, i);
  }

  /** The first nonzero outcome from `i` on, or the failure value 1. */
  function FirstFactor(outcomes: seq<int>, i: nat): (r: int)
    ensures r != 0
    decreases |outcomes| - i
  {
    if i >= |outcomes| then 1
    else if outcomes[i] != 0 then outcomes[i]
    else FirstFactor(outcomes, i + 1)
  }

  /**
   * What the search returns when it starts at table index `i`: the gcd of
   * the first hit from `i` on, or the failure value 1 once the table is
   * exhausted.
   */
  function SearchFrom(N: nat, table: seq<real>, i: nat, rounded: real -> int, root: int -> int): (r: int)
    ensures r != 0
    ensures i >= |table| ==> r == 1
  {
    FirstFactor(Outcomes(N, table, rounded, root), i)
  }

  /**
   * The search step by step: a hit at `i` is returned, a miss passes on to
   * index `i + 1`.
   */
  lemma SearchFromStep(N: nat, table: seq<real>, i: nat, rounded: real -> int, root: int -> int)
    requires i < |table|
    ensures SearchFrom(N, table, i, rounded, root) ==
              if Hit(N, i, rounded(table[i]), root) then HitGcd(N, i, rounded(table[i]), root)
              else SearchFrom(N, table, i + 1, rounded, root)
  {
    OutcomesAt(N, table, rounded, root, i);
  }

  /** The search from `i` fails exactly when no index from `i` on is a hit. */
  lemma {:induction false} SearchFromFails(N: nat, table: seq<real>, i: nat, rounded: real -> int, root: int -> int)
    requires 1 < N
    ensures SearchFrom(N, table, i, rounded, root) == 1 <==>
              forall j :: i <= j < |table| ==> !Hit(N, j, rounded(table[j]), root)
    decreases |table| - i
  {
    if i < |table| {
      OutcomesAt(N, table, rounded, root, i);
      if !Hit(N, i, rounded(table[i]), root) {
        SearchFromFails(N, table, i + 1, rounded, root);
      }
    }
  }

  /**
   * A factor the search returns is the gcd of the first hit from `i` on,
   * and so a proper divisor of N.
   */
  lemma {:induction false} SearchFromFirstHit(N: nat, table: seq<real>, i: nat, rounded: real -> int, root: int -> int)
    requires 1 < N
    requires SearchFrom(N, table, i, rounded, root) != 1
    ensures exists j :: i <= j < |table| && Hit(N, j, rounded(table[j]), root)
              && SearchFrom(N, table, i, rounded, root) == HitGcd(N, j, rounded(table[j]), root)
              && forall l :: i <= l < j ==> !Hit(N, l, rounded(table[l]), root)
    ensures var r := SearchFrom(N, table, i, rounded, root); 1 < r < N && N % r == 0
    decreases |table| - i
  {
    OutcomesAt(N, table, rounded, root, i);
    if !Hit(N, i, rounded(table[i]), root) {
      SearchFromFirstHit(N, table, i + 1, rounded, root);
      var j :| i + 1 <= j < |table| && Hit(N, j, rounded(table[j]), root)
              && SearchFrom(N, table, i + 1, rounded, root) == HitGcd(N, j, rounded(table[j]), root)
              && forall l :: i + 1 <= l < j ==> !Hit(N, l, rounded(table[l]), root);
    }
  }

  class HartFast {
    const doTDivFirst: bool
    /** sqrt[i] is the floating-point square root of i * K_MULT for 1 <= i < I_MAX. */
    const sqrt: array<real>

    /**
     * Fills the table; `sqrtOf` stands for `Math.sqrt` on the exact
     * integer `i * K_MULT`.
     */
    constructor (doTDivFirst: bool, sqrtOf: int -> real)
      ensures this.doTDivFirst == doTDivFirst
      ensures fresh(sqrt) && sqrt.Length == I_MAX
      ensures sqrt[0] == 0.0
      ensures forall i :: 1 <= i < I_MAX ==> sqrt[i] == sqrtOf(i * K_MULT)
    {
      this.doTDivFirst := doTDivFirst;
      var table := new real[I_MAX](_ => 0.0);
      for i := 1 to I_MAX
        invariant table[0] == 0.0
        invariant forall j :: 1 <= j < i ==> table[j] == sqrtOf(j * K_MULT)
      {
        table[i] := sqrtOf(i * K_MULT);
      }
      sqrt := table;
    }

    /**
     * The exact check both branches make on candidate `a` at index `i`:
     * `test = a*a - k*fourN` is accepted only if `b*b == test` for
     * `b = root(test)`, and then `gcd(a + b, N)` is the factor when
     * `1 < gcd < N`; 0 means the search goes on.
     */
    static method CheckCandidate(N: int, i: int, k: int, fourN: int, guess: int, a: int, root: int -> int)
      returns (factor: int)
      requires 1 < N && k == Multiplier(i) && fourN == 4 * N
      requires a == Candidate(N, i, guess)
      ensures factor != 0 <==> Hit(N, i, guess, root)
      ensures factor != 0 ==> factor == HitGcd(N, i, guess, root) && 1 < factor < N && N % factor == 0
    {
      var test := a * a - k * fourN;
      assert test == Test(N, i, guess);
      var b := root(test);
      factor := 0;
      if b * b == test {
        var gcd := Gcd(Abs(a + b), N);
        if 1 < gcd < N {
          factor := gcd;
        }
      }
    }

    /** Odd k: the candidate read at index `i` is adjusted modulo 8, 16 or 32. */
    method TryOddK(N: int, i: int, k: int, fourN: int, rounded: real -> int, root: int -> int)
      returns (factor: int)
      requires 1 < N && 1 <= i < sqrt.Length && i % 2 == 1
      requires k == Multiplier(i) && fourN == 4 * N
      ensures k % 2 == 1
      ensures factor == Outcomes(N, sqrt[..], rounded, root)[i]
      ensures factor != 0 ==> 1 < factor < N && N % factor == 0
    {
      MultiplierParity(i);
      OutcomesAt(N, sqrt[..], rounded, root, i);
      var a := AdjustAForOddK(rounded(sqrt[i]), k * N + 1);
      factor := CheckCandidate(N, i, k, fourN, rounded(sqrt[i]), a, root);
    }

    /** Even k: the candidate read at index `i` is forced odd. */
    method TryEvenK(N: int, i: int, k: int, fourN: int, rounded: real -> int, root: int -> int)
      returns (factor: int)
      requires 1 < N && 1 <= i < sqrt.Length && i % 2 == 0
      requires k == Multiplier(i) && fourN == 4 * N
      ensures k % 2 == 0
      ensures factor == Outcomes(N, sqrt[..], rounded, root)[i]
      ensures factor != 0 ==> 1 < factor < N && N % factor == 0
    {
      MultiplierParity(i);
      OutcomesAt(N, sqrt[..], rounded, root, i);
      var a := OrOne(rounded(sqrt[i]));
      factor := CheckCandidate(N, i, k, fourN, rounded(sqrt[i]), a, root);
    }

    /**
     * Finds a factor of N, or returns 1 when the table is exhausted.
     * `prePass` is what trial division up to cbrt(N) returns for N (0 or
     * a proper divisor); it is consulted only when `doTDivFirst` holds.
     * `rounded` gives `(long) (sqrt4N * s + ROUND_UP_DOUBLE)` for a table
     * entry `s`, and `root` gives `(long) Math.sqrt(test)`.
     */
    method FindSingleFactor(N: int, prePass: int, rounded: real -> int, root: int -> int)
      returns (r: int)
      requires 1 < N
      requires prePass == 0 || (1 < prePass < N && N % prePass == 0)
      ensures r == 1 || (1 < r < N && N % r == 0)
      ensures r == if doTDivFirst && prePass > 1 then prePass else SearchFrom(N, sqrt[..], 1, rounded, root)
    {
      if doTDivFirst {
        if prePass > 1 {
          return prePass;
        }
      }

      var fourN := 4 * N;
      var k := K_MULT;
      var i := 1;
      ghost var round := 0;  // completed odd/even pairs
      while true
        invariant 1 <= i <= sqrt.Length + 1 && i == 2 * round + 1
        invariant k == Multiplier(i)
        invariant FirstFactor(Outcomes(N, sqrt[..], rounded, root), i) == SearchFrom(N, sqrt[..], 1, rounded, root)
        decreases sqrt.Length + 1 - i
      {
        if i >= sqrt.Length {
          return 1;  // the table read is out of bounds
        }
        var factor := TryOddK(N, i, k, fourN, rounded, root);
        if factor != 0 {
          return factor;
        }
        MultiplierStep(i);
        i, k := i + 1, k + K_MULT;

        if i >= sqrt.Length {
          return 1;  // the table read is out of bounds
        }
        factor := TryEvenK(N, i, k, fourN, rounded, root);
        if factor != 0 {
          return factor;
        }
        MultiplierStep(i);
        i, k := i + 1, k + K_MULT;
        round := round + 1;
      }
    }
  }
}
