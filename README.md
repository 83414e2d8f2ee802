# Hart's one-line factoriser and reciprocal trial division, in Dafny

This project models two integer factorisation routines of java-math-library
and proves what their exact integer checks guarantee.

- `Hart_Fast` is Lehman/Hart's one-line factoriser. It pairs table index `i`
  with multiplier `k = i * 315`. It forms a candidate `a` near
  `sqrt(4kN)`, adjusts it to a residue compatible with a square, and accepts
  `test = a*a - 4kN` only when the truncated root `b` satisfies `b*b == test`.
  It then returns `gcd(a + b, N)` if that is a proper divisor.
- `TDiv63Inverse_NoDoubleCheck` is trial division that multiplies by stored
  reciprocals instead of dividing. Small primes are tested by `N % p`. Larger
  primes up to `pLimit` are tested by a rounded quotient that must multiply
  back to N exactly. Its `factor` strips the table primes from N one after
  another.

Every floating-point value is an oracle parameter:

- the square-root table entries (`sqrtOf`);
- the rounded candidate (`rounded`);
- the truncated root (`root`);
- the rounded quotient (`quotient`).

The integer logic around the oracles is modelled branch for branch, on
unbounded integers. The properties hold for every oracle in that model. They
carry over to Java's 64-bit arithmetic as long as the products involved do not
wrap around; "## Left out" names those products.

Files:

- `numbers.dfy` (module `Numbers`): powers, bit length, divisibility,
  primality, and the Euclidean gcd that stands in for the gcd engine.
- `hart.dfy` (module `Hart`): `AdjustAForOddK`, the search specification
  `SearchFrom`, and class `HartFast` with its table and search loop.
- `tdiv.dfy` (module `TDiv`): the scan specification `Scan`, the
  prime-power product of a factor map, and class `TDivInverse` with the
  `primes`/`reciprocals` arrays, the mutable `pLimit`, `FindSingleFactor` and
  `Factor`.

## Model

| member | source | states |
|---|---|---|
| Hart.MultiplierParity | src/de/tilman_neumann/jml/factor/hart/Hart_Fast.java:44 | because K_MULT = 315 is odd, the multiplier has the parity of its index: odd in the first branch, even in the second |
| Hart.OrOne | src/de/tilman_neumann/jml/factor/hart/Hart_Fast.java:111 | `a \| 1L` is odd and lies in `[a, a+1]`: the even-k candidate is odd |
| Hart.NearestUpToSign | src/de/tilman_neumann/jml/factor/hart/Hart_Fast.java:129-135 | `a + min(adjust1, adjust2)` lies in `[a, a+m)` and is congruent to `kNp1` or `-kNp1` modulo `m` |
| Hart.AdjustAForOddK | src/de/tilman_neumann/jml/factor/hart/Hart_Fast.java:125-138 | if `kNp1 & 3 == 0` the result is in `[a, a+8)` and congruent to `kNp1` mod 8. If `kNp1 & 7 == 6` it is in `[a, a+32)` and congruent to `±kNp1` mod 32. Otherwise it is in `[a, a+16)` and congruent to `±kNp1` mod 16 |
| Hart.AdjustAForOddKIsLeast | src/de/tilman_neumann/jml/factor/hart/Hart_Fast.java:125-138 | no value from `a` up to the result meets the residue condition the result meets, so the adjustment is the smallest possible |
| Hart.AdjustAForOddKParity | src/de/tilman_neumann/jml/factor/hart/Hart_Fast.java:125-138 | the adjusted candidate has the parity of `kN + 1` |
| Hart.Candidate | src/de/tilman_neumann/jml/factor/hart/Hart_Fast.java:101-102 | the candidate lies in `[guess, guess + 32)`. At odd `k` it has the parity of `kN + 1`, and at even `k` (line 111) it is odd |
| Hart.Test | src/de/tilman_neumann/jml/factor/hart/Hart_Fast.java:103 | `test = a*a - k*4N` can be a square. For odd `k` it is congruent to the square `(kN - 1)^2` modulo 8, 16 or 32 (the adjustment's modulus); for even `k` (line 112) it is 1 modulo 8 |
| Hart.IsSquareHit | src/de/tilman_neumann/jml/factor/hart/Hart_Fast.java:104-105 | an accepted `test` (`b*b == test`, also at lines 113-114) is a nonnegative square |
| Hart.HitGcd | src/de/tilman_neumann/jml/factor/hart/Hart_Fast.java:106 | `gcd(a + b, N)` (also at line 115) is positive and divides both N and `a + b` |
| Hart.Hit | src/de/tilman_neumann/jml/factor/hart/Hart_Fast.java:105-106 | an index is accepted only with `1 < gcd < N`, so an accepted index yields a proper divisor of N (also at lines 114-115) |
| Hart.SquareHitIsFermatRelation | src/de/tilman_neumann/jml/factor/hart/Hart_Fast.java:103-105 | an accepted square gives `(a + b)(a - b) == 4kN` |
| Hart.OutcomesAt | src/de/tilman_neumann/jml/factor/hart/Hart_Fast.java:99-117 | entry `i` of the outcome sequence is the gcd of index `i` if it is a hit, else 0 |
| Hart.SearchFrom | src/de/tilman_neumann/jml/factor/hart/Hart_Fast.java:99-121 | the search result is never 0, and it is the sentinel 1 once the index has passed the end of the table (line 121) |
| Hart.SearchFromStep | src/de/tilman_neumann/jml/factor/hart/Hart_Fast.java:99-117 | the search from `i` returns index `i`'s gcd when `i` is a hit, and otherwise what the search from `i + 1` returns |
| Hart.SearchFromFails | src/de/tilman_neumann/jml/factor/hart/Hart_Fast.java:99-121 | the search from `i` returns the sentinel 1 if and only if no table index from `i` on is a hit |
| Hart.SearchFromFirstHit | src/de/tilman_neumann/jml/factor/hart/Hart_Fast.java:99-121 | a non-sentinel result is the gcd of the first hit from `i` on, and it is a proper divisor of N |
| Hart.HartFast.constructor | src/de/tilman_neumann/jml/factor/hart/Hart_Fast.java:62-69 | the table has `I_MAX` entries, `sqrt[0]` keeps its default 0, and `sqrt[i]` is the square root of `i * K_MULT` for `1 <= i < I_MAX` |
| Hart.HartFast.CheckCandidate | src/de/tilman_neumann/jml/factor/hart/Hart_Fast.java:103-106 | it returns nonzero exactly for a hit. A nonzero result is `gcd(a + b, N)`, lies strictly between 1 and N, and divides N |
| Hart.HartFast.TryOddK | src/de/tilman_neumann/jml/factor/hart/Hart_Fast.java:101-107 | at odd index `i`, `k` is odd, and the result is the outcome of index `i` (a proper divisor or 0) |
| Hart.HartFast.TryEvenK | src/de/tilman_neumann/jml/factor/hart/Hart_Fast.java:111-116 | at even index `i`, `k` is even, and the result is the outcome of index `i` (a proper divisor or 0) |
| Hart.HartFast.FindSingleFactor | src/de/tilman_neumann/jml/factor/hart/Hart_Fast.java:86-123 | with `doTDivFirst`, a pre-pass result above 1 is returned unchanged. Otherwise the result is `SearchFrom` at index 1: the first hit's gcd, or 1 once the table read goes out of bounds. It is always 1 or a proper divisor of N. The loop invariant keeps `k == i * 315` (lines 97, 108, 117) |
| Numbers.Gcd | src/de/tilman_neumann/jml/factor/hart/Hart_Fast.java:106 | the gcd is positive and divides both arguments unless both are 0 |
| Numbers.BitLengthBounds | src/de/tilman_neumann/jml/factor/tdiv/TDiv63Inverse_NoDoubleCheck.java:126 | `64 - numberOfLeadingZeros(N)` of a positive N satisfies `2^(bits-1) <= N < 2^bits` |
| Numbers.ExactProductDivides | src/de/tilman_neumann/jml/factor/tdiv/TDiv63Inverse_NoDoubleCheck.java:143 | if a guessed quotient times `p` equals N, then `p` divides N and the guess is `N / p`, whatever produced the guess |
| TDiv.LongBitLength | src/de/tilman_neumann/jml/factor/tdiv/TDiv63Inverse_NoDoubleCheck.java:126 | `Nbits`: 64 for a negative `long`, 0 for 0, and otherwise the `b` with `2^(b-1) <= N < 2^b` |
| TDiv.PMin | src/de/tilman_neumann/jml/factor/tdiv/TDiv63Inverse_NoDoubleCheck.java:127-131 | `pMin` is 0 when there is no exact phase and otherwise a power of two, at least 2. A negative N counts as 64 bits wide, so its `pMin` is `2^21` |
| TDiv.PMinWindow | src/de/tilman_neumann/jml/factor/tdiv/TDiv63Inverse_NoDoubleCheck.java:126-131 | for N >= 0, every prime from `pMin` on leaves `N / p < 2^43`, so 10 of the 53 mantissa bits are left to tell an integer quotient from a fraction. `pMin` is the least power of two that does so: `2^42 * pMin <= N` |
| TDiv.SourcePrefix | src/de/tilman_neumann/jml/factor/tdiv/TDiv63Inverse_NoDoubleCheck.java:62-66 | the first `primeCountBound` primes of the source form a table of consecutive primes from 2 |
| TDiv.PrimeInTable | src/de/tilman_neumann/jml/factor/tdiv/TDiv63Inverse_NoDoubleCheck.java:88-90 | every prime up to `primes[i]` occurs in the table at or before index `i` |
| TDiv.Passes | src/de/tilman_neumann/jml/factor/tdiv/TDiv63Inverse_NoDoubleCheck.java:133 | a prime below `pMin` passes when it divides N. A prime from `pMin` on passes when its quotient multiplies back to N (line 143), and then it divides N and the quotient is `N / p` |
| TDiv.InScope | src/de/tilman_neumann/jml/factor/tdiv/TDiv63Inverse_NoDoubleCheck.java:132 | with no exact phase, the scan reaches exactly the primes up to `pLimit` (line 140). With `pLimit < pMin`, it reaches exactly the primes below `pMin` |
| TDiv.Scan | src/de/tilman_neumann/jml/factor/tdiv/TDiv63Inverse_NoDoubleCheck.java:129-147 | a nonzero result is a table prime in scope |
| TDiv.ScanFindsFirst | src/de/tilman_neumann/jml/factor/tdiv/TDiv63Inverse_NoDoubleCheck.java:129-147 | a nonzero scan result is the first table prime in scope that passes its test. Every earlier one was in scope and failed its test |
| TDiv.ScanZero | src/de/tilman_neumann/jml/factor/tdiv/TDiv63Inverse_NoDoubleCheck.java:123-156 | the scan returns 0 if and only if no table prime in scope passes its test. Scope means below `pMin`, or at most `pLimit` |
| TDiv.ScanDivides | src/de/tilman_neumann/jml/factor/tdiv/TDiv63Inverse_NoDoubleCheck.java:132-146 | a nonzero result divides N in both phases, whatever the quotient oracle returned |
| TDiv.ScanPhases | src/de/tilman_neumann/jml/factor/tdiv/TDiv63Inverse_NoDoubleCheck.java:129-147 | an exact-phase result is the smallest table prime dividing N. A reciprocal-phase result is at most `pLimit` |
| TDiv.ProductAddCount | src/de/tilman_neumann/jml/factor/tdiv/TDiv63Inverse_NoDoubleCheck.java:101-103 | adding `exp` copies of `p` to the multiset multiplies its prime-power product by `p^exp` |
| TDiv.RecordFactor | src/de/tilman_neumann/jml/factor/tdiv/TDiv63Inverse_NoDoubleCheck.java:101-105 | recording `p^exp` keeps (product of recorded powers) × (remaining N) equal to the original N. It keeps every key in `[2, N]` with a positive count |
| TDiv.AddCount | src/de/tilman_neumann/jml/factor/tdiv/TDiv63Inverse_NoDoubleCheck.java:102 | `add(p, exp)` (also at line 105) raises `p`'s count by `exp` and leaves every other count as it was |
| TDiv.IntCast | src/de/tilman_neumann/jml/factor/tdiv/TDiv63Inverse_NoDoubleCheck.java:93 | `(int)` saturates: the result is in the `int` range, unchanged inside it, and `Integer.MAX_VALUE` above it |
| TDiv.StripCheckAsWritten | src/de/tilman_neumann/jml/factor/tdiv/TDiv63Inverse_NoDoubleCheck.java:93-94 | the test as written still passes only when `p` divides `n`. It agrees with the `(long)` test whenever the quotient fits in an `int` |
| TDiv.StripCheckAsWrittenRejectsLarge | src/de/tilman_neumann/jml/factor/tdiv/TDiv63Inverse_NoDoubleCheck.java:93-94 | after the `(int)` cast, no `n` above `Integer.MAX_VALUE * p` passes the re-multiplication test |
| TDiv.StripCheckAsWrittenMissesTwo | src/de/tilman_neumann/jml/factor/tdiv/TDiv63Inverse_NoDoubleCheck.java:93-94 | for `n = 2^32` and `p = 2`, the test as written rejects even the exact quotient, which the `(long)` test accepts |
| TDiv.TDivInverse.constructor | src/de/tilman_neumann/jml/factor/tdiv/TDiv63Inverse_NoDoubleCheck.java:57-67 | afterwards `pLimit == factorLimit`, `primes[i]` is the i-th prime of the source for every `i < primeCountBound`, and `reciprocals[i] == 1/primes[i]` |
| TDiv.TDivInverse.SetTestLimit | src/de/tilman_neumann/jml/factor/tdiv/TDiv63Inverse_NoDoubleCheck.java:79-81 | only `pLimit` changes. The prime and reciprocal arrays keep their contents |
| TDiv.TDivInverse.FindSingleFactor | src/de/tilman_neumann/jml/factor/tdiv/TDiv63Inverse_NoDoubleCheck.java:123-157 | the result is the scan from index 0, with 0 when the table runs out. A nonzero result is a table prime, is prime, and divides N |
| TDiv.TDivInverse.ScanTable | src/de/tilman_neumann/jml/factor/tdiv/TDiv63Inverse_NoDoubleCheck.java:124-137 | the bit length, `pMinBits` and `1 << pMinBits` pick the exact phase only when `pMinBits > 0`. The result of the two phases is the scan from index 0 |
| TDiv.TDivInverse.ExactPhase | src/de/tilman_neumann/jml/factor/tdiv/TDiv63Inverse_NoDoubleCheck.java:132-136 | a prime that divides N is the scan's result. Otherwise it stops at the first prime not below `pMin`, or at the end of the table, and the scan from there gives the same result |
| TDiv.TDivInverse.ReciprocalPhase | src/de/tilman_neumann/jml/factor/tdiv/TDiv63Inverse_NoDoubleCheck.java:140-148 | the loop returns the scan from index `i`: the first prime up to `pLimit` whose quotient multiplies back to N, or 0 |
| TDiv.TDivInverse.ScanPrime | src/de/tilman_neumann/jml/factor/tdiv/TDiv63Inverse_NoDoubleCheck.java:133-146 | a nonzero scan result is a table prime, is prime, and divides N |
| TDiv.TDivInverse.StripPrime | src/de/tilman_neumann/jml/factor/tdiv/TDiv63Inverse_NoDoubleCheck.java:89-100 | `p` is divided out only after `N % p == 0`, so `rest * p^exp == N` and `rest` divides N. With exact quotients, `rest` is free of `p` and of every earlier table prime N was free of |
| TDiv.TDivInverse.Factor | src/de/tilman_neumann/jml/factor/tdiv/TDiv63Inverse_NoDoubleCheck.java:84-111 | the recorded prime powers multiply to N, with every key in `[2, N]` and every count positive. With exact quotients every key is prime. Running off the table means every table prime's square is at most N |
| TDiv.TDivInverse.RecordResidual | src/de/tilman_neumann/jml/factor/tdiv/TDiv63Inverse_NoDoubleCheck.java:104-106 | once `p*p > N`, recording the residual when it is above 1 completes the product. With exact quotients the residual is prime |
| TDiv.TDivInverse.ResidualIsPrime | src/de/tilman_neumann/jml/factor/tdiv/TDiv63Inverse_NoDoubleCheck.java:104-105 | a residual above 1 that is free of every table prime up to `p`, and below `p*p`, is prime |

## Left out

- Floating-point arithmetic is not modelled. This covers `Math.sqrt`, `Math.cbrt`, `ROUND_UP_DOUBLE`, `DISCRIMINATOR` and the rounding of the stored reciprocals. Each float-derived integer is an oracle parameter: the table entries, the rounded candidate `a`, the root `b` and the quotient `nDivPrime`.
- The gcd engine (`Gcd63`) is not part of this model. `Numbers.Gcd` is Euclid's algorithm with the contract the search relies on.
- The pre-pass of `Hart_Fast` is not modelled. It is trial division by another class, `TDiv63Inverse`, with limit `(int) Math.cbrt(N)`. It is a parameter `prePass` that is 0 or a proper divisor of N.
- `PrimeCountUpperBounds` and `AutoExpandingPrimesArray` are not part of this model. They are the parameters `primeCountBound` and `primeSource`, and the source must list the primes in order.
- Hart.HartFast.FindSingleFactor: does not model 64-bit wrap-around of `N<<2`, `k*N+1`, `a*a` and `k*fourN`. Integers are unbounded. `r == SearchFrom(...)` carries over to Java only while these stay in the `long` range; `N<<2` alone wraps from N >= 2^61 on. That a returned factor is 1 or a proper divisor of N holds regardless, because it is a gcd with N. The masks `& 3`, `& 7`, `& 15`, `& 31` are Euclidean residues, which wrap-around does not change.
- Hart.HartFast.FindSingleFactor: requires N > 1; the source is meant for composite N and gives no defined answer for N <= 1.
- TDiv.TDivInverse.FindSingleFactor: does not model wrap-around of `nDivPrime * primes[i]` (line 143). "Whatever the quotient oracle returns" carries over to Java only for quotients whose product with `p` does not wrap. For an odd `p`, some wrapping `long` quotient passes for every N: with N = 1 and p = 3, q = -6148914691236517205 passes although 3 does not divide 1. The real `(long) (N * r + DISCRIMINATOR)` is close to `N / p` and does not wrap. The same holds for the test at lines 93-94 of `factor`. With an empty table the source's error handler itself reads `primes[-1]` and throws; the model returns 0 as for any other exhaustion.
- TDiv.TDivInverse.Factor: the uncaught `ArrayIndexOutOfBoundsException` past the end of the table becomes `None`. N must be at least 1: N = 0 never terminates in the source. The insertion order of the sorted multiset is not modelled; it is a map from prime to exponent.
- TDiv.TDivInverse.Factor: it proves primality of the recorded factors only under `ExactQuotients`, because the quotient oracle is otherwise unconstrained. `ExactQuotients` says the rounded quotient is exact whenever the table prime divides. The `(long) (N * r + DISCRIMINATOR)` rounding of the source meets this only while n / p stays below about 2^42 (n below 2^53). For N = 6917529027641081859 = 3 * (2^61 + 1) and p = 3, `(double) N` rounds to 3 * 2^61 and the rounded quotient is 2^61 instead of 2^61 + 1, so 3 is rejected.
- The error log messages are not modelled, and neither are `getName`, the `BigInteger` overloads or the `main` test harnesses. `TestNumberNature` is only a benchmark label.
- A table overrun is reported as the ordinary "not found" value (1 for Hart, 0 for trial division), as the code does. Hart logs the failure (Hart_Fast.java:119-121). Trial division logs the overrun and returns 0 (TDiv63Inverse_NoDoubleCheck.java:149-156), and its callers are expected to keep `pLimit` below the constructor's `factorLimit` (lines 76-77).

## Findings

| source | as written | input that shows it | evidently intended | confidence | as-written member | corrected member |
|---|---|---|---|---|---|---|
| src/de/tilman_neumann/jml/factor/tdiv/TDiv63Inverse_NoDoubleCheck.java:93 | the quotient is cast with `(int)`, which saturates at 2^31 - 1 before `nDivPrime * p != N` | N = 2^32, p = 2: the exact quotient 2^31 becomes 2^31 - 1, so 2 is never divided out. The scan then either runs off the table or records 2^32 as a single factor | `(long)`, as in the same test at line 142; that cast gives the exact quotient only while n / p stays below about 2^42 | high; not executed | TDiv.StripCheckAsWrittenMissesTwo | TDiv.TDivInverse.Factor |
