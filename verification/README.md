# Quadratic sieve: integer pipeline

A Dafny model of the integer core of a small quadratic-sieve factoriser
(`QuadraticSieve.java`). The model follows the pipeline in order:

1. `eratosthenesSieve` builds the factor base: the sign marker -1 followed by
   the numbers below a bound that survive striking out multiples.
2. `calcResiduals` strips every factor-base prime out of every candidate
   value. What is left, in absolute value, is the candidate's residual.
3. `refactor` builds the exponent matrix of the candidates whose residual is
   1. Each row is tagged with the candidate's position.
4. `reduceModTwo` reduces every exponent with Java's `% 2`.
5. `gauss` runs one elimination pass over the parity matrix. It records, for
   every row, the pivot positions applied to it.
6. `completeFactors` divides collected factors by each other.
7. `gcd` is Euclid's algorithm.

Java's `/` and `%` truncate toward zero, and Dafny's do not. Wherever an
operand may be negative, the model uses `Arith.JavaDiv` and `Arith.JavaRem`,
which are defined by truncation. A Java exception or non-terminating loop
becomes a precondition.

Modules and files:

- `arith.dfy`, module `Arith`: truncating division, divisibility, and small
  arithmetic lemmas.
- `factor_base.dfy`, module `FactorBase`: the sieve.
- `residuals.dfy`, module `Residuals`: `calcResiduals`. It is stated
  elementwise and characterised through smoothness over the base.
- `exponents.dfy`, module `ExponentMatrix`: `refactor` and `reduceModTwo`.
- `elimination.dfy`, module `Elimination`: `gauss`, as a pure `Step` function
  driven by a loop.
- `factors.dfy`, module `Factors`: `completeFactors`, its fixed-point
  closure, and `gcd`.

## Model

| member | source | states |
|---|---|---|
| Arith.JavaRem | 10-Quadratic_Sieve/QuadraticSieve.java:340 | Java's `a % b`: `a == b * (a / b) + r`, with `abs(r) < abs(b)`; `r` is 0 or has the sign of `a` |
| Arith.JavaRemZero | 10-Quadratic_Sieve/QuadraticSieve.java:324 | Java's `a % b == 0` holds exactly when `b` divides `a`, whatever the signs |
| FactorBase.IndexOf | 10-Quadratic_Sieve/QuadraticSieve.java:58 | `indexOf` gives -1 exactly when the value is absent; otherwise it gives the first position holding it |
| FactorBase.Upto | 10-Quadratic_Sieve/QuadraticSieve.java:51-52 | the initial list is 2, 3, ..., size-1 (empty when size <= 2) |
| FactorBase.RemoveAtKeepsOthers | 10-Quadratic_Sieve/QuadraticSieve.java:61 | `remove(i)` on an increasing list keeps it increasing; every value other than the removed one stays |
| FactorBase.StrikeMultiples | 10-Quadratic_Sieve/QuadraticSieve.java:58-63 | one pass for `p` keeps the list increasing and only removes values; `p` and non-multiples of `p` are never removed |
| FactorBase.EratosthenesSieve | 10-Quadratic_Sieve/QuadraticSieve.java:48-69 | element 0 is -1; the rest is strictly increasing, lies in [2, size) and contains every prime below size; for size <= 2 the result is exactly [-1] |
| Residuals.JavaStripMagnitude | 10-Quadratic_Sieve/QuadraticSieve.java:118-121 | dividing a signed value by `p` while Java's `%` says it divides gives the same magnitude as doing so on its absolute value |
| Residuals.JavaStripAllMagnitude | 10-Quadratic_Sieve/QuadraticSieve.java:109-130 | stripping every base prime, skipping -1, then taking `Math.abs` equals stripping the magnitude |
| Residuals.StripAllFacts | 10-Quadratic_Sieve/QuadraticSieve.java:109-127 | for a positive value, what is left is a positive divisor that no base prime divides, and the cofactor is a product of base primes |
| Residuals.ResidualMeaning | 10-Quadratic_Sieve/QuadraticSieve.java:105-133 | a residual is 0 exactly for value 0; otherwise it divides abs(value), no base entry of at least 2 divides it, and the cofactor abs(value) / residual is a product of base entries; a value no base prime divides keeps its magnitude |
| Residuals.CalcResiduals | 10-Quadratic_Sieve/QuadraticSieve.java:101-134 | one residual per candidate, in order: 0 exactly for 0, no base prime divides it, it divides abs(value) with a smooth cofactor, and it is abs(value) when no base prime divides the value |
| ExponentMatrix.Multiplicity | 10-Quadratic_Sieve/QuadraticSieve.java:163-166 | the count `m` of the division loop is the exact multiplicity: `p^m` divides the value and `p^(m+1)` does not |
| ExponentMatrix.Counts | 10-Quadratic_Sieve/QuadraticSieve.java:162-168 | column `k` is the multiplicity of `ps[k]` in what the earlier primes left of the value (at least 1); the exponents are non-negative, and their powers times what the loop leaves give back the value |
| ExponentMatrix.ExponentRow | 10-Quadratic_Sieve/QuadraticSieve.java:154-168 | a row has one entry per base element; entry 0 is 1 exactly for a negative candidate; entry `k` is the multiplicity of `primes[k]` in what `primes[1..k]` left of abs(value); the exponents reconstruct abs(value) with the leftover |
| ExponentMatrix.PowerRowColumns | 10-Quadratic_Sieve/QuadraticSieve.java:162-166 | over a base [-1, p, q], the value p^m gets the row [0, m, 0]; the whole exponent goes to the prime divided out first, even when q = p^2 (16 over [-1, 2, 4] gets [0, 4, 0], not [0, 2, 1]) |
| ExponentMatrix.Refactor | 10-Quadratic_Sieve/QuadraticSieve.java:146-175 | the rows are exactly the candidates with residue 1, in increasing position, each tagged with its position and carrying that candidate's exponent row |
| ExponentMatrix.RefactorReconstructs | 10-Quadratic_Sieve/QuadraticSieve.java:152-169 | with residues from `calcResiduals` on the same base, `(-1)^row[0]` times the product of `primes[k]^row[k]` equals the tagged candidate |
| ExponentMatrix.JavaRemTwo | 10-Quadratic_Sieve/QuadraticSieve.java:189 | Java's `e % 2` is in -1..1, has the parity of `e`, and has the sign of `e` |
| ExponentMatrix.ReduceModTwo | 10-Quadratic_Sieve/QuadraticSieve.java:183-200 | order, tags and row widths are kept; every entry is the Java parity of its exponent |
| ExponentMatrix.ReduceModTwoIdempotent | 10-Quadratic_Sieve/QuadraticSieve.java:183-200 | reducing an already reduced matrix changes nothing |
| ExponentMatrix.ParityMatrixIsBinary | 10-Quadratic_Sieve/QuadraticSieve.java:146-200 | on a matrix from `refactor`, every reduced entry is 0 or 1 and has the parity of its exponent |
| Elimination.FirstOne | 10-Quadratic_Sieve/QuadraticSieve.java:226-230 | the search returns the first row at or after the start with a 1 in column `j`, or the row count when there is none |
| Elimination.ClearFrom | 10-Quadratic_Sieve/QuadraticSieve.java:246-251 | rows before the start are untouched; a later row with a non-zero entry in column `j` gets it set to 0 and the pivot position appended; other rows are kept |
| Elimination.SwapPivot | 10-Quadratic_Sieve/QuadraticSieve.java:232-251 | after the swap, the pivot row holds the found row with its 1 in column `j`, and the found position holds the old zero row |
| Elimination.Step | 10-Quadratic_Sieve/QuadraticSieve.java:220-253 | one column: with no pivot only `j` advances; otherwise a row with a non-zero entry becomes the pivot, rows above are untouched, and every row below ends with 0 in column `j` |
| Elimination.StepKeepsProvenance | 10-Quadratic_Sieve/QuadraticSieve.java:246-251 | after the head tag, each provenance list holds strictly increasing pivot positions below the pivot reached and below the row's own position |
| Elimination.StepKeepsHeads | 10-Quadratic_Sieve/QuadraticSieve.java:232-236 | rows only move by swaps, so the multiset of head tags is unchanged |
| Elimination.StepKeepsDescends | 10-Quadratic_Sieve/QuadraticSieve.java:246-251 | every row is still an input row with the same tag and some entries set to 0 |
| Elimination.Eliminate | 10-Quadratic_Sieve/QuadraticSieve.java:210-254 | the loop ends; it keeps the row count and width, permutes the tags, and leaves provenance ordered; each row descends from an input row |
| Elimination.Gauss | 10-Quadratic_Sieve/QuadraticSieve.java:210-269 | one provenance list per input row; their heads are a permutation of the input tags; the rest are increasing pivot positions below the list's own position |
| Factors.CompleteFactors | 10-Quadratic_Sieve/QuadraticSieve.java:318-327 | the result keeps every input factor, and every factor it adds divides some input factor |
| Factors.CompleteFactorsComplete | 10-Quadratic_Sieve/QuadraticSieve.java:322-325 | for every pair `a > b` of input factors with `b` dividing `a`, the quotient `a / b` is in the result |
| Factors.CompleteFactorsPositive | 10-Quadratic_Sieve/QuadraticSieve.java:318-327 | on positive factors the result is the input plus `{a / b : a > b, a % b == 0}`; each added element is at least 2 and properly divides an input factor |
| Factors.SinglePassMissesFactor | 10-Quadratic_Sieve/QuadraticSieve.java:310-327 | from {2, 3, 30} one pass does not list the prime factor 5; a second pass adds it, so one pass is not a fixed point |
| Factors.CompleteClosure | 10-Quadratic_Sieve/QuadraticSieve.java:310-327 | repeating the pass until nothing changes gives a superset of the input that one more pass leaves unchanged; it holds only positive divisors of input factors |
| Factors.CompleteClosureLeast | 10-Quadratic_Sieve/QuadraticSieve.java:310-327 | the closure is contained in every positive superset of the input that a pass leaves unchanged |
| Factors.ClosureFindsFactor | 10-Quadratic_Sieve/QuadraticSieve.java:310-327 | the closure of any positive set holding 2, 3 and 30 contains 5 |
| Factors.Gcd | 10-Quadratic_Sieve/QuadraticSieve.java:337-344 | the result divides both arguments, every common divisor divides it, `gcd(a, 0) == a`, and it is non-negative for non-negative arguments |

## Left out

- `findSmoothness` computes candidates with `Math.sqrt` and `Math.pow` on doubles. It is not modelled; the candidate list is an arbitrary sequence of integers.
- `rebuildEquation` mixes doubles with the implicit narrowing of `int lhs *= double`, so its `x` and `y` have no exact meaning. Only its calls to `gcd` (lines 293-294) and `completeFactors` (line 304) are covered, by `Factors.Gcd` and `Factors.CompleteFactors`. Its own `bigN % factor`, `bigN / factor` and `Math.abs` steps (lines 299-302) are not modelled.
- `main`, printing, timing and `RSA.java` are not part of this model.
- Integer widths are not modelled. Java's 64-bit `long` and 32-bit `int` wrap around; the model's integers are unbounded. The sieve's `Math.pow(p, 2) < size` is modelled as the exact `p * p < size`.
- Exceptions and loops that never end are modelled as preconditions. Examples: `% 0`, an index past the end, and the division loop of `refactor` on 0, 1 or -1.
- Mutation and aliasing are not modelled. `reduceModTwo` overwrites its input in place, and `gauss` edits row lists it shares with its argument. The model returns new values and leaves the inputs unchanged.
- FactorBase.StrikeMultiples: the contract does not say which multiples of `p` one pass removes. It states only what the pass keeps: the order, `p`, and every non-multiple. Returning the list unchanged would also meet it. Because the loop advances after a removal, the pass can skip a multiple, and the model does not characterise which ones.
- FactorBase.EratosthenesSieve: soundness is not claimed, i.e. that only primes remain. After each removal the loop advances, so the element that slides into the freed place is never examined. The contract states ordering, range and completeness only.
- Residuals.CalcResiduals: the cyclic stride `j, j+p, j+2p, ... (mod n)` is not modelled. Dividing a value that `p` does not divide changes nothing, and the outer scan restarts at every position that `p` still divides. So the effect is stated per candidate.
- Residuals.CalcResiduals: the base may hold only -1 and divisors of at least 2. A divisor 0 throws, and 1 makes the strip loop run forever. A negative divisor below -1 can drive the stride index `(j + i) % size` negative once a candidate is divisible, and `copy.get` then throws.
- ExponentMatrix.Refactor: every base entry after the sign column must be at least 2. A divisor 0 throws, and 1 or -1 makes the division loop run forever. A divisor below -1 would work in `refactor` alone, but `calcResiduals` can throw on such a base, so it is not covered.
- Elimination.Gauss: every row must have the width of the others. With ragged rows the source can read past a shorter row and throw; whether it does depends on the entries. Where `main` calls it, every row has one entry per base element.
- Elimination.Gauss: the contract says nothing about linear dependence. The source only zeroes the pivot column of a lower row; it does not add the pivot row into it. So the returned lists do not in general name sets of rows that sum to zero mod 2.

## Findings

| source | as written | input that shows it | evidently intended | confidence | as-written member | corrected member |
|---|---|---|---|---|---|---|
| 10-Quadratic_Sieve/QuadraticSieve.java:318-327 | one pass over the pairs of the input; quotients added in the pass are never divided further | {2, 3, 30}: the pass adds 15 and 10 but not the prime factor 5 of 30, which 15 / 3 gives | the pass repeated until it adds nothing, the least positive fixed point above the input; the comment at lines 310-312 asks for more (all prime factors), which no amount of repeating gives for an input such as {4, 6} | not executed; medium, because the comment could mean only the factors one division reaches | Factors.SinglePassMissesFactor | Factors.CompleteClosure |

The corrected `Factors.CompleteClosure` is proved to be a fixed point of the
pass and the least positive fixed point containing the input. No other part
of the model consumes factor sets, because `rebuildEquation` is left out.
