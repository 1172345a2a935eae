/** `completeFactors` and `gcd`: the integer steps of the factor
    reconstruction. */
module Factors {
  import opened Arith

  /** What `completeFactors` needs to avoid `% 0`: no element below another
      is 0. */
  predicate NoZeroDivisor(f: set<int>) {
    forall a, b :: a in f && b in f && a > b ==> b != 0
  }

  predicate Positive(f: set<int>) {
    forall x :: x in f ==> x >= 1
  }

  /** `completeFactors`: one pass over all pairs of the input; for `a > b`
      with `b` dividing `a` (Java's `a % b == 0`), the quotient `a / b` is
      added. The result keeps the input, holds the quotient of every such
      pair, and everything it adds divides an input element. */
  function CompleteFactors(f: set<int>): (r: set<int>)
    requires NoZeroDivisor(f)
    ensures f <= r
    ensures forall x :: x in r && x !in f ==> exists a :: a in f && Divides(x, a)
  {
    QuotientsDivide(f);
    f + set a, b | a in f && b in f && a > b && JavaRem(a, b) == 0 :: JavaDiv(a, b)
  }

  /** The pass misses no pair: the quotient of every `a > b` with `b`
      dividing `a` is in the result. */
  lemma CompleteFactorsComplete(f: set<int>, a: int, b: int)
    requires NoZeroDivisor(f) && a in f && b in f && b < a && Divides(b, a)
    ensures JavaDiv(a, b) in CompleteFactors(f)
  {
    JavaRemZero(a, b);
  }

  /** An exact quotient divides what was divided. */
  lemma QuotientDivides(a: int, b: int)
    requires b != 0 && JavaRem(a, b) == 0
    ensures Divides(JavaDiv(a, b), a)
  {
    var q := JavaDiv(a, b);
    assert a == q * b;
    if q != 0 {
      ExactDiv(a, q, b);
    }
  }

  lemma QuotientsDivide(f: set<int>)
    requires NoZeroDivisor(f)
    ensures forall a, b :: a in f && b in f && a > b && JavaRem(a, b) == 0 ==> Divides(JavaDiv(a, b), a)
  {
    forall a, b | a in f && b in f && a > b && JavaRem(a, b) == 0 {
      QuotientDivides(a, b);
    }
  }

  /** For positive operands, the quotient of a larger by a smaller divisor
      is at least 2, divides the dividend, and is below it. */
  lemma PositiveQuotient(a: int, b: int)
    requires 1 <= b < a && a % b == 0
    ensures a / b >= 2 && a % (a / b) == 0 && a / b <= a
  {
    var q := a / b;
    ModZero(a, b);
    if q <= 1 {
      MulMonotone(b, q, 1);
      assert false;
    }
    ExactDiv(a, q, b);
    MulMonotone(q, 1, b);
  }

  /** On positive factors Java's operators are Dafny's, and
      `completeFactors` is exactly the input joined with the quotients of
      all dividing pairs; each added element is at least 2 and divides an
      input element. */
  lemma CompleteFactorsPositive(f: set<int>)
    requires Positive(f)
    ensures NoZeroDivisor(f)
    ensures CompleteFactors(f) == f + set a, b | a in f && b in f && a > b && a % b == 0 :: a / b
    ensures forall x :: x in CompleteFactors(f) && x !in f ==> x >= 2 && exists a :: a in f && x < a && a % x == 0
  {
    forall a, b | a in f && b in f
      ensures JavaDiv(a, b) == a / b && JavaRem(a, b) == a % b
    {
      JavaOpsOnNat(a, b);
    }
    var r := CompleteFactors(f);
    forall x | x in r && x !in f
      ensures x >= 2 && exists a :: a in f && x < a && a % x == 0
    {
      var a, b :| a in f && b in f && a > b && a % b == 0 && x == a / b;
      PositiveQuotient(a, b);
      assert x != a && a % x == 0;
    }
  }

  /** Divisibility is transitive on positive numbers. */
  lemma DividesTransitive(x: int, a: int, c: int)
    requires x >= 1 && a >= 1 && a % x == 0 && c % a == 0
    ensures c % x == 0
  {
    ModZero(a, x);
    ModZero(c, a);
    MulRegroup(x, a / x, c / a);
    ExactDiv(c, x, (a / x) * (c / a));
  }

  /** The positive divisors of the elements of `f`: where repeated passes
      of `completeFactors` must stay. */
  function Divisors(f: set<int>): set<int> {
    set a, d | a in f && d in Range(a) && a % d == 0 :: d
  }

  /** The numbers 1 .. n. */
  function Range(n: int): (r: set<int>)
    ensures forall d :: d in r <==> 1 <= d <= n
    decreases n
  {
    if n < 1 then {} else Range(n - 1) + {n}
  }

  lemma InputsAreDivisors(f: set<int>)
    requires Positive(f)
    ensures f <= Divisors(f)
  {
    forall a | a in f
      ensures a in Divisors(f)
    {
      ExactDiv(a, a, 1);
      assert a in Range(a);
    }
  }

  /** A pass over a set of divisors of `f0` yields divisors of `f0` again. */
  lemma PassStaysInDivisors(f0: set<int>, s: set<int>)
    requires s <= Divisors(f0)
    ensures Positive(s) && CompleteFactors(s) <= Divisors(f0)
  {
    CompleteFactorsPositive(s);
    forall x | x in CompleteFactors(s) && x !in s
      ensures x in Divisors(f0)
    {
      var a :| a in s && x < a && a % x == 0;
      var c, d :| c in f0 && d in Range(c) && c % d == 0 && a == d;
      DividesTransitive(x, a, c);
      assert c in f0 && x in Range(c) && c % x == 0;
    }
  }

  /** Repeated passes from `s` until one adds nothing. */
  function Close(f0: set<int>, s: set<int>): (r: set<int>)
    requires s <= Divisors(f0)
    ensures s <= r <= Divisors(f0)
    ensures Positive(r) && CompleteFactors(r) == r
    decreases Divisors(f0) - s
  {
    PassStaysInDivisors(f0, s);
    var next := CompleteFactors(s);
    if next == s then s else Close(f0, next)
  }

  /** `completeFactors` repeated until a pass adds nothing. The result
      holds the input, is left unchanged by one more pass, and consists of
      positive divisors of input elements. It lists what repeated division
      reaches, not every prime factor: from {4, 6} no pair divides, so
      neither 2 nor 3 appears. */
  function CompleteClosure(f: set<int>): (r: set<int>)
    requires Positive(f)
    ensures f <= r && Positive(r) && CompleteFactors(r) == r
    ensures r <= Divisors(f)
  {
    InputsAreDivisors(f);
    Close(f, f)
  }

  /** More input gives a larger pass. */
  lemma PassMonotone(s: set<int>, t: set<int>)
    requires Positive(t) && s <= t
    ensures CompleteFactors(s) <= CompleteFactors(t)
  {
    CompleteFactorsPositive(s);
    CompleteFactorsPositive(t);
  }

  lemma {:induction false} CloseLeast(f0: set<int>, s: set<int>, t: set<int>)
    requires s <= Divisors(f0)
    requires Positive(t) && s <= t && CompleteFactors(t) == t
    ensures Close(f0, s) <= t
    decreases Divisors(f0) - s
  {
    PassStaysInDivisors(f0, s);
    var next := CompleteFactors(s);
    PassMonotone(s, t);
    if next != s {
      CloseLeast(f0, next, t);
    }
  }

  /** The closure is the least positive set holding `f` that a pass leaves
      unchanged: it lists exactly what repeated division can reach. */
  lemma CompleteClosureLeast(f: set<int>, t: set<int>)
    requires Positive(f) && Positive(t) && f <= t && CompleteFactors(t) == t
    ensures CompleteClosure(f) <= t
  {
    InputsAreDivisors(f);
    CloseLeast(f, f, t);
  }

  /** The single pass stops short: from {2, 3, 30} it adds 15 and 10 but
      not the prime factor 5 of 30, which a second pass finds as 15 / 3; the
      pass is not a fixed point. */
  lemma SinglePassMissesFactor()
    ensures 30 % 5 == 0 && 5 !in CompleteFactors({2, 3, 30})
    ensures 5 in CompleteFactors(CompleteFactors({2, 3, 30}))
  {
    var f: set<int> := {2, 3, 30};
    var r := CompleteFactors(f);
    FiveNotInPass();
    PassInstance(f, 30, 2);
    QuotientsPositive(f);
    PassInstance(r, 15, 3);
  }

  lemma FiveNotInPass()
    ensures 5 !in CompleteFactors({2, 3, 30})
  {
    NoQuotientFive();
  }

  /** No dividing pair among 2, 3 and 30 has quotient 5. */
  lemma NoQuotientFive()
    ensures forall a, b :: a in {2, 3, 30} && b in {2, 3, 30} && a > b && JavaRem(a, b) == 0 ==> JavaDiv(a, b) != 5
  {
    forall a, b | a in {2, 3, 30} && b in {2, 3, 30} && a > b && JavaRem(a, b) == 0
      ensures JavaDiv(a, b) != 5
    {
      JavaOpsOnNat(a, b);
    }
  }

  lemma QuotientsPositive(f: set<int>)
    requires Positive(f)
    ensures Positive(CompleteFactors(f))
  {
    CompleteFactorsPositive(f);
  }

  /** One pass adds the quotient of a given dividing pair. */
  lemma PassInstance(f: set<int>, a: int, b: int)
    requires Positive(f) && a in f && b in f && b < a && a % b == 0
    ensures a / b in CompleteFactors(f)
  {
    JavaOpsOnNat(a, b);
    CompleteFactorsComplete(f, a, b);
  }

  /** A set that a pass leaves unchanged holds the quotient of each of its
      dividing pairs. */
  lemma ClosedStep(r: set<int>, a: int, b: int)
    requires Positive(r) && CompleteFactors(r) == r
    requires a in r && b in r && b < a && a % b == 0
    ensures a / b in r
  {
    PassInstance(r, a, b);
  }

  /** The closure does list 5 for the same input. */
  lemma ClosureFindsFactor(f: set<int>)
    requires Positive(f) && 2 in f && 3 in f && 30 in f
    ensures 5 in CompleteClosure(f)
  {
    var r := CompleteClosure(f);
    ClosedStep(r, 30, 2);
    ClosedStep(r, 15, 3);
  }

  /** `gcd`: Euclid's loop with Java's truncating `%`. The result divides
      both arguments and every common divisor divides it, so it is a
      greatest common divisor up to sign; it is `a` when `b` is 0 and not
      negative for non-negative arguments. */
  method Gcd(a0: int, b0: int) returns (g: int)
    ensures Divides(g, a0) && Divides(g, b0)
    ensures forall d :: Divides(d, a0) && Divides(d, b0) ==> Divides(d, g)
    ensures b0 == 0 ==> g == a0
    ensures a0 >= 0 && b0 >= 0 ==> g >= 0
  {
    var a, b := a0, b0;
    while b != 0
      invariant forall d :: Divides(d, a) && Divides(d, b) <==> Divides(d, a0) && Divides(d, b0)
      invariant b0 == 0 ==> a == a0 && b == 0
      invariant a0 >= 0 && b0 >= 0 ==> a >= 0 && b >= 0
      decreases Abs(b)
    {
      var r := JavaRem(a, b);
      forall d
        ensures Divides(d, a) && Divides(d, b) <==> Divides(d, b) && Divides(d, r)
      {
        if Divides(d, b) {
          DividesLinear(d, r, b, JavaDiv(a, b));
        }
      }
      a, b := b, r;
    }
    g := a;
    if g != 0 {
      ExactDiv(g, g, 1);
    }
    DividesMultiple(g, 0);
    assert Divides(g, a) && Divides(g, b);
    forall d | Divides(d, a0) && Divides(d, b0)
      ensures Divides(d, g)
    {
    }
  }
}
