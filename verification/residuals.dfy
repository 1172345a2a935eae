/** `calcResiduals`: every candidate value has all factors of every
    factor-base prime divided out, and the magnitude of what is left is its
    residual. A residual of 1 marks a candidate that factors completely over
    the base.

    The source visits the candidates of one prime in a cyclic stride
    `j, j+p, j+2p, ... (mod n)`; dividing a value that `p` does not divide is
    a no-op, so the stride is only a visiting order and the model states the
    effect on each candidate directly. */
module Residuals {
  import opened Arith

  /** The entries the source accepts as factor-base primes: the sign
      marker -1, which is skipped, and divisors of at least 2. */
  predicate ValidBase(primes: seq<int>) {
    forall k :: 0 <= k < |primes| ==> primes[k] == -1 || primes[k] >= 2
  }

  /** `n` is a product of listed primes (1 is the empty product). */
  ghost predicate SmoothOver(n: int, primes: seq<int>)
    decreases if n < 0 then 0 else n
  {
    n >= 1 && (n == 1 || exists p :: p in primes && p >= 2 && n % p == 0 && SmoothOver(n / p, primes))
  }

  /** The inner strip loop of the source on a signed value, with Java's
      truncating operators: divide by `p` while `p` divides the value and
      the value is not zero. */
  function JavaStrip(t: int, p: int): int
    requires p >= 2
    decreases Abs(t)
  {
    if t != 0 && JavaRem(t, p) == 0 then
      DivShrinks(Abs(t), p);
      JavaStrip(JavaDiv(t, p), p)
    else t
  }

  /** All strip loops one candidate goes through, in factor-base order. */
  function JavaStripAll(t: int, primes: seq<int>): int
    requires ValidBase(primes)
    decreases |primes|
  {
    if |primes| == 0 then t
    else JavaStripAll(if primes[0] == -1 then t else JavaStrip(t, primes[0]), primes[1..])
  }

  /** The residual of one candidate: the absolute value (the source's last
      loop) of what the strip loops leave. */
  function Residual(value: int, primes: seq<int>): nat
    requires ValidBase(primes)
  {
    Abs(JavaStripAll(value, primes))
  }

  /** Stripping on magnitudes with Dafny's operators. */
  function Strip(n: nat, p: int): nat
    requires p >= 2
  {
    if n != 0 && n % p == 0 then
      DivShrinks(n, p);
      Strip(n / p, p)
    else n
  }

  function StripAll(n: nat, primes: seq<int>): nat
    requires ValidBase(primes)
    decreases |primes|
  {
    if |primes| == 0 then n
    else StripAll(if primes[0] == -1 then n else Strip(n, primes[0]), primes[1..])
  }

  /** The sign of a candidate never affects which factors are removed:
      Java's stripping of a signed value has the magnitude of stripping its
      magnitude. */
  lemma {:induction false} JavaStripMagnitude(t: int, p: int)
    requires p >= 2
    ensures Abs(JavaStrip(t, p)) == Strip(Abs(t), p)
    decreases Abs(t)
  {
    JavaOpsMagnitude(t, p);
    if t != 0 && JavaRem(t, p) == 0 {
      DivShrinks(Abs(t), p);
      JavaStripMagnitude(JavaDiv(t, p), p);
    }
  }

  lemma {:induction false} JavaStripAllMagnitude(t: int, primes: seq<int>)
    requires ValidBase(primes)
    ensures Residual(t, primes) == StripAll(Abs(t), primes)
    decreases |primes|
  {
    if |primes| > 0 {
      var t' := if primes[0] == -1 then t else JavaStrip(t, primes[0]);
      if primes[0] != -1 {
        JavaStripMagnitude(t, primes[0]);
      }
      JavaStripAllMagnitude(t', primes[1..]);
    }
  }

  /** Smooth numbers are closed under multiplication. */
  lemma {:induction false} SmoothProduct(a: int, b: int, primes: seq<int>)
    requires SmoothOver(a, primes) && SmoothOver(b, primes)
    ensures SmoothOver(a * b, primes)
    decreases a
  {
    if a != 1 {
      var p :| p in primes && p >= 2 && a % p == 0 && SmoothOver(a / p, primes);
      var a' := a / p;
      assert 0 <= a' < a by {
        DivShrinks(a, p);
      }
      SmoothProduct(a', b, primes);
      assert a * b == p * (a' * b) by {
        ModZero(a, p);
        MulAssoc(p, a', b);
      }
      SmoothStep(a * b, p, a' * b, primes);
    }
  }

  /** Multiplying a smooth number by a listed prime keeps it smooth. */
  lemma SmoothStep(n: int, p: int, m: int, primes: seq<int>)
    requires p in primes && p >= 2 && n == p * m && SmoothOver(m, primes)
    ensures SmoothOver(n, primes)
  {
    ExactDiv(n, p, m);
    assert n >= 1 by {
      assert m >= 1;
      MulMagnitude(m, p);
    }
  }

  /** Smoothness over a list carries over to any list holding its primes. */
  lemma {:induction false} SmoothWiden(n: int, small: seq<int>, large: seq<int>)
    requires SmoothOver(n, small)
    requires forall p :: p in small ==> p in large
    ensures SmoothOver(n, large)
    decreases if n < 0 then 0 else n
  {
    if n != 1 {
      var p :| p in small && p >= 2 && n % p == 0 && SmoothOver(n / p, small);
      DivShrinks(n, p);
      SmoothWiden(n / p, small, large);
    }
  }

  /** What stripping one prime leaves: a positive divisor of `n` that `p`
      no longer divides, with a cofactor made of `p` alone. */
  lemma {:induction false} StripFacts(n: nat, p: int)
    requires p >= 2 && n >= 1
    ensures Strip(n, p) >= 1 && Strip(n, p) % p != 0
    ensures n % Strip(n, p) == 0 && SmoothOver(n / Strip(n, p), [p])
    decreases n
  {
    var s := Strip(n, p);
    if n % p == 0 {
      var n' := n / p;
      ModZero(n, p);
      DivShrinks(n, p);
      StripFacts(n', p);
      var c := n' / s;
      ModZero(n', s);
      MulRegroup(p, s, c);
      ExactDiv(n, s, p * c);
      SmoothStep(p * c, p, c, [p]);
    } else {
      ExactDiv(n, n, 1);
    }
  }

  /** What stripping every listed prime leaves, for a positive `n`: a
      positive divisor of `n` that no listed prime divides, whose cofactor
      `n / r` is a product of listed primes. */
  lemma {:induction false} StripAllFacts(n: nat, primes: seq<int>)
    requires ValidBase(primes) && n >= 1
    ensures StripAll(n, primes) >= 1
    ensures forall p :: p in primes && p >= 2 ==> StripAll(n, primes) % p != 0
    ensures n % StripAll(n, primes) == 0
    ensures SmoothOver(n / StripAll(n, primes), primes)
    decreases |primes|
  {
    var r := StripAll(n, primes);
    if |primes| == 0 {
      ExactDiv(n, n, 1);
    } else {
      var p0, rest := primes[0], primes[1..];
      assert primes == [p0] + rest;
      var n1 := if p0 == -1 then n else Strip(n, p0);
      assert r == StripAll(n1, rest);
      var c1: int := 1;
      if p0 != -1 {
        StripFacts(n, p0);
        c1 := n / n1;
        ModZero(n, n1);
        SmoothWiden(c1, [p0], primes);
      }
      assert n == n1 * c1 && SmoothOver(c1, primes);
      StripAllFacts(n1, rest);
      var c2 := n1 / r;
      ModZero(n1, r);
      SmoothWiden(c2, rest, primes);
      MulRegroup(r, c2, c1);
      ExactDiv(n, r, c2 * c1);
      SmoothProduct(c2, c1, primes);
      forall p | p in primes && p >= 2
        ensures r % p != 0
      {
        if p == p0 {
          ModZeroFactor(p, r, c2);
        } else {
          assert p in rest;
        }
      }
    }
  }

  /** A value no listed prime divides keeps its magnitude. */
  lemma {:induction false} StripAllNoFactor(n: nat, primes: seq<int>)
    requires ValidBase(primes)
    requires forall p :: p in primes && p >= 2 ==> n % p != 0
    ensures StripAll(n, primes) == n
    decreases |primes|
  {
    if |primes| > 0 {
      assert primes[0] in primes;
      assert forall p :: p in primes[1..] ==> p in primes;
      StripAllNoFactor(n, primes[1..]);
    }
  }

  /** Zero has every divisor, and the strip loops leave it alone. */
  lemma {:induction false} StripAllZero(primes: seq<int>)
    requires ValidBase(primes)
    ensures StripAll(0, primes) == 0
    decreases |primes|
  {
    if |primes| > 0 {
      StripAllZero(primes[1..]);
    }
  }

  /** The residual of one candidate, characterised without reference to
      how it is computed: zero exactly for zero; otherwise a divisor of the
      magnitude that no listed divisor divides, whose cofactor is a product
      of listed divisors. */
  lemma ResidualMeaning(value: int, primes: seq<int>)
    requires ValidBase(primes)
    ensures Residual(value, primes) == 0 <==> value == 0
    ensures value != 0 ==>
      && (forall p :: p in primes && p >= 2 ==> Residual(value, primes) % p != 0)
      && Abs(value) % Residual(value, primes) == 0
      && SmoothOver(Abs(value) / Residual(value, primes), primes)
    ensures (forall p :: p in primes && p >= 2 ==> value % p != 0) ==> Residual(value, primes) == Abs(value)
  {
    JavaStripAllMagnitude(value, primes);
    if value == 0 {
      StripAllZero(primes);
    } else {
      StripAllFacts(Abs(value), primes);
    }
    if forall p :: p in primes && p >= 2 ==> value % p != 0 {
      forall p | p in primes && p >= 2
        ensures Abs(value) % p != 0
      {
        ModZeroAbs(value, p);
      }
      StripAllNoFactor(Abs(value), primes);
    }
  }

  /** `calcResiduals`: one residual per candidate, in candidate order. The
      candidate list itself is never changed (the source works on a copy). */
  function CalcResiduals(primes: seq<int>, values: seq<int>): (out: seq<nat>)
    requires ValidBase(primes)
    ensures |out| == |values|
    ensures forall k :: 0 <= k < |values| ==> (out[k] == 0 <==> values[k] == 0)
    ensures forall k, p :: 0 <= k < |values| && p in primes && p >= 2 && values[k] != 0 ==> out[k] % p != 0
    ensures forall k :: 0 <= k < |values| && values[k] != 0 ==>
      Abs(values[k]) % out[k] == 0 && SmoothOver(Abs(values[k]) / out[k], primes)
    ensures forall k :: 0 <= k < |values| && (forall p :: p in primes && p >= 2 ==> values[k] % p != 0) ==>
      out[k] == Abs(values[k])
  {
    AllResidualsMeaning(primes, values);
    seq(|values|, k requires 0 <= k < |values| => Residual(values[k], primes))
  }

  lemma AllResidualsMeaning(primes: seq<int>, values: seq<int>)
    requires ValidBase(primes)
    ensures forall k :: 0 <= k < |values| ==> (Residual(values[k], primes) == 0 <==> values[k] == 0)
    ensures forall k, p :: 0 <= k < |values| && p in primes && p >= 2 && values[k] != 0 ==>
      Residual(values[k], primes) % p != 0
    ensures forall k :: 0 <= k < |values| && values[k] != 0 ==>
      Abs(values[k]) % Residual(values[k], primes) == 0 &&
      SmoothOver(Abs(values[k]) / Residual(values[k], primes), primes)
    ensures forall k :: 0 <= k < |values| && (forall p :: p in primes && p >= 2 ==> values[k] % p != 0) ==>
      Residual(values[k], primes) == Abs(values[k])
  {
    forall k | 0 <= k < |values| {
      ResidualMeaning(values[k], primes);
    }
  }
}
