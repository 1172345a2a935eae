/** Integer arithmetic shared by the whole model.

    Java's `/` and `%` on `int`/`long` truncate toward zero, while Dafny's
    are Euclidean. Every place where the sieve divides a value that may be
    negative uses `JavaDiv`/`JavaRem` below; on non-negative dividends and
    positive divisors they coincide with Dafny's operators (`JavaOpsOnNat`).
 */
module Arith {

  function Abs(x: int): nat {
    if x < 0 then -x else x
  }

  /** Java's integer quotient: rounded toward zero. */
  function JavaDiv(a: int, b: int): int
    requires b != 0
  {
    if (a >= 0) == (b > 0) then Abs(a) / Abs(b) else -(Abs(a) / Abs(b))
  }

  /** Java's integer remainder: it takes the sign of the dividend and, with
      `JavaDiv`, satisfies the identity `(a / b) * b + a % b == a` of the
      Java language (section 15.17.3 of the Java Language Specification). */
  function JavaRem(a: int, b: int): (r: int)
    requires b != 0
    ensures a == b * JavaDiv(a, b) + r
    ensures Abs(r) < Abs(b)
    ensures r == 0 || ((r < 0) <==> (a < 0))
  {
    TruncatedDivision(a, b);
    if a >= 0 then Abs(a) % Abs(b) else -(Abs(a) % Abs(b))
  }

  /** The quotient and remainder of the magnitudes, with the signs Java gives
      them, recombine to the dividend. */
  lemma TruncatedDivision(a: int, b: int)
    requires b != 0
    ensures a == b * JavaDiv(a, b) + (if a >= 0 then Abs(a) % Abs(b) else -(Abs(a) % Abs(b)))
  {
    assert Abs(a) == Abs(b) * (Abs(a) / Abs(b)) + Abs(a) % Abs(b);
    if a >= 0 && b > 0 {
    } else if a >= 0 {
      assert b * JavaDiv(a, b) == Abs(b) * (Abs(a) / Abs(b));
    } else if b > 0 {
      assert b * JavaDiv(a, b) == -(Abs(b) * (Abs(a) / Abs(b)));
    } else {
      assert b * JavaDiv(a, b) == -(Abs(b) * (Abs(a) / Abs(b)));
    }
  }

  /** On a non-negative dividend and a positive divisor Java's operators
      agree with Dafny's. */
  lemma JavaOpsOnNat(a: int, b: int)
    requires a >= 0 && b > 0
    ensures JavaDiv(a, b) == a / b && JavaRem(a, b) == a % b
  {
  }

  /** `d` divides `n` (zero divides only zero). */
  predicate Divides(d: int, n: int) {
    if d == 0 then n == 0 else n % d == 0
  }

  /** Euclidean division is unique: any `q`, `r` with `n == d * q + r` and
      `0 <= r < |d|` are Dafny's quotient and remainder. */
  lemma DivModUnique(n: int, d: int, q: int, r: int)
    requires d != 0 && n == d * q + r && 0 <= r < Abs(d)
    ensures n / d == q && n % d == r
  {
    var q', r' := n / d, n % d;
    assert d * q' + r' == d * q + r;
    assert d * (q - q') == r' - r;
    if q != q' {
      MulMagnitude(d, q - q');
    }
  }

  /** A non-zero multiple of `d` is at least as large as `d` in magnitude. */
  lemma MulMagnitude(d: int, m: int)
    requires m != 0
    ensures Abs(d * m) >= Abs(d)
  {
    var a: int, b: int := Abs(d), Abs(m);
    assert a * b == a + a * (b - 1);
    assert a * (b - 1) >= 0;
    if d < 0 && m < 0 {
      assert d * m == a * b;
    } else if d < 0 {
      assert d * m == -(a * b);
    } else if m < 0 {
      assert d * m == -(a * b);
    } else {
      assert d * m == a * b;
    }
  }

  /** A multiple of `d` is divisible by `d`. */
  lemma DividesMultiple(d: int, k: int)
    ensures Divides(d, d * k)
  {
    if d != 0 {
      DivModUnique(d * k, d, k, 0);
    }
  }

  /** Adding a multiple of `d` does not change the remainder modulo `d`. */
  lemma ModAddMultiple(x: int, d: int, m: int)
    requires d != 0
    ensures (x + d * m) % d == x % d
  {
    var q, r := x / d, x % d;
    assert x + d * m == d * (q + m) + r;
    DivModUnique(x + d * m, d, q + m, r);
  }

  /** When `d` divides `y`, it divides `x` exactly when it divides `x + y*k`. */
  lemma DividesLinear(d: int, x: int, y: int, k: int)
    requires Divides(d, y)
    ensures Divides(d, x) <==> Divides(d, x + y * k)
  {
    if d != 0 {
      var c := y / d;
      assert y == d * c;
      assert y * k == d * (c * k);
      ModAddMultiple(x, d, c * k);
    }
  }

  /** Java's remainder is zero exactly when the divisor divides the dividend. */
  lemma JavaRemZero(a: int, b: int)
    requires b != 0
    ensures JavaRem(a, b) == 0 <==> Divides(b, a)
  {
    var q := JavaDiv(a, b);
    var r := JavaRem(a, b);
    if r == 0 {
      DividesMultiple(b, q);
    } else {
      DividesLinear(b, r, b, q);
      assert !Divides(b, r) by {
        if r > 0 {
          DivModUnique(r, b, 0, r);
        } else {
          DivModUnique(r, b, if b > 0 then -1 else 1, r + Abs(b));
        }
      }
    }
  }

  /** Dividing a positive number by at least 2 makes it smaller. */
  lemma DivShrinks(n: int, p: int)
    requires n >= 1 && p >= 2
    ensures 0 <= n / p < n
  {
    var q, r := n / p, n % p;
    assert n == p * q + r;
    if q < 0 {
      MulMagnitude(p, q);
    }
  }

  /** An exact multiple divides back to its factor. */
  lemma ExactDiv(n: int, d: int, q: int)
    requires d != 0 && n == d * q
    ensures n % d == 0 && n / d == q
  {
    DivModUnique(n, d, q, 0);
  }

  /** With a positive divisor, Java's operators act on the magnitude of the
      dividend and keep its sign. */
  lemma JavaOpsMagnitude(a: int, b: int)
    requires b > 0
    ensures Abs(JavaDiv(a, b)) == Abs(a) / b
    ensures JavaRem(a, b) == 0 <==> Abs(a) % b == 0
  {
    assert Abs(b) == b;
    if a >= 0 {
      assert JavaDiv(a, b) == Abs(a) / b;
    } else {
      assert JavaDiv(a, b) == -(Abs(a) / b);
    }
  }

  /** Regrouping `a == p * a'` times `b`, with positive factors. */
  lemma MulAssoc(p: int, a': int, b: int)
    requires p >= 1 && a' >= 1 && b >= 1
    ensures (p * a') * b == p * (a' * b) && a' * b >= 1 && (p * a') * b >= 1
  {
  }

  /** A remainder of zero means the dividend is the divisor times the quotient. */
  lemma ModZero(a: int, p: int)
    requires p != 0 && a % p == 0
    ensures a == p * (a / p)
  {
  }

  /** Products of three factors can be regrouped freely. */
  lemma MulRegroup(x: int, y: int, z: int)
    ensures x * (y * z) == y * (x * z) == (x * y) * z
  {
  }

  /** A divisor of a factor divides the product. */
  lemma ModZeroFactor(d: int, x: int, y: int)
    requires d != 0
    ensures x % d == 0 ==> (x * y) % d == 0
  {
    if x % d == 0 {
      ModZero(x, d);
      MulRegroup(d, x / d, y);
      ExactDiv(x * y, d, (x / d) * y);
    }
  }

  /** Divisibility does not depend on the sign of the dividend. */
  lemma ModZeroAbs(x: int, d: int)
    requires d != 0
    ensures x % d == 0 <==> Abs(x) % d == 0
  {
    if x < 0 {
      if x % d == 0 {
        ModZero(x, d);
        ExactDiv(-x, d, -(x / d));
      }
      if (-x) % d == 0 {
        ModZero(-x, d);
        ExactDiv(x, d, -((-x) / d));
      }
    }
  }

  /** A non-zero factor cancels. */
  lemma MulCancel(a: int, x: int, y: int)
    requires a != 0 && a * x == a * y
    ensures x == y
  {
    if x != y {
      MulMagnitude(a, x - y);
    }
  }

  /** `x * y <= x * z` for a positive `x` and `y <= z`. */
  lemma MulMonotone(x: int, y: int, z: int)
    requires x >= 1 && y <= z
    ensures x * y <= x * z
  {
    assert x * z - x * y == x * (z - y);
  }
}
