/** Integer facts behind BigInteger.gcd and the canonical form of fractions. */
module Arith {

  function Abs(n: int): nat
  {
    if n < 0 then -n else n
  }

  /** Greatest common divisor by Euclid's algorithm; Gcd(0, 0) == 0. */
  function Gcd(a: nat, b: nat): nat
    decreases b
  {
    if b == 0 then a else Gcd(b, a % b)
  }

  /** d divides n (zero divides only zero). */
  predicate Divides(d: nat, n: int)
  {
    if d == 0 then n == 0 else n % d == 0
  }

  /** Bezout coefficients from the extended Euclidean algorithm. */
  function Bezout(a: nat, b: nat): (r: (int, int))
    ensures a * r.0 + b * r.1 == Gcd(a, b)
    decreases b
  {
    if b == 0 then (1, 0)
    else
      var (x, y) := Bezout(b, a % b);
      var q := a / b;
      BezoutStep(a, b, q, a % b, x, y);
      (y, x - q * y)
  }

  /** The back-substitution step of the extended Euclidean algorithm. */
  lemma BezoutStep(a: int, b: int, q: int, m: int, x: int, y: int)
    requires a == b * q + m
    ensures a * y + b * (x - q * y) == b * x + m * y
  {
    calc {
      a * y + b * (x - q * y);
      == (b * q + m) * y + b * x - b * q * y;
      == b * x + m * y;
    }
  }

  /** A multiple of g lying in [0, g) is zero. */
  lemma SmallMultiple(g: int, t: int)
    requires g > 0 && 0 <= g * t < g
    ensures t == 0
  {
  }

  lemma MultipleMod(g: int, m: int)
    requires g > 0
    ensures (g * m) % g == 0 && (g * m) / g == m
  {
    var n := g * m;
    var q, r := n / g, n % g;
    assert g * (m - q) == r by {
      assert n == g * q + r;
    }
    SmallMultiple(g, m - q);
  }

  /** A number with remainder zero is the divisor times the quotient. */
  lemma ModZero(n: int, g: int)
    requires g > 0 && n % g == 0
    ensures n == g * (n / g)
  {
  }

  lemma {:induction false} GcdDivides(a: nat, b: nat)
    ensures Divides(Gcd(a, b), a) && Divides(Gcd(a, b), b)
    decreases b
  {
    if b != 0 {
      var g := Gcd(b, a % b);
      GcdDivides(b, a % b);
      assert g != 0;
      ModZero(b, g);
      ModZero(a % b, g);
      var q := a / b;
      assert a == b * q + a % b;
      assert a == g * ((b / g) * q + (a % b) / g) by {
        calc {
          g * ((b / g) * q + (a % b) / g);
          == (g * (b / g)) * q + g * ((a % b) / g);
          == b * q + a % b;
        }
      }
      MultipleMod(g, (b / g) * q + (a % b) / g);
    }
  }

  lemma GcdPositive(a: nat, b: nat)
    requires b > 0
    ensures Gcd(a, b) > 0
  {
    GcdDivides(a, b);
  }

  /** Ring identity used to factor a common divisor out of a Bezout sum. */
  lemma FactorOut(d: int, u: int, v: int, x: int, y: int)
    ensures d * (u * x + v * y) == (d * u) * x + (d * v) * y
  {
  }

  /** If a == d * u and b == d * v then a * x + b * y is a multiple of d. */
  lemma CombinationOfMultiples(a: int, b: int, d: int, u: int, v: int, x: int, y: int)
    requires d > 0 && a == d * u && b == d * v
    ensures (a * x + b * y) % d == 0
  {
    FactorOut(d, u, v, x, y);
    MultipleMod(d, u * x + v * y);
  }

  /** Every common divisor of a and b divides their gcd. */
  lemma CommonDivisorDividesGcd(a: nat, b: nat, d: nat)
    requires d > 0 && a % d == 0 && b % d == 0
    ensures Gcd(a, b) % d == 0
  {
    var (x, y) := Bezout(a, b);
    ModZero(a, d);
    ModZero(b, d);
    CombinationOfMultiples(a, b, d, a / d, b / d, x, y);
  }

  /** A positive number dividing 1 is 1. */
  lemma DividesOne(h: int, t: int)
    requires h > 0 && h * t == 1
    ensures h == 1
  {
  }

  /** With g > 0, the sign of g * t is the sign of t. */
  lemma PositiveFactor(g: int, t: int)
    requires g > 0 && g * t > 0
    ensures t > 0
  {
  }

  lemma CancelFactor(g: int, t: int, s: int)
    requires g > 0 && g * t == g * s
    ensures t == s
  {
    assert g * (t - s) == 0;
  }

  lemma MulAtLeast(b: int, t: int)
    requires b > 0 && t >= 1
    ensures b * t >= b
  {
    assert b * t == b * (t - 1) + b;
  }

  lemma AbsMul(p: int, q: int)
    ensures Abs(p * q) == Abs(p) * Abs(q)
  {
    if p < 0 && q < 0 {
      assert p * q == (-p) * (-q);
    } else if p < 0 {
      assert -(p * q) == (-p) * q;
    } else if q < 0 {
      assert -(p * q) == p * (-q);
    }
  }

  /** The remainder of -m by g is zero when that of m is. */
  lemma NegMod(m: int, g: int)
    requires g > 0 && m % g == 0
    ensures (-m) % g == 0 && (-m) / g == -(m / g)
  {
    ModZero(m, g);
    assert -m == g * -(m / g);
    MultipleMod(g, -(m / g));
  }

  /** Dividing n and d > 0 by their gcd leaves coprime parts. */
  lemma ReducedCoprime(n: int, d: int)
    requires d > 0
    ensures Gcd(Abs(n), d) > 0
    ensures n % Gcd(Abs(n), d) == 0 && d % Gcd(Abs(n), d) == 0
    ensures Gcd(Abs(n / Gcd(Abs(n), d)), d / Gcd(Abs(n), d)) == 1
  {
    var g := Gcd(Abs(n), d);
    GcdPositive(Abs(n), d);
    GcdDivides(Abs(n), d);
    var a', d' := Abs(n) / g, d / g;
    ModZero(Abs(n), g);
    ModZero(d, g);
    if n < 0 {
      NegMod(Abs(n), g);
    }
    assert Abs(n / g) == a';
    PositiveFactor(g, d');
    var (x, y) := Bezout(Abs(n), d);
    FactorOut(g, a', d', x, y);
    CancelFactor(g, a' * x + d' * y, 1);
    var h := Gcd(a', d');
    GcdPositive(a', d');
    GcdDivides(a', d');
    ModZero(a', h);
    ModZero(d', h);
    FactorOut(h, a' / h, d' / h, x, y);
    DividesOne(h, (a' / h) * x + (d' / h) * y);
  }

  /** Ring identity behind Euclid's lemma. */
  lemma ScaledBezout(A: int, b: int, C: int, d: int, x: int, y: int)
    requires A * x + b * y == 1 && A * d == C * b
    ensures b * (C * x + d * y) == d
  {
    calc {
      b * (C * x + d * y);
      == (C * b) * x + (b * d) * y;
      == (A * d) * x + (b * d) * y;
      == d * (A * x + b * y);
    }
  }

  /** Euclid: if a/b is reduced and a * d == c * b with b, d > 0, then b <= d. */
  lemma ReducedDenominatorIsLeast(a: int, b: int, c: int, d: int)
    requires b > 0 && d > 0 && Gcd(Abs(a), b) == 1 && a * d == c * b
    ensures b <= d
  {
    var (x, y) := Bezout(Abs(a), b);
    AbsMul(a, d);
    AbsMul(c, b);
    ScaledBezout(Abs(a), b, Abs(c), d, x, y);
    var t := Abs(c) * x + d * y;
    PositiveFactor(b, t);
    MulAtLeast(b, t);
  }

  /** Two reduced fractions with positive denominators that are equal as rationals
      are equal component by component. */
  lemma ReducedUnique(a: int, b: int, c: int, d: int)
    requires b > 0 && d > 0 && Gcd(Abs(a), b) == 1 && Gcd(Abs(c), d) == 1
    requires a * d == c * b
    ensures a == c && b == d
  {
    ReducedDenominatorIsLeast(a, b, c, d);
    ReducedDenominatorIsLeast(c, d, a, b);
    assert b == d;
    assert (a - c) * b == 0;
  }

  /** A reduced fraction whose numerator is a multiple of its denominator has
      denominator 1. */
  lemma ReducedMultipleHasUnitDenominator(m: int, den: int)
    requires den > 0 && Gcd(Abs(m * den), den) == 1
    ensures den == 1
  {
    AbsProduct(m, den);
    MultipleMod(den, Abs(m));
    DenDividesGcd(Abs(m) * den, den);
  }

  lemma AbsProduct(m: int, den: int)
    requires den > 0
    ensures Abs(m * den) == Abs(m) * den
  {
    if m < 0 {
      assert m * den < 0;
      assert -(m * den) == (-m) * den;
    } else {
      assert m * den >= 0;
    }
  }

  lemma DenDividesGcd(n: nat, den: nat)
    requires den > 0 && n % den == 0 && Gcd(n, den) == 1
    ensures den == 1
  {
    assert den % den == 0;
    CommonDivisorDividesGcd(n, den, den);
    assert 1 % den == 0;
  }

  /** a and b have no common divisor other than 1. */
  ghost predicate Coprime(a: nat, b: nat)
  {
    forall c: nat :: Divides(c, a) && Divides(c, b) ==> c == 1
  }

  lemma CoprimeIffGcdIsOne(a: nat, b: nat)
    requires b > 0
    ensures Coprime(a, b) <==> Gcd(a, b) == 1
  {
    GcdDivides(a, b);
    if Gcd(a, b) == 1 {
      forall c: nat | Divides(c, a) && Divides(c, b)
        ensures c == 1
      {
        CommonDivisorDividesGcd(a, b, c);
      }
    }
  }

  function Pow(x: int, n: nat): int
  {
    if n == 0 then 1 else x * Pow(x, n - 1)
  }

  lemma {:induction false} PowPositive(x: int, n: nat)
    requires x > 0
    ensures Pow(x, n) > 0
  {
    if n > 0 {
      PowPositive(x, n - 1);
      assert x * Pow(x, n - 1) > 0;
    }
  }
}
