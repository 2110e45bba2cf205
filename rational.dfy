/** BigFrac: exact rationals in canonical form (Main.java:15-48). */
module Rational {
  import opened Arith
  import opened Results

  /** num/den. A Valid fraction has den > 0 and gcd(|num|, den) == 1, so it is the
      unique representative of its value (see SameValueSameFrac). */
  datatype Frac = Frac(num: int, den: int) {
    ghost predicate Valid()
    {
      den > 0 && Coprime(Abs(num), den)
    }

    /** The rational number the fraction denotes. */
    ghost function Value(): real
    {
      if den == 0 then 0.0 else num as real / den as real
    }
  }

  lemma CastMul(p: int, q: int)
    ensures (p * q) as real == p as real * q as real
  {
  }

  /** Equal cross products mean equal quotients. */
  lemma CrossProductsEqual(p: int, q: int, n: int, d: int)
    requires q != 0 && d != 0 && p * d == n * q
    ensures p as real / q as real == n as real / d as real
  {
    CastMul(p, d);
    CastMul(n, q);
  }

  /** The components Make settles on represent n/d. */
  lemma ReducedRepresents(n: int, d: int, n1: int, d1: int, g: int)
    requires d != 0 && g > 0
    requires (d < 0 ==> n1 == -n && d1 == -d) && (d > 0 ==> n1 == n && d1 == d)
    requires n1 % g == 0 && d1 % g == 0
    ensures (n1 / g) * d == n * (d1 / g)
  {
    ModZero(n1, g);
    ModZero(d1, g);
    var u, v := n1 / g, d1 / g;
    assert u * d1 == n1 * v by {
      calc {
        u * d1;
        == u * (g * v);
        == (g * u) * v;
        == n1 * v;
      }
    }
    if d < 0 {
      assert u * d == -(u * d1);
      assert n * v == -(n1 * v);
    }
  }

  /** The BigFrac constructor: fails on a zero denominator, otherwise moves the
      sign to the numerator and divides out the gcd (Main.java:18-24). */
  function Make(n: int, d: int): (r: Result<Frac>)
    ensures r.Failure? <==> d == 0
    ensures r.Failure? ==> r.error == DivisionByZero
    ensures r.Success? ==> r.value.Valid() && r.value.num * d == n * r.value.den
    ensures r.Success? ==> r.value.Value() == n as real / d as real
  {
    if d == 0 then Failure(DivisionByZero)
    else
      var n1 := if d < 0 then -n else n;
      var d1 := if d < 0 then -d else d;
      var g := Gcd(Abs(n1), d1);
      ReducedCoprime(n1, d1);
      CoprimeIffGcdIsOne(Abs(n1 / g), d1 / g);
      ReducedRepresents(n, d, n1, d1, g);
      MultipleMod(1, n1);
      MultipleMod(1, d1);
      var f := if g == 1 then Frac(n1, d1) else Frac(n1 / g, d1 / g);
      assert f == Frac(n1 / g, d1 / g);
      CrossProductsEqual(f.num, f.den, n, d);
      Success(f)
  }

  /** Equal values of positive-denominator fractions give equal cross products. */
  lemma SameValueCrossEqual(an: int, ad: int, bn: int, bd: int)
    requires ad > 0 && bd > 0
    requires an as real / ad as real == bn as real / bd as real
    ensures an * bd == bn * ad
  {
    CastMul(an, bd);
    CastMul(bn, ad);
    assert (an * bd) as real == (bn * ad) as real;
  }

  /** Two valid fractions are equal exactly when their values are. */
  lemma SameValueSameFrac(a: Frac, b: Frac)
    requires a.Valid() && b.Valid()
    ensures a == b <==> a.Value() == b.Value()
  {
    if a.Value() == b.Value() {
      CoprimeIffGcdIsOne(Abs(a.num), a.den);
      CoprimeIffGcdIsOne(Abs(b.num), b.den);
      SameValueCrossEqual(a.num, a.den, b.num, b.den);
      ReducedUnique(a.num, a.den, b.num, b.den);
    }
  }

  lemma CoprimeWithOne(a: nat)
    ensures Coprime(a, 1)
  {
    assert a % 1 == 0;
    CoprimeIffGcdIsOne(a, 1);
  }

  /** BigFrac.of: the integer n as a fraction (Main.java:26). */
  function Of(n: int): (r: Frac)
    ensures r.Valid() && r.Value() == n as real
  {
    CoprimeWithOne(Abs(n));
    Frac(n, 1)
  }

  /** BigFrac.of(n) is the constructor applied to n and 1. */
  lemma OfIsMake(n: int)
    ensures Make(n, 1) == Success(Of(n))
  {
    SameValueSameFrac(Of(n), Make(n, 1).value);
  }

  lemma ProductPositive(p: int, q: int)
    requires p > 0 && q > 0
    ensures p * q > 0
  {
  }

  /** Cross-multiplied sum and difference, read back as rationals. */
  lemma SumOfQuotients(an: int, ad: int, bn: int, bd: int)
    requires ad != 0 && bd != 0
    ensures (an * bd + bn * ad) as real / (ad * bd) as real == an as real / ad as real + bn as real / bd as real
  {
    CastMul(an, bd);
    CastMul(bn, ad);
    CastMul(ad, bd);
  }

  lemma DifferenceOfQuotients(an: int, ad: int, bn: int, bd: int)
    requires ad != 0 && bd != 0
    ensures (an * bd - bn * ad) as real / (ad * bd) as real == an as real / ad as real - bn as real / bd as real
  {
    CastMul(an, bd);
    CastMul(bn, ad);
    CastMul(ad, bd);
  }

  lemma ProductOfQuotients(an: int, ad: int, bn: int, bd: int)
    requires ad != 0 && bd != 0
    ensures (an * bn) as real / (ad * bd) as real == (an as real / ad as real) * (bn as real / bd as real)
  {
    CastMul(an, bn);
    CastMul(ad, bd);
  }

  lemma QuotientOfQuotients(an: int, ad: int, bn: int, bd: int)
    requires ad != 0 && bd != 0 && bn != 0
    ensures (an * bd) as real / (ad * bn) as real == (an as real / ad as real) / (bn as real / bd as real)
  {
    CastMul(an, bd);
    CastMul(ad, bn);
  }

  /** BigFrac.add (Main.java:28). */
  function Add(a: Frac, b: Frac): (r: Frac)
    requires a.Valid() && b.Valid()
    ensures r.Valid() && r.Value() == a.Value() + b.Value()
  {
    ProductPositive(a.den, b.den);
    SumOfQuotients(a.num, a.den, b.num, b.den);
    Make(a.num * b.den + b.num * a.den, a.den * b.den).value
  }

  /** BigFrac.sub (Main.java:29). */
  function Sub(a: Frac, b: Frac): (r: Frac)
    requires a.Valid() && b.Valid()
    ensures r.Valid() && r.Value() == a.Value() - b.Value()
  {
    ProductPositive(a.den, b.den);
    DifferenceOfQuotients(a.num, a.den, b.num, b.den);
    Make(a.num * b.den - b.num * a.den, a.den * b.den).value
  }

  /** BigFrac.mul (Main.java:30). */
  function Mul(a: Frac, b: Frac): (r: Frac)
    requires a.Valid() && b.Valid()
    ensures r.Valid() && r.Value() == a.Value() * b.Value()
  {
    ProductPositive(a.den, b.den);
    ProductOfQuotients(a.num, a.den, b.num, b.den);
    Make(a.num * b.num, a.den * b.den).value
  }

  /** BigFrac.div (Main.java:31): the constructor throws when the divisor is zero. */
  function Div(a: Frac, b: Frac): (r: Result<Frac>)
    requires a.Valid() && b.Valid()
    ensures r.Failure? <==> b.num == 0
    ensures r.Failure? ==> r.error == DivisionByZero
    ensures r.Success? ==> r.value.Valid() && b.Value() != 0.0
    ensures r.Success? ==> r.value.Value() == a.Value() / b.Value()
  {
    if b.num == 0 then
      assert a.den * b.num == 0;
      Make(a.num * b.den, a.den * b.num)
    else
      assert a.den * b.num != 0;
      QuotientOfQuotients(a.num, a.den, b.num, b.den);
      Make(a.num * b.den, a.den * b.num)
  }

  /** BigFrac.isInteger (Main.java:33): a valid fraction is whole exactly when its
      value has no fractional part. */
  predicate IsInteger(a: Frac)
  {
    a.den == 1
  }

  lemma IntegerIffWholeValue(a: Frac)
    requires a.Valid()
    ensures IsInteger(a) <==> a.Value() == a.Value().Floor as real
  {
    var m := a.Value().Floor;
    CoprimeIffGcdIsOne(Abs(a.num), a.den);
    if a.Value() == m as real {
      assert a.num as real == (m * a.den) as real by {
        CastMul(m, a.den);
      }
      assert a.num == m * a.den;
      ReducedMultipleHasUnitDenominator(m, a.den);
    }
  }

  /** BigFrac.toBigIntegerExact (Main.java:34-37). */
  function ToIntExact(a: Frac): (r: Result<int>)
    requires a.Valid()
    ensures r.Failure? <==> a.Value() != a.Value().Floor as real
    ensures r.Failure? ==> r.error == NonIntegerValue
    ensures r.Success? ==> r.value as real == a.Value()
  {
    IntegerIffWholeValue(a);
    if !IsInteger(a) then Failure(NonIntegerValue) else Success(a.num)
  }

  /** BigFrac.compareTo (Main.java:38-40): the sign of num*o.den - o.num*den, as
      BigInteger.compareTo reports it. */
  function CompareTo(a: Frac, b: Frac): (r: int)
    requires a.Valid() && b.Valid()
    ensures r == -1 || r == 0 || r == 1
    ensures r < 0 <==> a.Value() < b.Value()
    ensures r == 0 <==> a.Value() == b.Value()
    ensures r > 0 <==> a.Value() > b.Value()
  {
    var l, h := a.num * b.den, b.num * a.den;
    CompareSign(a.num, a.den, b.num, b.den);
    if l < h then -1 else if l == h then 0 else 1
  }

  lemma CompareSign(p: int, q: int, n: int, d: int)
    requires q > 0 && d > 0
    ensures p * d < n * q <==> p as real / q as real < n as real / d as real
    ensures p * d == n * q <==> p as real / q as real == n as real / d as real
  {
    CastMul(p, d);
    CastMul(n, q);
    var pr, qr, nr, dr := p as real, q as real, n as real, d as real;
    assert pr / qr - nr / dr == (pr * dr - nr * qr) / (qr * dr);
  }

  /** BigFrac.equals (Main.java:41-45): componentwise, which for canonical fractions
      is equality of the rationals they denote. */
  function Equals(a: Frac, b: Frac): (r: bool)
    requires a.Valid() && b.Valid()
    ensures r <==> a.Value() == b.Value()
    ensures r <==> CompareTo(a, b) == 0
  {
    SameValueSameFrac(a, b);
    a.num == b.num && a.den == b.den
  }
}
