/** Lagrange interpolation over the rationals (Main.java:140-180): the value of
    the interpolating polynomial at zero, and its full coefficient list. */
module Lagrange {
  import opened Results
  import opened Rational
  import opened Polynomial

  /** A share: f(x) == y. */
  datatype Point = Point(x: int, y: int)

  predicate DistinctX(s: seq<Point>)
  {
    forall i, j :: 0 <= i < j < |s| ==> s[i].x != s[j].x
  }

  // ---------------------------------------------------------------------------
  // The products the two methods accumulate, skipping j == i. Each is split into
  // a product over j < m and a product over j <= m, so that a mention of the
  // product does not by itself unfold into the multiplication; the *Next lemmas
  // take one step explicitly.

  /** The product of -x_j over j < m, j != i: num in f0FromSubset. */
  function NumAt(s: seq<Point>, i: nat, m: nat): int
    requires m <= |s|
    decreases m, 0
  {
    if m == 0 then 1 else NumThrough(s, i, m - 1)
  }

  /** The product of -x_j over j <= m, j != i. */
  function NumThrough(s: seq<Point>, i: nat, m: nat): int
    requires m < |s|
    decreases m, 1
  {
    if m == i then NumAt(s, i, m) else NumAt(s, i, m) * -s[m].x
  }

  /** The product of x_i - x_j over j < m, j != i: den in both methods. */
  function DenAt(s: seq<Point>, i: nat, m: nat): int
    requires i < |s| && m <= |s|
    decreases m, 0
  {
    if m == 0 then 1 else DenThrough(s, i, m - 1)
  }

  function DenThrough(s: seq<Point>, i: nat, m: nat): int
    requires i < |s| && m < |s|
    decreases m, 1
  {
    if m == i then DenAt(s, i, m) else DenAt(s, i, m) * (s[i].x - s[m].x)
  }

  /** The product of X - x_j over j < m, j != i: the basis polynomial at X. */
  ghost function BasisR(s: seq<Point>, i: nat, m: nat, X: real): real
    requires m <= |s|
    decreases m, 0
  {
    if m == 0 then 1.0 else BasisThrough(s, i, m - 1, X)
  }

  ghost function BasisThrough(s: seq<Point>, i: nat, m: nat, X: real): real
    requires m < |s|
    decreases m, 1
  {
    if m == i then BasisR(s, i, m, X) else BasisR(s, i, m, X) * (X - s[m].x as real)
  }

  lemma NumNext(s: seq<Point>, i: nat, m: nat)
    requires m < |s|
    ensures NumAt(s, i, m + 1) == if m == i then NumAt(s, i, m) else NumAt(s, i, m) * -s[m].x
  {
    assert NumAt(s, i, m + 1) == NumThrough(s, i, m);
  }

  lemma DenNext(s: seq<Point>, i: nat, m: nat)
    requires i < |s| && m < |s|
    ensures DenAt(s, i, m + 1) == if m == i then DenAt(s, i, m) else DenAt(s, i, m) * (s[i].x - s[m].x)
  {
    assert DenAt(s, i, m + 1) == DenThrough(s, i, m);
  }

  lemma BasisNext(s: seq<Point>, i: nat, m: nat, X: real)
    requires m < |s|
    ensures BasisR(s, i, m + 1, X)
      == if m == i then BasisR(s, i, m, X) else BasisR(s, i, m, X) * (X - s[m].x as real)
  {
    assert BasisR(s, i, m + 1, X) == BasisThrough(s, i, m, X);
  }

  ghost predicate DenomsNonzero(s: seq<Point>, m: nat)
    requires m <= |s|
  {
    forall i :: 0 <= i < m ==> DenAt(s, i, |s|) != 0
  }

  /** Point i's term of the Lagrange form at X: y_i * l_i(X). */
  ghost function Term(s: seq<Point>, i: nat, X: real): real
    requires i < |s| && DenAt(s, i, |s|) != 0
  {
    (s[i].y as real / DenAt(s, i, |s|) as real) * BasisR(s, i, |s|, X)
  }

  /** The sum of the terms of the first m points. */
  ghost function LSum(s: seq<Point>, X: real, m: nat): real
    requires m <= |s| && DenomsNonzero(s, m)
  {
    if m == 0 then 0.0 else LSum(s, X, m - 1) + Term(s, m - 1, X)
  }

  /** The Lagrange interpolating polynomial of the points, at X. */
  ghost function LagrangeAt(s: seq<Point>, X: real): real
    requires DistinctX(s)
  {
    DistinctIffDenomsNonzero(s);
    LSum(s, X, |s|)
  }

  // ---------------------------------------------------------------------------
  // Facts about the products.

  /** den is zero exactly when an earlier-or-later point repeats x_i. */
  lemma {:induction false} DenZeroIff(s: seq<Point>, i: nat, m: nat)
    requires i < |s| && m <= |s|
    ensures DenAt(s, i, m) == 0 <==> exists j :: 0 <= j < m && j != i && s[j].x == s[i].x
  {
    if m > 0 {
      DenZeroIff(s, i, m - 1);
      DenNext(s, i, m - 1);
      if m - 1 != i {
        ProductZeroIff(DenAt(s, i, m - 1), s[i].x - s[m - 1].x);
      }
    }
  }

  lemma ProductZeroIff(a: int, b: int)
    ensures a * b == 0 <==> a == 0 || b == 0
  {
  }

  /** Distinct x values are exactly the subsets with no zero denominator. */
  lemma DistinctIffDenomsNonzero(s: seq<Point>)
    ensures DistinctX(s) <==> DenomsNonzero(s, |s|)
  {
    forall i | 0 <= i < |s| {
      DenZeroIff(s, i, |s|);
    }
    if !DistinctX(s) {
      var i, j :| 0 <= i < j < |s| && s[i].x == s[j].x;
      assert DenAt(s, i, |s|) == 0;
    }
  }

  lemma {:induction false} BasisAtZero(s: seq<Point>, i: nat, m: nat)
    requires m <= |s|
    ensures BasisR(s, i, m, 0.0) == NumAt(s, i, m) as real
  {
    if m > 0 {
      BasisAtZero(s, i, m - 1);
      BasisNext(s, i, m - 1, 0.0);
      NumNext(s, i, m - 1);
      CastMul(NumAt(s, i, m - 1), -s[m - 1].x);
    }
  }

  lemma {:induction false} BasisAtSelf(s: seq<Point>, i: nat, m: nat)
    requires i < |s| && m <= |s|
    ensures BasisR(s, i, m, s[i].x as real) == DenAt(s, i, m) as real
  {
    if m > 0 {
      BasisAtSelf(s, i, m - 1);
      BasisNext(s, i, m - 1, s[i].x as real);
      DenNext(s, i, m - 1);
      CastMul(DenAt(s, i, m - 1), s[i].x - s[m - 1].x);
    }
  }

  /** The basis polynomial of point i vanishes at every other point. */
  lemma {:induction false} BasisAtOther(s: seq<Point>, i: nat, j: nat, m: nat)
    requires j < m <= |s| && j != i
    ensures BasisR(s, i, m, s[j].x as real) == 0.0
  {
    BasisNext(s, i, m - 1, s[j].x as real);
    if m - 1 != j {
      BasisAtOther(s, i, j, m - 1);
    }
  }

  /** At x_m only the term of point m survives. */
  lemma {:induction false} LSumAtPoint(s: seq<Point>, m: nat, n: nat)
    requires m < |s| && n <= |s| && DenomsNonzero(s, n)
    ensures LSum(s, s[m].x as real, n) == if m < n then s[m].y as real else 0.0
  {
    if n > 0 {
      LSumAtPoint(s, m, n - 1);
      var X := s[m].x as real;
      if n - 1 == m {
        BasisAtSelf(s, m, |s|);
        TermAtSelf(s[m].y as real, DenAt(s, m, |s|) as real);
      } else {
        BasisAtOther(s, n - 1, m, |s|);
      }
    }
  }

  lemma TermAtSelf(y: real, d: real)
    requires d != 0.0
    ensures (y / d) * d == y
  {
  }

  /** The interpolating polynomial passes through every point. */
  lemma Interpolates(s: seq<Point>, m: nat)
    requires DistinctX(s) && m < |s|
    ensures LagrangeAt(s, s[m].x as real) == s[m].y as real
  {
    DistinctIffDenomsNonzero(s);
    LSumAtPoint(s, m, |s|);
  }

  // ---------------------------------------------------------------------------
  // f0FromSubset.

  /** f0FromSubset (Main.java:140-156): the interpolating polynomial at zero,
      accumulated one term y_i * num / den at a time. A repeated x gives a zero
      den, which the fraction constructor rejects. */
  method F0FromSubset(s: seq<Point>) returns (r: Result<Frac>)
    ensures r.Failure? <==> !DistinctX(s)
    ensures r.Failure? ==> r.error == DivisionByZero
    ensures r.Success? ==> r.value.Valid() && r.value.Value() == LagrangeAt(s, 0.0)
  {
    var total := Of(0);
    for i := 0 to |s|
      invariant total.Valid() && DenomsNonzero(s, i)
      invariant total.Value() == LSum(s, 0.0, i)
    {
      var xi, yi := s[i].x, s[i].y;
      var num, den := 1, 1;
      for j := 0 to |s|
        invariant num == NumAt(s, i, j) && den == DenAt(s, i, j)
      {
        NumNext(s, i, j);
        DenNext(s, i, j);
        if j != i {
          var xj := s[j].x;
          num := num * -xj;
          den := den * (xi - xj);
        }
      }
      var term := Make(yi * num, den);
      if term.Failure? {
        DistinctIffDenomsNonzero(s);
        return Failure(DivisionByZero);
      }
      F0Step(s, i, total, term.value);
      total := Add(total, term.value);
    }
    DistinctIffDenomsNonzero(s);
    r := Success(total);
  }

  /** One step of f0FromSubset: the term of point i is added. */
  lemma F0Step(s: seq<Point>, i: nat, total: Frac, t: Frac)
    requires i < |s| && DenomsNonzero(s, i) && DenAt(s, i, |s|) != 0
    requires total.Valid() && total.Value() == LSum(s, 0.0, i)
    requires t.Valid()
    requires t.Value() == (s[i].y * NumAt(s, i, |s|)) as real / DenAt(s, i, |s|) as real
    ensures DenomsNonzero(s, i + 1)
    ensures Add(total, t).Value() == LSum(s, 0.0, i + 1)
  {
    TermAtZero(s, i, t.Value());
  }

  /** y_i * num / den, as f0FromSubset forms it, is the term of point i at zero. */
  lemma TermAtZero(s: seq<Point>, i: nat, v: real)
    requires i < |s| && DenAt(s, i, |s|) != 0
    requires v == (s[i].y * NumAt(s, i, |s|)) as real / DenAt(s, i, |s|) as real
    ensures v == Term(s, i, 0.0)
  {
    BasisAtZero(s, i, |s|);
    CastMul(s[i].y, NumAt(s, i, |s|));
    QuotientRegroup(s[i].y as real, NumAt(s, i, |s|) as real, DenAt(s, i, |s|) as real);
  }

  lemma QuotientRegroup(y: real, n: real, d: real)
    requires d != 0.0
    ensures (y * n) / d == (y / d) * n
  {
  }

  // ---------------------------------------------------------------------------
  // polyFromSubset.

  /** polyFromSubset (Main.java:158-180): the coefficients of the interpolating
      polynomial, as the sum over i of y_i / den_i times the product of the
      linear factors (X - x_j), j != i. */
  method PolyFromSubset(s: seq<Point>) returns (r: Result<seq<Frac>>)
    ensures r.Failure? <==> !DistinctX(s)
    ensures r.Failure? ==> r.error == DivisionByZero
    ensures r.Success? ==> |r.value| == |s| && AllValid(r.value)
    ensures r.Success? ==> forall X: real :: EvalR(Values(r.value), X) == LagrangeAt(s, X)
  {
    var k := |s|;
    var zero := Of(0);
    var coeff := seq(k, _ => zero);
    ZeroPolynomial(coeff);
    for i := 0 to k
      invariant |coeff| == k && AllValid(coeff) && DenomsNonzero(s, i)
      invariant forall X: real :: EvalR(Values(coeff), X) == LSum(s, X, i)
    {
      var xi, yi := s[i].x, s[i].y;
      var one := Of(1);
      var basis := [one];
      OnePolynomial(basis);
      var den := 1;
      for j := 0 to k
        invariant AllValid(basis) && |basis| == (if j <= i then j + 1 else j)
        invariant den == DenAt(s, i, j)
        invariant forall X: real :: EvalR(Values(basis), X) == BasisR(s, i, j, X)
      {
        DenNext(s, i, j);
        if j != i {
          var xj := s[j].x;
          var factor := [Of(-xj), Of(1)];
          ghost var before := basis;
          basis := PolyMul(basis, factor);
          BasisStep(s, i, j, before, factor, basis);
          den := den * (xi - xj);
        } else {
          BasisSkip(s, i);
        }
      }
      // new BigFrac(yi, 1) and new BigFrac(den, 1) are Of(yi) and Of(den) (OfIsMake).
      var scale := Div(Of(yi), Of(den));
      if scale.Failure? {
        DistinctIffDenomsNonzero(s);
        return Failure(DivisionByZero);
      }
      ghost var old_coeff := coeff;
      var scaled := PolyScale(basis, scale.value);
      coeff := PolyAdd(coeff, scaled);
      CoeffStep(s, i, Values(old_coeff), Values(basis), scale.value.Value(), Values(coeff));
    }
    DistinctIffDenomsNonzero(s);
    r := Success(coeff);
  }

  lemma ZeroPolynomial(c: seq<Frac>)
    requires forall i :: 0 <= i < |c| ==> c[i] == Of(0)
    ensures AllValid(c)
    ensures forall X: real :: EvalR(Values(c), X) == 0.0
  {
    forall X: real
      ensures EvalR(Values(c), X) == 0.0
    {
      SumToZero(Values(c), X, |c|);
    }
  }

  lemma OnePolynomial(c: seq<Frac>)
    requires c == [Of(1)]
    ensures forall X: real :: EvalR(Values(c), X) == 1.0
  {
    forall X: real
      ensures EvalR(Values(c), X) == 1.0
    {
      assert SumTo(Values(c), X, 1) == SumTo(Values(c), X, 0) + Coef(Values(c), 0) * PowR(X, 0);
    }
  }

  /** Multiplying the basis by (X - x_j) advances the inner loop of
      polyFromSubset. */
  lemma BasisStep(s: seq<Point>, i: nat, j: nat, basis: seq<Frac>, factor: seq<Frac>, res: seq<Frac>)
    requires j < |s| && j != i && |basis| >= 1
    requires factor == [Of(-s[j].x), Of(1)]
    requires forall X: real :: EvalR(Values(basis), X) == BasisR(s, i, j, X)
    requires Values(res) == ConvR(Values(basis), Values(factor))
    ensures forall X: real :: EvalR(Values(res), X) == BasisR(s, i, j + 1, X)
  {
    var B, F := Values(basis), Values(factor);
    assert F == [(-s[j].x) as real, 1.0];
    forall X: real
      ensures EvalR(Values(res), X) == BasisR(s, i, j + 1, X)
    {
      EvalConv(B, F, X);
      LinearValue(F, (-s[j].x) as real, X);
      BasisNext(s, i, j, X);
    }
  }

  /** At j == i the inner loop of polyFromSubset skips its factor. */
  lemma BasisSkip(s: seq<Point>, i: nat)
    requires i < |s|
    ensures forall X: real :: BasisR(s, i, i + 1, X) == BasisR(s, i, i, X)
  {
    forall X: real
      ensures BasisR(s, i, i + 1, X) == BasisR(s, i, i, X)
    {
      BasisNext(s, i, i, X);
    }
  }

  /** The value of a + X at X, for the coefficient list [a, 1]. */
  lemma LinearValue(f: seq<real>, a: real, X: real)
    requires f == [a, 1.0]
    ensures EvalR(f, X) == a + X
  {
    assert SumTo(f, X, 1) == SumTo(f, X, 0) + Coef(f, 0) * PowR(X, 0);
    assert SumTo(f, X, 2) == SumTo(f, X, 1) + Coef(f, 1) * PowR(X, 1);
  }

  /** Adding the scaled basis of point i advances the outer loop of
      polyFromSubset. */
  lemma CoeffStep(s: seq<Point>, i: nat, c: seq<real>, b: seq<real>, sc: real, c': seq<real>)
    requires i < |s| && DenomsNonzero(s, i) && DenAt(s, i, |s|) != 0
    requires sc == s[i].y as real / DenAt(s, i, |s|) as real
    requires forall X: real :: EvalR(c, X) == LSum(s, X, i)
    requires forall X: real :: EvalR(b, X) == BasisR(s, i, |s|, X)
    requires c' == AddR(c, ScaleR(b, sc))
    ensures DenomsNonzero(s, i + 1)
    ensures forall X: real :: EvalR(c', X) == LSum(s, X, i + 1)
  {
    forall X: real
      ensures EvalR(c', X) == LSum(s, X, i + 1)
    {
      CoeffStepAt(s, i, c, b, sc, X);
    }
  }

  /** CoeffStep at one point X. */
  lemma CoeffStepAt(s: seq<Point>, i: nat, c: seq<real>, b: seq<real>, sc: real, X: real)
    requires i < |s| && DenomsNonzero(s, i + 1)
    requires sc == s[i].y as real / DenAt(s, i, |s|) as real
    requires EvalR(c, X) == LSum(s, X, i) && EvalR(b, X) == BasisR(s, i, |s|, X)
    ensures EvalR(AddR(c, ScaleR(b, sc)), X) == LSum(s, X, i + 1)
  {
    calc {
      EvalR(AddR(c, ScaleR(b, sc)), X);
    == { EvalAdd(c, ScaleR(b, sc), X); }
      EvalR(c, X) + EvalR(ScaleR(b, sc), X);
    == { EvalScale(b, sc, X); }
      EvalR(c, X) + sc * EvalR(b, X);
    ==
      LSum(s, X, i) + sc * BasisR(s, i, |s|, X);
    ==
      LSum(s, X, i) + Term(s, i, X);
    }
  }

  // ---------------------------------------------------------------------------
  // How the two methods relate.

  /** Canonical fractions make f0FromSubset's value equal to coefficient 0 of
      polyFromSubset's list, as Fracs and not only as numbers. */
  lemma F0IsConstantCoefficient(s: seq<Point>, f0: Frac, coeff: seq<Frac>)
    requires DistinctX(s) && |coeff| >= 1 && AllValid(coeff)
    requires f0.Valid() && f0.Value() == LagrangeAt(s, 0.0)
    requires forall X: real :: EvalR(Values(coeff), X) == LagrangeAt(s, X)
    ensures f0 == coeff[0]
  {
    EvalAtZero(Values(coeff));
    assert EvalR(Values(coeff), 0.0) == LagrangeAt(s, 0.0);
    SameValueSameFrac(f0, coeff[0]);
  }

  /** The coefficient list of polyFromSubset evaluates to y at each x of the subset. */
  lemma PolynomialThroughSubset(s: seq<Point>, coeff: seq<Frac>, m: nat)
    requires DistinctX(s) && m < |s|
    requires forall X: real :: EvalR(Values(coeff), X) == LagrangeAt(s, X)
    ensures EvalR(Values(coeff), s[m].x as real) == s[m].y as real
  {
    Interpolates(s, m);
  }

  // ---------------------------------------------------------------------------
  // The order of the subset does not matter: combinations hands the points to
  // both methods in index order, and any other order of the same points gives
  // the same polynomial and the same list of fractions.

  /** A point that occurs at most once cannot sit at two positions. */
  lemma CountTwo(t: seq<Point>, i: nat, j: nat)
    requires i < j < |t| && multiset(t)[t[i]] <= 1
    ensures t[i] != t[j]
  {
    assert t == t[..j] + [t[j]] + t[j + 1..];
    assert t[..j][i] == t[i];
  }

  /** With distinct x values, every point occurs at most once. */
  lemma {:induction false} CountOne(s: seq<Point>, p: Point)
    requires DistinctX(s)
    ensures multiset(s)[p] <= 1
    decreases |s|
  {
    if |s| > 0 {
      var n := |s| - 1;
      var r := s[..n];
      assert s == r + [s[n]];
      assert DistinctX(r) by {
        forall i, j | 0 <= i < j < |r|
          ensures r[i].x != r[j].x
        {
          assert r[i] == s[i] && r[j] == s[j];
        }
      }
      CountOne(r, p);
      if p == s[n] {
        forall k | 0 <= k < n
          ensures r[k] != p
        {
          assert r[k].x == s[k].x != s[n].x;
        }
        assert multiset(r)[p] == 0;
      }
    }
  }

  /** Two different points of a subset with distinct x values differ in x. */
  lemma DistinctMembers(s: seq<Point>, p: Point, q: Point)
    requires DistinctX(s) && p in s && q in s && p != q
    ensures p.x != q.x
  {
    var a :| 0 <= a < |s| && s[a] == p;
    var b :| 0 <= b < |s| && s[b] == q;
    if a < b {
      assert s[a].x != s[b].x;
    } else {
      assert s[b].x != s[a].x;
    }
  }

  /** A reordering of a subset with distinct x values has distinct x values. */
  lemma SameMultisetDistinct(s: seq<Point>, t: seq<Point>)
    requires multiset(s) == multiset(t) && DistinctX(s)
    ensures DistinctX(t)
  {
    forall i, j | 0 <= i < j < |t|
      ensures t[i].x != t[j].x
    {
      CountOne(s, t[i]);
      CountTwo(t, i, j);
      assert t[i] in multiset(t) && t[j] in multiset(t);
      DistinctMembers(s, t[i], t[j]);
    }
  }

  /** The coefficients of the product of X - x_j over j < m, j != i: the list
      the inner loop of polyFromSubset builds. */
  ghost function BasisPoly(s: seq<Point>, i: nat, m: nat): (b: seq<real>)
    requires m <= |s|
    ensures |b| == if m <= i then m + 1 else m
    decreases m
  {
    if m == 0 then [1.0]
    else if m - 1 == i then BasisPoly(s, i, m - 1)
    else ConvR(BasisPoly(s, i, m - 1), [(-s[m - 1].x) as real, 1.0])
  }

  lemma {:induction false} BasisPolyValue(s: seq<Point>, i: nat, m: nat, X: real)
    requires m <= |s|
    ensures EvalR(BasisPoly(s, i, m), X) == BasisR(s, i, m, X)
    decreases m
  {
    if m == 0 {
      ConstantOne(X);
    } else {
      BasisPolyValue(s, i, m - 1, X);
      if m - 1 == i {
        BasisNext(s, i, m - 1, X);
      } else {
        BasisPolyStep(s, i, m, X);
      }
    }
  }

  /** A step of BasisPolyValue that multiplies by X - x_(m-1). */
  lemma BasisPolyStep(s: seq<Point>, i: nat, m: nat, X: real)
    requires 0 < m <= |s| && m - 1 != i
    requires EvalR(BasisPoly(s, i, m - 1), X) == BasisR(s, i, m - 1, X)
    ensures EvalR(BasisPoly(s, i, m), X) == BasisR(s, i, m, X)
  {
    BasisPolyFactor(s, i, m, X);
    BasisNext(s, i, m - 1, X);
  }

  lemma BasisPolyFactor(s: seq<Point>, i: nat, m: nat, X: real)
    requires 0 < m <= |s| && m - 1 != i
    ensures EvalR(BasisPoly(s, i, m), X) == EvalR(BasisPoly(s, i, m - 1), X) * (X - s[m - 1].x as real)
  {
    var prev, f := BasisPoly(s, i, m - 1), [(-s[m - 1].x) as real, 1.0];
    assert BasisPoly(s, i, m) == ConvR(prev, f);
    FactorValue(prev, s[m - 1].x, X);
  }

  lemma ConstantOne(X: real)
    ensures EvalR([1.0], X) == 1.0
  {
    assert SumTo([1.0], X, 1) == SumTo([1.0], X, 0) + Coef([1.0], 0) * PowR(X, 0);
  }

  /** Multiplying by the linear factor X - c multiplies the value by X - c. */
  lemma FactorValue(b: seq<real>, c: int, X: real)
    requires |b| >= 1
    ensures EvalR(ConvR(b, [(-c) as real, 1.0]), X) == EvalR(b, X) * (X - c as real)
  {
    var f := [(-c) as real, 1.0];
    EvalConv(b, f, X);
    LinearValue(f, (-c) as real, X);
  }

  /** The coefficients of the sum of the first m terms of the Lagrange form:
      the list the outer loop of polyFromSubset builds. */
  ghost function LagrangePoly(s: seq<Point>, m: nat): (c: seq<real>)
    requires m <= |s| && DenomsNonzero(s, m)
    ensures |c| == |s|
    decreases m
  {
    if m == 0 then seq(|s|, _ => 0.0)
    else
      var sc := s[m - 1].y as real / DenAt(s, m - 1, |s|) as real;
      AddR(LagrangePoly(s, m - 1), ScaleR(BasisPoly(s, m - 1, |s|), sc))
  }

  lemma {:induction false} LagrangePolyValue(s: seq<Point>, m: nat, X: real)
    requires m <= |s| && DenomsNonzero(s, m)
    ensures EvalR(LagrangePoly(s, m), X) == LSum(s, X, m)
    decreases m
  {
    if m == 0 {
      SumToZero(LagrangePoly(s, 0), X, |s|);
    } else {
      var sc := s[m - 1].y as real / DenAt(s, m - 1, |s|) as real;
      LagrangePolyValue(s, m - 1, X);
      BasisPolyValue(s, m - 1, |s|, X);
      CoeffStepAt(s, m - 1, LagrangePoly(s, m - 1), BasisPoly(s, m - 1, |s|), sc, X);
    }
  }

  /** The interpolating polynomial of a reordered subset is the same polynomial. */
  lemma LagrangeReordered(s: seq<Point>, t: seq<Point>, X: real)
    requires DistinctX(s) && multiset(s) == multiset(t)
    ensures DistinctX(t) && LagrangeAt(s, X) == LagrangeAt(t, X)
  {
    SameMultisetDistinct(s, t);
    DistinctIffDenomsNonzero(s);
    DistinctIffDenomsNonzero(t);
    assert |s| == |t| by {
      assert |multiset(s)| == |multiset(t)|;
    }
    var a, b := LagrangePoly(s, |s|), LagrangePoly(t, |t|);
    var xs := seq(|s|, i requires 0 <= i < |s| => s[i].x as real);
    forall i | 0 <= i < |xs|
      ensures EvalR(a, xs[i]) == EvalR(b, xs[i])
    {
      assert s[i] in multiset(t);
      var k :| 0 <= k < |t| && t[k] == s[i];
      LagrangePolyValue(s, |s|, xs[i]);
      LagrangePolyValue(t, |t|, xs[i]);
      Interpolates(s, i);
      Interpolates(t, k);
    }
    forall i, j | 0 <= i < j < |xs|
      ensures xs[i] != xs[j]
    {
      assert s[i].x != s[j].x;
    }
    AgreeingPolynomials(a, b, xs);
    LagrangePolyValue(s, |s|, X);
    LagrangePolyValue(t, |t|, X);
  }

  /** polyFromSubset gives the same fractions for every order of the same
      points, and fails on one order exactly when it fails on all. */
  lemma PolyFromSubsetReordered(s: seq<Point>, t: seq<Point>, r1: Result<seq<Frac>>, r2: Result<seq<Frac>>)
    requires multiset(s) == multiset(t)
    requires r1.Failure? <==> !DistinctX(s)
    requires r1.Failure? ==> r1.error == DivisionByZero
    requires r1.Success? ==> |r1.value| == |s| && AllValid(r1.value)
    requires r1.Success? ==> forall X: real :: EvalR(Values(r1.value), X) == LagrangeAt(s, X)
    requires r2.Failure? <==> !DistinctX(t)
    requires r2.Failure? ==> r2.error == DivisionByZero
    requires r2.Success? ==> |r2.value| == |t| && AllValid(r2.value)
    requires r2.Success? ==> forall X: real :: EvalR(Values(r2.value), X) == LagrangeAt(t, X)
    ensures r1 == r2
  {
    assert |s| == |t| by {
      assert |multiset(s)| == |multiset(t)|;
    }
    if DistinctX(s) {
      SameMultisetDistinct(s, t);
    }
    if DistinctX(t) {
      SameMultisetDistinct(t, s);
    }
    if r1.Success? {
      var v1, v2 := r1.value, r2.value;
      var xs := seq(|s|, i => i as real);
      forall i | 0 <= i < |xs|
        ensures EvalR(Values(v1), xs[i]) == EvalR(Values(v2), xs[i])
      {
        LagrangeReordered(s, t, xs[i]);
      }
      AgreeingPolynomials(Values(v1), Values(v2), xs);
      forall k | 0 <= k < |v1|
        ensures v1[k] == v2[k]
      {
        SameValueSameFrac(v1[k], v2[k]);
      }
      assert v1 == v2;
    }
  }
}
