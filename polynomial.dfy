/** Polynomials as coefficient lists, index i holding the coefficient of x^i
    (Main.java:182-215). The methods work on canonical fractions; their contracts
    speak of the rational values of the coefficients, as sequences of reals. */
module Polynomial {
  import opened Rational

  ghost predicate AllValid(p: seq<Frac>)
  {
    forall i :: 0 <= i < |p| ==> p[i].Valid()
  }

  /** The rational values of the coefficients. */
  ghost function Values(p: seq<Frac>): (v: seq<real>)
    ensures |v| == |p|
    ensures forall i :: 0 <= i < |p| ==> v[i] == p[i].Value()
  {
    seq(|p|, i requires 0 <= i < |p| => p[i].Value())
  }

  /** The coefficient of x^i, zero outside the list. */
  ghost function Coef(c: seq<real>, i: int): real
  {
    if 0 <= i < |c| then c[i] else 0.0
  }

  ghost function PowR(x: real, n: nat): real
  {
    if n == 0 then 1.0 else x * PowR(x, n - 1)
  }

  /** The sum of Coef(c, i) * x^i over i < n. */
  ghost function SumTo(c: seq<real>, x: real, n: nat): real
  {
    if n == 0 then 0.0 else SumTo(c, x, n - 1) + Coef(c, n - 1) * PowR(x, n - 1)
  }

  /** The value of the polynomial c at x: the sum of c[i] * x^i. */
  ghost function EvalR(c: seq<real>, x: real): real
  {
    SumTo(c, x, |c|)
  }

  /** The sum of a[i] * b[m - i] over i < n. */
  ghost function RowSum(a: seq<real>, b: seq<real>, m: int, n: nat): real
  {
    if n == 0 then 0.0 else RowSum(a, b, m, n - 1) + Coef(a, n - 1) * Coef(b, m - (n - 1))
  }

  /** The product polynomial: entry m is the sum of a[i] * b[j] over i + j == m. */
  ghost function ConvR(a: seq<real>, b: seq<real>): (r: seq<real>)
    requires |a| + |b| >= 1
  {
    seq(|a| + |b| - 1, m => RowSum(a, b, m, |a|))
  }

  ghost function Max(m: nat, n: nat): nat
  {
    if m < n then n else m
  }

  /** Coefficient-wise sum, the shorter operand padded with zeros. */
  ghost function AddR(a: seq<real>, b: seq<real>): seq<real>
  {
    seq(Max(|a|, |b|), i => Coef(a, i) + Coef(b, i))
  }

  ghost function ScaleR(a: seq<real>, s: real): seq<real>
  {
    seq(|a|, i requires 0 <= i < |a| => a[i] * s)
  }

  /** b scaled by t and moved n places up: b * t * x^n. */
  ghost function Shifted(b: seq<real>, t: real, n: nat): seq<real>
  {
    seq(n, _ => 0.0) + ScaleR(b, t)
  }

  // ---------------------------------------------------------------------------
  // The list operations of the source.

  /** polyMul (Main.java:182-188): res[i + j] accumulates a[i] * b[j]. */
  method PolyMul(a: seq<Frac>, b: seq<Frac>) returns (res: seq<Frac>)
    requires AllValid(a) && AllValid(b) && |a| + |b| >= 1
    ensures |res| == |a| + |b| - 1 && AllValid(res)
    ensures Values(res) == ConvR(Values(a), Values(b))
  {
    ghost var A, B := Values(a), Values(b);
    var zero := Of(0);
    res := seq(|a| + |b| - 1, _ => zero);
    var i := 0;
    while i < |a|
      invariant 0 <= i <= |a|
      invariant |res| == |a| + |b| - 1 && AllValid(res)
      invariant RowsAre(Values(res), A, B, i, 0)
    {
      var j := 0;
      while j < |b|
        invariant 0 <= j <= |b|
        invariant |res| == |a| + |b| - 1 && AllValid(res)
        invariant RowsAre(Values(res), A, B, i, j)
      {
        ghost var before := res;
        var term := Mul(a[i], b[j]);
        var sum := Add(res[i + j], term);
        res := res[i + j := sum];
        AccumulateStep(a, b, before, i, j, term, sum);
        j := j + 1;
      }
      RowComplete(Values(res), A, B, i);
      i := i + 1;
    }
    assert forall m :: 0 <= m < |res| ==> Values(res)[m] == ConvR(A, B)[m];
  }

  /** One step of the inner loop of polyMul: entry i + j gains a[i] * b[j]. */
  lemma AccumulateStep(a: seq<Frac>, b: seq<Frac>, before: seq<Frac>, i: nat, j: nat, term: Frac, sum: Frac)
    requires i < |a| && j < |b| && i + j < |before|
    requires RowsAre(Values(before), Values(a), Values(b), i, j)
    requires term.Value() == a[i].Value() * b[j].Value()
    requires sum.Value() == before[i + j].Value() + term.Value()
    ensures RowsAre(Values(before[i + j := sum]), Values(a), Values(b), i, j + 1)
    ensures AllValid(before) && sum.Valid() ==> AllValid(before[i + j := sum])
  {
    var v, A, B := Values(before), Values(a), Values(b);
    assert Coef(A, i) == a[i].Value() && Coef(B, j) == b[j].Value();
    assert sum.Value() == v[i + j] + Coef(A, i) * Coef(B, j);
    assert Values(before[i + j := sum]) == v[i + j := v[i + j] + Coef(A, i) * Coef(B, j)];
    RowsStep(v, A, B, i, j);
  }

  /** Every entry m of v is PartialRow(a, b, m, i, j). */
  ghost predicate RowsAre(v: seq<real>, a: seq<real>, b: seq<real>, i: nat, j: nat)
  {
    forall m :: 0 <= m < |v| ==> v[m] == PartialRow(a, b, m, i, j)
  }

  /** Adding a[i] * b[j] to entry i + j advances the inner loop of polyMul. */
  lemma RowsStep(v: seq<real>, a: seq<real>, b: seq<real>, i: nat, j: nat)
    requires RowsAre(v, a, b, i, j) && i + j < |v|
    ensures RowsAre(v[i + j := v[i + j] + Coef(a, i) * Coef(b, j)], a, b, i, j + 1)
  {
  }

  /** After the inner loop, row i is complete. */
  lemma RowComplete(v: seq<real>, a: seq<real>, b: seq<real>, i: nat)
    requires RowsAre(v, a, b, i, |b|)
    ensures RowsAre(v, a, b, i + 1, 0)
  {
  }

  /** Row m of the product after the inner loop of polyMul has added the
      products a[i] * b[j'] for j' < j. */
  ghost function PartialRow(a: seq<real>, b: seq<real>, m: int, i: nat, j: nat): real
  {
    RowSum(a, b, m, i) + (if i <= m < i + j then Coef(a, i) * Coef(b, m - i) else 0.0)
  }

  /** polyAdd (Main.java:190-199). */
  method PolyAdd(a: seq<Frac>, b: seq<Frac>) returns (res: seq<Frac>)
    requires AllValid(a) && AllValid(b)
    ensures |res| == Max(|a|, |b|) && AllValid(res)
    ensures Values(res) == AddR(Values(a), Values(b))
  {
    ghost var A, B := Values(a), Values(b);
    var n := if |a| > |b| then |a| else |b|;
    var zero := Of(0);
    res := seq(n, _ => zero);
    for i := 0 to n
      invariant |res| == n && AllValid(res)
      invariant forall m :: 0 <= m < i ==> res[m].Value() == Coef(A, m) + Coef(B, m)
    {
      var ai := if i < |a| then a[i] else Of(0);
      var bi := if i < |b| then b[i] else Of(0);
      res := res[i := Add(ai, bi)];
    }
    assert forall m :: 0 <= m < n ==> Values(res)[m] == AddR(A, B)[m];
  }

  /** polyScale (Main.java:201-205). */
  method PolyScale(p: seq<Frac>, s: Frac) returns (r: seq<Frac>)
    requires AllValid(p) && s.Valid()
    ensures |r| == |p| && AllValid(r)
    ensures Values(r) == ScaleR(Values(p), s.Value())
  {
    r := [];
    for i := 0 to |p|
      invariant |r| == i && AllValid(r)
      invariant forall m :: 0 <= m < i ==> r[m].Value() == p[m].Value() * s.Value()
    {
      r := r + [Mul(p[i], s)];
    }
    assert forall m :: 0 <= m < |p| ==> Values(r)[m] == ScaleR(Values(p), s.Value())[m];
  }

  /** polyEval (Main.java:207-215): the sum of coeff[i] * x^i. */
  method PolyEval(coeff: seq<Frac>, x: int) returns (sum: Frac)
    requires AllValid(coeff)
    ensures sum.Valid() && sum.Value() == EvalR(Values(coeff), x as real)
  {
    var xf := Of(x);
    var pow := Of(1);
    sum := Of(0);
    for i := 0 to |coeff|
      invariant sum.Valid() && pow.Valid()
      invariant sum.Value() == SumTo(Values(coeff), x as real, i)
      invariant pow.Value() == PowR(x as real, i)
    {
      EvalStep(coeff, x, i, pow, sum);
      PowStep(x, i, pow);
      var term := Mul(coeff[i], pow);
      sum := Add(sum, term);
      pow := Mul(pow, xf);
    }
  }

  /** One step of the loop of polyEval: the term of x^i is added ... */
  lemma EvalStep(coeff: seq<Frac>, x: int, i: nat, pow: Frac, sum: Frac)
    requires AllValid(coeff) && i < |coeff| && pow.Valid() && sum.Valid()
    requires sum.Value() == SumTo(Values(coeff), x as real, i) && pow.Value() == PowR(x as real, i)
    ensures Add(sum, Mul(coeff[i], pow)).Value() == SumTo(Values(coeff), x as real, i + 1)
  {
    var c := coeff[i];
    assert Coef(Values(coeff), i) == c.Value();
    MulAddValue(sum, c, pow);
    SumToStep(Values(coeff), x as real, i, sum.Value(), c.Value(), pow.Value());
  }

  lemma PowStep(x: int, i: nat, pow: Frac)
    requires pow.Valid() && pow.Value() == PowR(x as real, i)
    ensures Mul(pow, Of(x)).Value() == PowR(x as real, i + 1)
  {
    PowRStep(x as real, i, pow.Value(), Mul(pow, Of(x)).Value());
  }

  /** The value of s + c * p, in the form the loops use. */
  lemma MulAddValue(s: Frac, c: Frac, p: Frac)
    requires s.Valid() && c.Valid() && p.Valid()
    ensures Add(s, Mul(c, p)).Value() == s.Value() + c.Value() * p.Value()
  {
  }

  lemma PowRStep(x: real, i: nat, p: real, q: real)
    requires p == PowR(x, i) && q == p * x
    ensures q == PowR(x, i + 1)
  {
  }

  lemma SumToStep(c: seq<real>, x: real, i: nat, s: real, ci: real, p: real)
    requires s == SumTo(c, x, i) && ci == Coef(c, i) && p == PowR(x, i)
    ensures s + ci * p == SumTo(c, x, i + 1)
  {
  }

  // ---------------------------------------------------------------------------
  // Algebra of evaluation.

  lemma {:induction false} SumToExt(c: seq<real>, d: seq<real>, x: real, n: nat)
    requires forall i :: 0 <= i < n ==> Coef(c, i) == Coef(d, i)
    ensures SumTo(c, x, n) == SumTo(d, x, n)
  {
    if n > 0 {
      SumToExt(c, d, x, n - 1);
    }
  }

  /** Coefficients past the end are zero, so summing further changes nothing. */
  lemma {:induction false} SumToPad(c: seq<real>, x: real, n: nat)
    requires n >= |c|
    ensures SumTo(c, x, n) == EvalR(c, x)
  {
    if n > |c| {
      SumToPad(c, x, n - 1);
    }
  }

  lemma {:induction false} SumToZero(c: seq<real>, x: real, n: nat)
    requires forall i :: 0 <= i < n ==> Coef(c, i) == 0.0
    ensures SumTo(c, x, n) == 0.0
  {
    if n > 0 {
      SumToZero(c, x, n - 1);
    }
  }

  lemma {:induction false} SumToAdd(a: seq<real>, b: seq<real>, r: seq<real>, x: real, n: nat)
    requires forall i :: 0 <= i < n ==> Coef(r, i) == Coef(a, i) + Coef(b, i)
    ensures SumTo(r, x, n) == SumTo(a, x, n) + SumTo(b, x, n)
  {
    if n > 0 {
      SumToAdd(a, b, r, x, n - 1);
      var p := PowR(x, n - 1);
      assert Coef(r, n - 1) * p == Coef(a, n - 1) * p + Coef(b, n - 1) * p;
    }
  }

  lemma {:induction false} SumToScale(a: seq<real>, r: seq<real>, s: real, x: real, n: nat)
    requires forall i :: 0 <= i < n ==> Coef(r, i) == s * Coef(a, i)
    ensures SumTo(r, x, n) == s * SumTo(a, x, n)
  {
    if n > 0 {
      SumToScale(a, r, s, x, n - 1);
      var p := PowR(x, n - 1);
      assert Coef(r, n - 1) * p == s * (Coef(a, n - 1) * p);
    }
  }

  lemma {:induction false} PowRAdd(x: real, k: nat, n: nat)
    ensures PowR(x, k + n) == PowR(x, k) * PowR(x, n)
  {
    if n > 0 {
      PowRAdd(x, k, n - 1);
      assert PowR(x, k + n) == x * PowR(x, k + n - 1);
    }
  }

  /** Multiplying by x^k moves every coefficient k places up. */
  lemma {:induction false} SumToShift(p: seq<real>, r: seq<real>, x: real, k: nat, n: nat)
    requires forall i :: 0 <= i < k ==> Coef(r, i) == 0.0
    requires forall i :: 0 <= i < n ==> Coef(r, k + i) == Coef(p, i)
    ensures SumTo(r, x, k + n) == PowR(x, k) * SumTo(p, x, n)
  {
    if n == 0 {
      SumToZero(r, x, k);
    } else {
      SumToShift(p, r, x, k, n - 1);
      SumToShiftStep(p, r, x, k, n);
    }
  }

  /** The inductive step of SumToShift. */
  lemma SumToShiftStep(p: seq<real>, r: seq<real>, x: real, k: nat, n: nat)
    requires n >= 1 && Coef(r, k + (n - 1)) == Coef(p, n - 1)
    requires SumTo(r, x, k + (n - 1)) == PowR(x, k) * SumTo(p, x, n - 1)
    ensures SumTo(r, x, k + n) == PowR(x, k) * SumTo(p, x, n)
  {
    SumToUnfold(r, p, x, k, n);
    PowRAdd(x, k, n - 1);
    ShiftAlgebra(SumTo(r, x, k + n), SumTo(r, x, k + (n - 1)), Coef(p, n - 1), PowR(x, k + (n - 1)),
                 PowR(x, k), SumTo(p, x, n - 1), PowR(x, n - 1), SumTo(p, x, n));
  }

  /** The algebra of SumToShiftStep, over plain reals. */
  lemma ShiftAlgebra(r1: real, a: real, c: real, pkn: real, pk: real, s: real, q: real, r2: real)
    requires r1 == a + c * pkn && a == pk * s && pkn == pk * q && r2 == s + c * q
    ensures r1 == pk * r2
  {
  }

  lemma SumToUnfold(r: seq<real>, p: seq<real>, x: real, k: nat, n: nat)
    requires n >= 1 && Coef(r, k + (n - 1)) == Coef(p, n - 1)
    ensures SumTo(r, x, k + n) == SumTo(r, x, k + (n - 1)) + Coef(p, n - 1) * PowR(x, k + (n - 1))
  {
    assert k + n - 1 == k + (n - 1);
  }

  /** Evaluation of a coefficient-wise sum is the sum of the evaluations. */
  lemma EvalAdd(a: seq<real>, b: seq<real>, x: real)
    ensures EvalR(AddR(a, b), x) == EvalR(a, x) + EvalR(b, x)
  {
    var r := AddR(a, b);
    SumToAdd(a, b, r, x, |r|);
    SumToPad(a, x, |r|);
    SumToPad(b, x, |r|);
  }

  lemma EvalScale(a: seq<real>, s: real, x: real)
    ensures EvalR(ScaleR(a, s), x) == s * EvalR(a, x)
  {
    SumToScale(a, ScaleR(a, s), s, x, |a|);
  }

  lemma {:induction false} RowSumExt(a: seq<real>, a': seq<real>, b: seq<real>, m: int, n: nat)
    requires forall i :: 0 <= i < n ==> Coef(a, i) == Coef(a', i)
    ensures RowSum(a, b, m, n) == RowSum(a', b, m, n)
  {
    if n > 0 {
      RowSumExt(a, a', b, m, n - 1);
    }
  }

  /** Entries of b past its end contribute nothing. */
  lemma {:induction false} RowSumBeyond(a: seq<real>, b: seq<real>, m: int, n: nat)
    requires m >= n - 1 + |b|
    ensures RowSum(a, b, m, n) == 0.0
  {
    if n > 0 {
      RowSumBeyond(a, b, m, n - 1);
    }
  }

  /** A polynomial whose coefficients are those of c' and s added evaluates to
      the sum of their values. */
  lemma EvalSplit(c: seq<real>, c': seq<real>, s: seq<real>, x: real)
    requires |c'| <= |c| && |s| <= |c|
    requires forall i :: 0 <= i < |c| ==> Coef(c, i) == Coef(c', i) + Coef(s, i)
    ensures EvalR(c, x) == EvalR(c', x) + EvalR(s, x)
  {
    SumToAdd(c', s, c, x, |c|);
    SumToPad(c', x, |c|);
    SumToPad(s, x, |c|);
  }

  /** n zeros in front of b scaled by t: the value is x^n times that of b scaled. */
  lemma EvalShifted(b: seq<real>, t: real, n: nat, x: real)
    ensures EvalR(Shifted(b, t, n), x) == PowR(x, n) * EvalR(ScaleR(b, t), x)
  {
    ShiftedCoef(b, t, n);
    EvalShift(ScaleR(b, t), Shifted(b, t, n), x, n);
  }

  /** A polynomial whose coefficients are those of p moved k places up. */
  lemma EvalShift(p: seq<real>, r: seq<real>, x: real, k: nat)
    requires |r| == k + |p|
    requires forall i :: 0 <= i < k ==> Coef(r, i) == 0.0
    requires forall i :: 0 <= i < |p| ==> Coef(r, k + i) == Coef(p, i)
    ensures EvalR(r, x) == PowR(x, k) * EvalR(p, x)
  {
    SumToShift(p, r, x, k, |p|);
  }

  lemma ShiftedCoef(b: seq<real>, t: real, n: nat)
    ensures |Shifted(b, t, n)| == n + |ScaleR(b, t)|
    ensures forall i :: 0 <= i < n ==> Coef(Shifted(b, t, n), i) == 0.0
    ensures forall i :: 0 <= i < |ScaleR(b, t)| ==> Coef(Shifted(b, t, n), n + i) == Coef(ScaleR(b, t), i)
  {
  }

  /** Row m of the product of a with b splits into the rows over a's first n
      entries and the term of a[n]. */
  lemma ConvSplit(a: seq<real>, b: seq<real>)
    requires |a| >= 2 && |b| >= 1
    ensures forall i :: 0 <= i < |a| + |b| - 1 ==>
      Coef(ConvR(a, b), i) == Coef(ConvR(a[..|a| - 1], b), i)
        + Coef(Shifted(b, a[|a| - 1], |a| - 1), i)
  {
    var n := |a| - 1;
    var a' := a[..n];
    forall i | 0 <= i < |a| + |b| - 1
      ensures Coef(ConvR(a, b), i) == Coef(ConvR(a', b), i)
        + Coef(Shifted(b, a[n], n), i)
    {
      RowSumExt(a, a', b, i, n);
      if i == |a| + |b| - 2 {
        RowSumBeyond(a', b, i, n);
      }
    }
  }

  lemma EvalConvConstant(a: seq<real>, b: seq<real>, x: real)
    requires |a| == 1 && |b| >= 1
    ensures EvalR(ConvR(a, b), x) == EvalR(a, x) * EvalR(b, x)
  {
    var c := ConvR(a, b);
    forall i | 0 <= i < |b|
      ensures Coef(c, i) == a[0] * Coef(b, i)
    {
      assert RowSum(a, b, i, 0) == 0.0;
    }
    SumToScale(b, c, a[0], x, |b|);
    assert SumTo(a, x, 1) == SumTo(a, x, 0) + Coef(a, 0) * PowR(x, 0);
  }

  lemma EvalConvSplit(a: seq<real>, b: seq<real>, x: real)
    requires |a| >= 2 && |b| >= 1
    ensures EvalR(ConvR(a, b), x)
      == EvalR(ConvR(a[..|a| - 1], b), x) + EvalR(Shifted(b, a[|a| - 1], |a| - 1), x)
  {
    var c := ConvR(a, b);
    assert |c| == |a| + |b| - 1;
    ConvSplit(a, b);
    EvalSplit(c, ConvR(a[..|a| - 1], b), Shifted(b, a[|a| - 1], |a| - 1), x);
  }

  /** Evaluation turns the product polynomial into the product of values. */
  lemma {:induction false} EvalConv(a: seq<real>, b: seq<real>, x: real)
    requires |a| >= 1 && |b| >= 1
    ensures EvalR(ConvR(a, b), x) == EvalR(a, x) * EvalR(b, x)
  {
    if |a| == 1 {
      EvalConvConstant(a, b, x);
    } else {
      EvalConv(a[..|a| - 1], b, x);
      EvalConvStep(a, b, x);
    }
  }

  /** The inductive step of EvalConv: from the front of a to all of a. */
  lemma EvalConvStep(a: seq<real>, b: seq<real>, x: real)
    requires |a| >= 2 && |b| >= 1
    requires EvalR(ConvR(a[..|a| - 1], b), x) == EvalR(a[..|a| - 1], x) * EvalR(b, x)
    ensures EvalR(ConvR(a, b), x) == EvalR(a, x) * EvalR(b, x)
  {
    calc {
      EvalR(ConvR(a, b), x);
    == { EvalConvTop(a, b, x); }
      EvalR(ConvR(a[..|a| - 1], b), x) + PowR(x, |a| - 1) * (a[|a| - 1] * EvalR(b, x));
    ==
      EvalR(a[..|a| - 1], x) * EvalR(b, x) + PowR(x, |a| - 1) * (a[|a| - 1] * EvalR(b, x));
    ==
      (EvalR(a[..|a| - 1], x) + a[|a| - 1] * PowR(x, |a| - 1)) * EvalR(b, x);
    == { EvalLast(a, x); }
      EvalR(a, x) * EvalR(b, x);
    }
  }

  /** The product with a splits into the product with its front and the top term times b. */
  lemma EvalConvTop(a: seq<real>, b: seq<real>, x: real)
    requires |a| >= 2 && |b| >= 1
    ensures EvalR(ConvR(a, b), x)
      == EvalR(ConvR(a[..|a| - 1], b), x) + PowR(x, |a| - 1) * (a[|a| - 1] * EvalR(b, x))
  {
    calc {
      EvalR(ConvR(a, b), x);
    == { EvalConvSplit(a, b, x); }
      EvalR(ConvR(a[..|a| - 1], b), x) + EvalR(Shifted(b, a[|a| - 1], |a| - 1), x);
    == { EvalShifted(b, a[|a| - 1], |a| - 1, x); }
      EvalR(ConvR(a[..|a| - 1], b), x) + PowR(x, |a| - 1) * EvalR(ScaleR(b, a[|a| - 1]), x);
    == { EvalScale(b, a[|a| - 1], x); }
      EvalR(ConvR(a[..|a| - 1], b), x) + PowR(x, |a| - 1) * (a[|a| - 1] * EvalR(b, x));
    }
  }

  /** The value of a is that of its front plus the top term. */
  lemma EvalLast(a: seq<real>, x: real)
    requires |a| >= 1
    ensures EvalR(a, x) == EvalR(a[..|a| - 1], x) + a[|a| - 1] * PowR(x, |a| - 1)
  {
    var n := |a| - 1;
    SumToExt(a, a[..n], x, n);
    assert Coef(a, n) == a[n];
  }

  lemma ConvAlgebra(ec: real, ec': real, ea': real, eb: real, pn: real, t: real, ea: real)
    requires ec == ec' + pn * (t * eb) && ec' == ea' * eb && ea == ea' + t * pn
    ensures ec == ea * eb
  {
    calc {
      ec;
      == ea' * eb + pn * (t * eb);
      == (ea' + t * pn) * eb;
    }
  }

  lemma {:induction false} SumToAtZero(c: seq<real>, n: nat)
    requires 1 <= n
    ensures SumTo(c, 0.0, n) == Coef(c, 0)
  {
    if n > 1 {
      SumToAtZero(c, n - 1);
      assert PowR(0.0, n - 1) == 0.0;
    }
  }

  /** The value at zero is the constant coefficient. */
  lemma EvalAtZero(c: seq<real>)
    requires |c| >= 1
    ensures EvalR(c, 0.0) == c[0]
  {
    SumToAtZero(c, |c|);
  }

  // ---------------------------------------------------------------------------
  // A list of n coefficients is fixed by its values at n distinct points: the
  // factor theorem, through synthetic division by X - a.

  ghost predicate IsZero(c: seq<real>)
  {
    forall i :: 0 <= i < |c| ==> c[i] == 0.0
  }

  /** The quotient of p by X - a, low coefficient first. */
  ghost function Quot(p: seq<real>, a: real): (q: seq<real>)
    ensures |q| == if |p| == 0 then 0 else |p| - 1
    decreases |p|
  {
    if |p| <= 1 then [] else [EvalR(p[1..], a)] + Quot(p[1..], a)
  }

  /** Horner's split: p(x) is p[0] plus x times the rest. */
  lemma EvalFront(p: seq<real>, x: real)
    requires |p| >= 1
    ensures EvalR(p, x) == p[0] + x * EvalR(p[1..], x)
  {
    var r := [0.0] + p[1..];
    EvalShift(p[1..], r, x, 1);
    assert PowR(x, 1) == x;
    EvalSplit(p, [p[0]], r, x);
    assert SumTo([p[0]], x, 1) == SumTo([p[0]], x, 0) + Coef([p[0]], 0) * PowR(x, 0);
  }

  lemma QuotAlgebra(ep: real, p0: real, x: real, a: real, ep': real, q: real, big: real, eq: real, epa: real)
    requires ep == p0 + x * ep' && ep' == (x - a) * q + big
    requires eq == big + x * q && epa == p0 + a * big
    ensures ep == (x - a) * eq + epa
  {
    calc {
      ep;
      == p0 + x * ((x - a) * q) + x * big;
      == p0 + (x - a) * (x * q) + x * big;
      == (x - a) * (big + x * q) + p0 + a * big;
    }
  }

  /** p(x) == (x - a) * q(x) + p(a), q the quotient by X - a. */
  lemma {:induction false} QuotEval(p: seq<real>, a: real, x: real)
    requires |p| >= 1
    ensures EvalR(p, x) == (x - a) * EvalR(Quot(p, a), x) + EvalR(p, a)
    decreases |p|
  {
    EvalFront(p, x);
    EvalFront(p, a);
    if |p| > 1 {
      var p' := p[1..];
      var q', big := Quot(p', a), EvalR(p', a);
      QuotEval(p', a, x);
      var q := Quot(p, a);
      assert q == [big] + q';
      EvalFront(q, x);
      assert q[1..] == q';
      QuotAlgebra(EvalR(p, x), p[0], x, a, EvalR(p', x), EvalR(q', x), big, EvalR(q, x), EvalR(p, a));
    }
  }

  /** A zero quotient and a zero remainder leave only the zero polynomial. */
  lemma {:induction false} QuotZero(p: seq<real>, a: real)
    requires |p| >= 1 && IsZero(Quot(p, a)) && EvalR(p, a) == 0.0
    ensures IsZero(p)
    decreases |p|
  {
    EvalFront(p, a);
    if |p| > 1 {
      var p' := p[1..];
      var q := Quot(p, a);
      assert q == [EvalR(p', a)] + Quot(p', a);
      assert q[0] == EvalR(p', a);
      forall i | 0 <= i < |Quot(p', a)|
        ensures Quot(p', a)[i] == 0.0
      {
        assert Quot(p', a)[i] == q[i + 1];
      }
      QuotZero(p', a);
      forall i | 0 < i < |p|
        ensures p[i] == 0.0
      {
        assert p[i] == p'[i - 1];
      }
    }
  }

  lemma NonzeroFactor(d: real, v: real)
    requires d != 0.0 && d * v == 0.0
    ensures v == 0.0
  {
  }

  /** n coefficients that vanish at n distinct points are all zero. */
  lemma {:induction false} VanishingIsZero(p: seq<real>, xs: seq<real>)
    requires |p| == |xs| && forall i, j :: 0 <= i < j < |xs| ==> xs[i] != xs[j]
    requires forall i :: 0 <= i < |xs| ==> EvalR(p, xs[i]) == 0.0
    ensures IsZero(p)
    decreases |p|
  {
    if |p| > 0 {
      var n := |p| - 1;
      var a, q, ys := xs[n], Quot(p, xs[n]), xs[..n];
      forall i | 0 <= i < n
        ensures EvalR(q, ys[i]) == 0.0
      {
        QuotEval(p, a, xs[i]);
        NonzeroFactor(xs[i] - a, EvalR(q, xs[i]));
      }
      VanishingIsZero(q, ys);
      QuotZero(p, a);
    }
  }

  /** Two lists of n coefficients with the same values at n distinct points
      are the same list. */
  lemma AgreeingPolynomials(a: seq<real>, b: seq<real>, xs: seq<real>)
    requires |a| == |b| == |xs| && forall i, j :: 0 <= i < j < |xs| ==> xs[i] != xs[j]
    requires forall i :: 0 <= i < |xs| ==> EvalR(a, xs[i]) == EvalR(b, xs[i])
    ensures a == b
  {
    var d := AddR(a, ScaleR(b, -1.0));
    forall i | 0 <= i < |xs|
      ensures EvalR(d, xs[i]) == 0.0
    {
      EvalAdd(a, ScaleR(b, -1.0), xs[i]);
      EvalScale(b, -1.0, xs[i]);
    }
    VanishingIsZero(d, xs);
    forall i | 0 <= i < |a|
      ensures a[i] == b[i]
    {
      assert d[i] == a[i] + b[i] * -1.0;
    }
  }
}
