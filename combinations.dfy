/** The next-k-subset enumeration (Main.java:218-229, 308-312): every strictly
    increasing k-tuple over 0..n-1, in lexicographic order, produced by updating
    one index array in place. */
module Combinations {
  import opened Arith

  /** A strictly increasing k-tuple of indices below n. */
  predicate IsCombination(c: seq<int>, n: int, k: int)
  {
    |c| == k
    && (forall q :: 0 <= q < |c| ==> 0 <= c[q] < n)
    && (forall q :: 0 < q < |c| ==> c[q - 1] < c[q])
  }

  /** a and b agree before index i and a is smaller at i. */
  predicate LexLessAt(a: seq<int>, b: seq<int>, i: int)
  {
    0 <= i < |a| && i < |b| && (forall q :: 0 <= q < i ==> a[q] == b[q]) && a[i] < b[i]
  }

  /** Lexicographic order on index tuples. */
  predicate LexLess(a: seq<int>, b: seq<int>)
  {
    exists i :: 0 <= i < |a| && LexLessAt(a, b, i)
  }

  /** The first combination, [0, 1, ..., k-1]. */
  function First(k: nat): (c: seq<int>)
    ensures |c| == k && forall q :: 0 <= q < k ==> c[q] == q
  {
    seq(k, q => q)
  }

  /** The last combination, [n-k, ..., n-1]. */
  function Last(n: int, k: nat): (c: seq<int>)
    ensures |c| == k && forall q :: 0 <= q < k ==> c[q] == q + n - k
  {
    seq(k, q => q + n - k)
  }

  // ---------------------------------------------------------------------------
  // The order.

  lemma LexTransitive(a: seq<int>, b: seq<int>, c: seq<int>)
    requires LexLess(a, b) && LexLess(b, c)
    ensures LexLess(a, c)
  {
    var i :| 0 <= i < |a| && LexLessAt(a, b, i);
    var j :| 0 <= j < |b| && LexLessAt(b, c, j);
    var m := if i < j then i else j;
    assert LexLessAt(a, c, m);
  }

  lemma LexAsymmetric(a: seq<int>, b: seq<int>)
    requires LexLess(a, b)
    ensures !LexLess(b, a)
  {
    var i :| 0 <= i < |a| && LexLessAt(a, b, i);
  }

  /** Two different tuples of the same length are ordered one way or the other. */
  lemma LexTotal(a: seq<int>, b: seq<int>)
    requires |a| == |b| && a != b
    ensures LexLess(a, b) || LexLess(b, a)
  {
    var i := 0;
    while i < |a| && a[i] == b[i]
      invariant 0 <= i <= |a|
      invariant forall q :: 0 <= q < i ==> a[q] == b[q]
    {
      i := i + 1;
    }
    if i < |a| {
      if a[i] < b[i] {
        assert LexLessAt(a, b, i);
      } else {
        assert LexLessAt(b, a, i);
      }
    }
  }

  // ---------------------------------------------------------------------------
  // Combinations.

  /** Entries of a combination grow by at least one per position. */
  lemma {:induction false} Spread(c: seq<int>, n: int, k: int, p: int, q: int)
    requires IsCombination(c, n, k) && 0 <= p <= q < k
    ensures c[q] - c[p] >= q - p
  {
    if p < q {
      Spread(c, n, k, p, q - 1);
    }
  }

  /** Position q of a combination holds a value between q and q + n - k. */
  lemma Bounds(c: seq<int>, n: int, k: int, q: int)
    requires IsCombination(c, n, k) && 0 <= q < k
    ensures q <= c[q] <= q + n - k
  {
    Spread(c, n, k, 0, q);
    Spread(c, n, k, q, k - 1);
  }

  /** No combination comes before First(k). */
  lemma FirstIsLeast(c: seq<int>, n: int, k: nat)
    requires IsCombination(c, n, k)
    ensures !LexLess(c, First(k))
  {
    if LexLess(c, First(k)) {
      var i :| 0 <= i < |c| && LexLessAt(c, First(k), i);
      Bounds(c, n, k, i);
    }
  }

  lemma IsLast(idx: array<int>, n: int)
    requires forall q :: 0 <= q < idx.Length ==> idx[q] == q + n - idx.Length
    ensures idx[..] == Last(n, idx.Length)
  {
  }

  /** Every combination is Last(n, k) or comes before it. */
  lemma LastIsGreatest(c: seq<int>, n: int, k: nat)
    requires IsCombination(c, n, k)
    ensures c == Last(n, k) || LexLess(c, Last(n, k))
  {
    if c != Last(n, k) {
      LexTotal(c, Last(n, k));
      if LexLess(Last(n, k), c) {
        var i :| 0 <= i < k && LexLessAt(Last(n, k), c, i);
        Bounds(c, n, k, i);
      }
    }
  }

  /** The update of the source's loop body: with p the rightmost position below
      its maximum, b adds one at p and fills the positions after p with the
      following values. b is the next combination after a: it is one, it comes
      after a, and no combination lies strictly between them. */
  lemma Successor(a: seq<int>, b: seq<int>, n: int, k: int, p: int)
    requires IsCombination(a, n, k) && 0 <= p < k && a[p] != p + n - k
    requires forall q :: p < q < k ==> a[q] == q + n - k
    requires |b| == k && b[p] == a[p] + 1
    requires forall q :: 0 <= q < p ==> b[q] == a[q]
    requires forall q :: p < q < k ==> b[q] == b[p] + (q - p)
    ensures IsCombination(b, n, k) && LexLess(a, b)
    ensures forall c :: IsCombination(c, n, k) ==> (LexLess(c, b) <==> LexLess(c, a) || c == a)
  {
    Bounds(a, n, k, p);
    if p > 0 {
      assert b[p - 1] == a[p - 1] < a[p];
    }
    assert LexLessAt(a, b, p);
    forall c | IsCombination(c, n, k)
      ensures LexLess(c, b) <==> LexLess(c, a) || c == a
    {
      if LexLess(c, a) {
        LexTransitive(c, a, b);
      } else if c != a {
        LexTotal(c, a);
        NoneBetween(a, b, c, n, k, p);
      }
    }
  }

  /** A combination after a does not come before its successor b. */
  lemma NoneBetween(a: seq<int>, b: seq<int>, c: seq<int>, n: int, k: int, p: int)
    requires IsCombination(a, n, k) && IsCombination(c, n, k) && 0 <= p < k
    requires forall q :: p < q < k ==> a[q] == q + n - k
    requires |b| == k && b[p] == a[p] + 1
    requires forall q :: 0 <= q < p ==> b[q] == a[q]
    requires forall q :: p < q < k ==> b[q] == b[p] + (q - p)
    requires LexLess(a, c)
    ensures !LexLess(c, b)
  {
    var i :| 0 <= i < k && LexLessAt(a, c, i);
    if i > p {
      Bounds(c, n, k, i);
    }
    assert i <= p;
    if LexLess(c, b) {
      var j :| 0 <= j < k && LexLessAt(c, b, j);
      if j > p {
        Spread(c, n, k, p, j);
      }
    }
  }

  // ---------------------------------------------------------------------------
  // Termination: the base-n value of the tuple grows under the order.

  /** The tuple read as a base-n numeral, most significant position first. */
  function Enc(a: seq<int>, n: int): int
  {
    if |a| == 0 then 0 else Enc(a[..|a| - 1], n) * n + a[|a| - 1]
  }

  predicate Digits(a: seq<int>, n: int)
  {
    forall q :: 0 <= q < |a| ==> 0 <= a[q] < n
  }

  lemma {:induction false} EncBound(a: seq<int>, n: int)
    requires Digits(a, n)
    ensures 0 <= Enc(a, n) < Pow(n, |a|)
  {
    if |a| > 0 {
      var a' := a[..|a| - 1];
      assert Digits(a', n);
      EncBound(a', n);
      NumeralStep(Enc(a', n), Pow(n, |a'|), a[|a| - 1], n);
    }
  }

  /** x < y, as numerals of one digit more. */
  lemma NumeralLess(x: int, y: int, d: int, e: int, n: int)
    requires 0 <= x < y && 0 <= d < n && 0 <= e
    ensures x * n + d < y * n + e
  {
    MulAtLeast(n, y - x);
    assert n * (y - x) == y * n - x * n;
  }

  lemma NumeralStep(x: int, p: int, d: int, n: int)
    requires 0 <= x < p && 0 <= d < n
    ensures 0 <= x * n + d < n * p
  {
    NumeralLess(x, p, d, 0, n);
  }

  /** The numeral is monotone in lexicographic order. */
  lemma {:induction false} EncMonotone(a: seq<int>, b: seq<int>, n: int)
    requires |a| == |b| && Digits(a, n) && Digits(b, n) && LexLess(a, b)
    ensures Enc(a, n) < Enc(b, n)
  {
    var i :| 0 <= i < |a| && LexLessAt(a, b, i);
    var L := |a| - 1;
    var a', b' := a[..L], b[..L];
    assert Digits(a', n) && Digits(b', n);
    EncBound(a', n);
    EncBound(b', n);
    if i == L {
      assert a' == b';
    } else {
      assert LexLessAt(a', b', i);
      EncMonotone(a', b', n);
      NumeralLess(Enc(a', n), Enc(b', n), a[L], b[L], n);
    }
  }

  // ---------------------------------------------------------------------------
  // The enumeration.

  /** res lists, in increasing order, exactly the combinations before a. */
  ghost predicate EmittedBefore(res: seq<seq<int>>, a: seq<int>, n: int, k: int)
  {
    (forall m :: 0 <= m < |res| ==> IsCombination(res[m], n, k) && LexLess(res[m], a))
    && (forall x, y :: 0 <= x < y < |res| ==> LexLess(res[x], res[y]))
    && (forall c :: IsCombination(c, n, k) ==> (c in res <==> LexLess(c, a)))
  }

  lemma EmitFirst(n: int, k: nat)
    ensures EmittedBefore([], First(k), n, k)
  {
    forall c | IsCombination(c, n, k)
      ensures !LexLess(c, First(k))
    {
      FirstIsLeast(c, n, k);
    }
  }

  /** Emitting a and moving to its successor b keeps the enumeration exact. */
  lemma EmitStep(res: seq<seq<int>>, a: seq<int>, b: seq<int>, n: int, k: int)
    requires EmittedBefore(res, a, n, k) && IsCombination(a, n, k) && LexLess(a, b)
    requires forall c :: IsCombination(c, n, k) ==> (LexLess(c, b) <==> LexLess(c, a) || c == a)
    ensures EmittedBefore(res + [a], b, n, k)
  {
    var res' := res + [a];
    forall m | 0 <= m < |res'|
      ensures IsCombination(res'[m], n, k) && LexLess(res'[m], b)
    {
      if m < |res| {
        LexTransitive(res[m], a, b);
      }
    }
  }

  /** One round of the enumeration: a is emitted and b, its successor at pivot p,
      is the next combination, with a larger numeral. */
  lemma EmitAdvance(res: seq<seq<int>>, a: seq<int>, b: seq<int>, n: int, k: int, p: int)
    requires EmittedBefore(res, a, n, k)
    requires IsCombination(a, n, k) && 0 <= p < k && a[p] != p + n - k
    requires forall q :: p < q < k ==> a[q] == q + n - k
    requires |b| == k && b[p] == a[p] + 1
    requires forall q :: 0 <= q < p ==> b[q] == a[q]
    requires forall q :: p < q < k ==> b[q] == b[p] + (q - p)
    ensures IsCombination(b, n, k) && EmittedBefore(res + [a], b, n, k)
    ensures 0 <= Enc(a, n) < Enc(b, n) < Pow(n, k)
  {
    Successor(a, b, n, k, p);
    EncMonotone(a, b, n);
    EncBound(a, n);
    EncBound(b, n);
    EmitStep(res, a, b, n, k);
  }

  /** Once a == Last(n, k) is emitted, every combination has been, each once and in order. */
  lemma EmitLast(res: seq<seq<int>>, a: seq<int>, n: int, k: nat)
    requires a == Last(n, k) && EmittedBefore(res, a, n, k) && IsCombination(a, n, k)
    ensures forall m :: 0 <= m < |res + [a]| ==> IsCombination((res + [a])[m], n, k)
    ensures forall x, y :: 0 <= x < y < |res + [a]| ==> LexLess((res + [a])[x], (res + [a])[y])
    ensures forall c :: IsCombination(c, n, k) ==> c in res + [a]
  {
    forall c | IsCombination(c, n, k)
      ensures c in res + [a]
    {
      LastIsGreatest(c, n, k);
    }
  }

  /** The pivot search of combinations (Main.java:222-223): the rightmost
      position p whose entry is below its maximum p + n - k, or -1. */
  method Pivot(idx: array<int>, n: int) returns (p: int)
    ensures -1 <= p < idx.Length
    ensures p >= 0 ==> idx[p] != p + n - idx.Length
    ensures forall q :: p < q < idx.Length ==> idx[q] == q + n - idx.Length
  {
    var k := idx.Length;
    p := k - 1;
    while p >= 0 && idx[p] == p + n - k
      invariant -1 <= p < k
      invariant forall q :: p < q < k ==> idx[q] == q + n - k
    {
      p := p - 1;
    }
  }

  /** The update of combinations (Main.java:225-226): idx[p] goes up by one and
      the entries after it follow consecutively. */
  method Advance(idx: array<int>, p: int)
    requires 0 <= p < idx.Length
    modifies idx
    ensures idx[p] == old(idx[p]) + 1
    ensures forall q :: 0 <= q < p ==> idx[q] == old(idx[q])
    ensures forall q :: p < q < idx.Length ==> idx[q] == idx[p] + (q - p)
  {
    idx[p] := idx[p] + 1;
    for j := p + 1 to idx.Length
      invariant idx[p] == old(idx[p]) + 1
      invariant forall q :: 0 <= q < p ==> idx[q] == old(idx[q])
      invariant forall q :: p < q < j ==> idx[q] == idx[p] + (q - p)
    {
      idx[j] := idx[j - 1] + 1;
    }
  }

  /** combinations(n, k, consumer) with a consumer that collects every emitted
      idx.clone(), as allCombinations does: the result lists every combination
      exactly once, in strictly increasing lexicographic order, from First(k) to
      Last(n, k). */
  method AllCombinations(n: int, k: int) returns (res: seq<seq<int>>)
    requires 0 <= k <= n
    ensures forall m :: 0 <= m < |res| ==> IsCombination(res[m], n, k)
    ensures forall a, b :: 0 <= a < b < |res| ==> LexLess(res[a], res[b])
    ensures forall c :: IsCombination(c, n, k) ==> c in res
    ensures |res| > 0 && res[0] == First(k) && res[|res| - 1] == Last(n, k)
  {
    var idx := new int[k];
    for i := 0 to k
      invariant forall q :: 0 <= q < i ==> idx[q] == q
    {
      idx[i] := i;
    }
    assert idx[..] == First(k);
    EmitFirst(n, k);
    res := [];
    while true
      invariant IsCombination(idx[..], n, k) && EmittedBefore(res, idx[..], n, k)
      invariant if |res| == 0 then idx[..] == First(k) else res[0] == First(k)
      decreases Pow(n, k) - Enc(idx[..], n)
    {
      var a := idx[..];        // combConsumer.accept(idx.clone())
      var p := Pivot(idx, n);
      if p < 0 {
        IsLast(idx, n);
        EmitLast(res, a, n, k);
        res := res + [a];
        break;
      }
      Advance(idx, p);
      EmitAdvance(res, a, idx[..], n, k, p);
      res := res + [a];
    }
  }
}
