/** The consensus step of main (Main.java:265-301). Every k-subset of the
    shares votes for the f(0) of the polynomial through it; the value with the
    most votes wins; the first subset, in lexicographic order, that votes for
    it gives the polynomial, whose constant coefficient is the secret and
    against which every share is checked. */
module Consensus {
  import opened Results
  import opened Rational
  import opened Polynomial
  import opened Lagrange
  import opened Combinations

  // ---------------------------------------------------------------------------
  // Subsets and their votes.

  /** Every entry of c is an index into a list of n points. */
  predicate Addresses(c: seq<int>, n: int)
  {
    forall q :: 0 <= q < |c| ==> 0 <= c[q] < n
  }

  predicate AllAddress(combos: seq<seq<int>>, n: int)
  {
    forall m :: 0 <= m < |combos| ==> Addresses(combos[m], n)
  }

  /** The subset an index tuple selects: all.get(id) for each id in turn. */
  function Select(all: seq<Point>, c: seq<int>): (s: seq<Point>)
    requires Addresses(c, |all|)
    ensures |s| == |c|
  {
    seq(|c|, q requires 0 <= q < |c| => all[c[q]])
  }

  /** No subset the tally interpolates has two points with the same x. */
  ghost predicate AllDistinct(all: seq<Point>, combos: seq<seq<int>>)
    requires AllAddress(combos, |all|)
  {
    forall m :: 0 <= m < |combos| ==> DistinctX(Select(all, combos[m]))
  }

  /** The f(0) the subset selected by c votes for. */
  ghost function Vote(all: seq<Point>, c: seq<int>): real
    requires Addresses(c, |all|) && DistinctX(Select(all, c))
  {
    LagrangeAt(Select(all, c), 0.0)
  }

  /** How many of the tuples vote for v. */
  ghost function Votes(all: seq<Point>, combos: seq<seq<int>>, v: real): nat
    requires AllAddress(combos, |all|) && AllDistinct(all, combos)
  {
    if |combos| == 0 then 0
    else
      var init := combos[..|combos| - 1];
      assert forall m :: 0 <= m < |init| ==> init[m] == combos[m];
      Votes(all, init, v) + (if Vote(all, combos[|combos| - 1]) == v then 1 else 0)
  }

  /** A value has a vote exactly when some tuple votes for it. */
  lemma {:induction false} VotesPositive(all: seq<Point>, combos: seq<seq<int>>, v: real)
    requires AllAddress(combos, |all|) && AllDistinct(all, combos)
    ensures Votes(all, combos, v) > 0 <==> exists m :: 0 <= m < |combos| && Vote(all, combos[m]) == v
  {
    if |combos| > 0 {
      var init := combos[..|combos| - 1];
      assert forall m :: 0 <= m < |init| ==> init[m] == combos[m];
      VotesPositive(all, init, v);
      if Votes(all, init, v) > 0 {
        var m :| 0 <= m < |init| && Vote(all, init[m]) == v;
        assert Vote(all, combos[m]) == v;
      }
    }
  }

  /** One more tuple adds its own vote and nothing else. */
  lemma VotesSnoc(all: seq<Point>, combos: seq<seq<int>>, i: nat, v: real)
    requires i < |combos| && AllAddress(combos, |all|) && AllDistinct(all, combos[..i + 1])
    ensures AllAddress(combos[..i], |all|) && AllDistinct(all, combos[..i])
    ensures Votes(all, combos[..i + 1], v) ==
            Votes(all, combos[..i], v) + (if Vote(all, combos[i]) == v then 1 else 0)
  {
    assert combos[..i + 1][..i] == combos[..i];
    assert forall m :: 0 <= m < i ==> combos[..i][m] == combos[..i + 1][m];
  }

  // ---------------------------------------------------------------------------
  // The tally: freq.merge(f0, 1, Integer::sum) for every combination.

  /** The map the tally builds: each key a canonical fraction with its number
      of votes, and every vote cast under some key. */
  ghost predicate Tallies(all: seq<Point>, combos: seq<seq<int>>, freq: map<Frac, nat>)
    requires AllAddress(combos, |all|) && AllDistinct(all, combos)
  {
    (forall f :: f in freq ==> f.Valid() && freq[f] == Votes(all, combos, f.Value()) && freq[f] > 0)
    && (forall m :: 0 <= m < |combos| ==> exists f :: f in freq && f.Value() == Vote(all, combos[m]))
  }

  /** The tally loop of Main.java:265-271: it fails with the first subset
      whose x values repeat, and otherwise counts the votes of every value. */
  method Tally(all: seq<Point>, combos: seq<seq<int>>) returns (r: Result<map<Frac, nat>>)
    requires AllAddress(combos, |all|)
    ensures r.Failure? <==> !AllDistinct(all, combos)
    ensures r.Failure? ==> r.error == DivisionByZero
    ensures r.Success? ==> Tallies(all, combos, r.value)
  {
    var freq: map<Frac, nat> := map[];
    for i := 0 to |combos|
      invariant AllAddress(combos[..i], |all|) && AllDistinct(all, combos[..i])
      invariant Tallies(all, combos[..i], freq)
    {
      var f0 := F0FromSubset(Select(all, combos[i]));
      if f0.Failure? {
        assert !DistinctX(Select(all, combos[i]));
        return Failure(f0.error);
      }
      var f := f0.value;
      ghost var old_freq := freq;
      freq := freq[f := if f in freq then freq[f] + 1 else 1];
      assert AllAddress(combos[..i + 1], |all|);
      assert forall m :: 0 <= m < i ==> combos[..i + 1][m] == combos[..i][m];
      assert combos[..i + 1][i] == combos[i];
      TallyStep(all, combos, i, old_freq, f, freq);
    }
    assert combos[..|combos|] == combos;
    r := Success(freq);
  }

  lemma TallyStep(all: seq<Point>, combos: seq<seq<int>>, i: nat,
                  freq: map<Frac, nat>, f: Frac, freq': map<Frac, nat>)
    requires i < |combos| && AllAddress(combos, |all|) && AllDistinct(all, combos[..i + 1])
    requires AllAddress(combos[..i], |all|) && AllDistinct(all, combos[..i])
    requires Tallies(all, combos[..i], freq)
    requires f.Valid() && f.Value() == Vote(all, combos[i])
    requires freq' == freq[f := if f in freq then freq[f] + 1 else 1]
    ensures Tallies(all, combos[..i + 1], freq')
  {
    var v := f.Value();
    forall g | g in freq'
      ensures g.Valid() && freq'[g] == Votes(all, combos[..i + 1], g.Value()) && freq'[g] > 0
    {
      VotesSnoc(all, combos, i, g.Value());
      if g == f {
        if f !in freq {
          VotesPositive(all, combos[..i], v);
          if Votes(all, combos[..i], v) > 0 {
            var m :| 0 <= m < i && Vote(all, combos[..i][m]) == v;
            var h :| h in freq && h.Value() == Vote(all, combos[..i][m]);
            SameValueSameFrac(h, f);
          }
        }
      } else {
        SameValueSameFrac(g, f);
      }
    }
    var pre := combos[..i + 1];
    forall m | 0 <= m < |pre|
      ensures exists g :: g in freq' && g.Value() == Vote(all, pre[m])
    {
      if m < i {
        assert pre[m] == combos[..i][m];
        var g :| g in freq && g.Value() == Vote(all, combos[..i][m]);
        assert g in freq';
      } else {
        assert f in freq';
      }
    }
  }

  // ---------------------------------------------------------------------------
  // The winner: the first entry with a strictly larger count.

  /** The loop of Main.java:273-277 over the entries of the tally. The order
      in which a HashMap yields its entries is not specified; the model picks
      each next key arbitrarily, so among equal counts any key may win. */
  method PickBest(freq: map<Frac, nat>) returns (r: Result<Frac>)
    ensures r.Failure? <==> freq == map[]
    ensures r.Failure? ==> r.error == NoConsensus
    ensures r.Success? ==> r.value in freq && forall g :: g in freq ==> freq[g] <= freq[r.value]
  {
    var found := false;
    var best := Of(0);
    var bestCount: int := -1;
    var rest := freq.Keys;
    while rest != {}
      invariant rest <= freq.Keys
      invariant found <==> rest != freq.Keys
      invariant found ==> best in freq && bestCount == freq[best]
      invariant !found ==> bestCount == -1
      invariant forall g :: g in freq && g !in rest ==> freq[g] <= bestCount
      decreases |rest|
    {
      var f :| f in rest;
      if freq[f] > bestCount {
        best, bestCount, found := f, freq[f], true;
      }
      rest := rest - {f};
    }
    if !found {
      assert freq.Keys == {};
      return Failure(NoConsensus);
    }
    r := Success(best);
  }

  /** The tuple at m votes for v and no earlier one does. */
  ghost predicate FirstVote(all: seq<Point>, combos: seq<seq<int>>, v: real, m: int)
    requires AllAddress(combos, |all|) && AllDistinct(all, combos)
  {
    0 <= m < |combos| && Vote(all, combos[m]) == v
    && forall m' :: 0 <= m' < m ==> Vote(all, combos[m']) != v
  }

  /** The witness loop of Main.java:280-290: the first subset whose f0 equals
      best. (A subset with repeated x values cannot occur here: the tally has
      already interpolated every one of them.) */
  method FindWitness(all: seq<Point>, combos: seq<seq<int>>, best: Frac)
    returns (r: Result<seq<Point>>, ghost w: int)
    requires AllAddress(combos, |all|) && AllDistinct(all, combos) && best.Valid()
    ensures r.Failure? <==> forall m :: 0 <= m < |combos| ==> Vote(all, combos[m]) != best.Value()
    ensures r.Failure? ==> r.error == NoWitness
    ensures r.Success? ==> FirstVote(all, combos, best.Value(), w) && r.value == Select(all, combos[w])
  {
    var i := 0;
    while i < |combos|
      invariant 0 <= i <= |combos|
      invariant forall m' :: 0 <= m' < i ==> Vote(all, combos[m']) != best.Value()
    {
      var subset := Select(all, combos[i]);
      var f0 := F0FromSubset(subset);
      if Equals(f0.value, best) {
        return Success(subset), i;
      }
      i := i + 1;
    }
    w := i;
    r := Failure(NoWitness);
  }

  // ---------------------------------------------------------------------------
  // The wrong shares.

  /** One entry of the wrong list: the share's x, the value the polynomial
      gives there and the y the share claims. */
  datatype WrongShare = WrongShare(x: int, expected: int, got: int)

  ghost predicate Whole(v: real)
  {
    v == v.Floor as real
  }

  /** The polynomial c has a whole value at the x of every point. */
  ghost predicate WholeAt(all: seq<Point>, c: seq<real>)
  {
    forall i :: 0 <= i < |all| ==> Whole(EvalR(c, all[i].x as real))
  }

  ghost function Mismatch(p: Point, c: seq<real>): seq<WrongShare>
  {
    var v := EvalR(c, p.x as real);
    if v != p.y as real then [WrongShare(p.x, v.Floor, p.y)] else []
  }

  /** The points c does not pass through, in the order of all. */
  ghost function Mismatches(all: seq<Point>, c: seq<real>): seq<WrongShare>
  {
    if |all| == 0 then [] else Mismatches(all[..|all| - 1], c) + Mismatch(all[|all| - 1], c)
  }

  /** The check of Main.java:295-301. A value that is not whole makes the
      message's toBigIntegerExact throw, so it aborts instead of being listed. */
  method Classify(all: seq<Point>, coeff: seq<Frac>) returns (r: Result<seq<WrongShare>>)
    requires AllValid(coeff)
    ensures r.Failure? <==> !WholeAt(all, Values(coeff))
    ensures r.Failure? ==> r.error == NonIntegerValue
    ensures r.Success? ==> r.value == Mismatches(all, Values(coeff))
  {
    ghost var c := Values(coeff);
    var wrong := [];
    for i := 0 to |all|
      invariant forall j :: 0 <= j < i ==> Whole(EvalR(c, all[j].x as real))
      invariant wrong == Mismatches(all[..i], c)
    {
      var p := all[i];
      var val := PolyEval(coeff, p.x);
      var e := ToIntExact(val);
      if e.Failure? {
        return Failure(e.error);
      }
      MismatchesSnoc(all, i, c);
      if e.value != p.y {
        wrong := wrong + [WrongShare(p.x, e.value, p.y)];
      }
    }
    assert all[..|all|] == all;
    r := Success(wrong);
  }

  lemma MismatchesSnoc(all: seq<Point>, i: nat, c: seq<real>)
    requires i < |all|
    ensures Mismatches(all[..i + 1], c) == Mismatches(all[..i], c) + Mismatch(all[i], c)
  {
    assert all[..i + 1][..i] == all[..i];
  }

  /** The listing keeps the order of the points: it distributes over concatenation. */
  lemma {:induction false} MismatchesAppend(a: seq<Point>, b: seq<Point>, c: seq<real>)
    ensures Mismatches(a + b, c) == Mismatches(a, c) + Mismatches(b, c)
    decreases |b|
  {
    if |b| == 0 {
      assert a + b == a;
    } else {
      var b' := b[..|b| - 1];
      assert (a + b)[..|a + b| - 1] == a + b';
      assert (a + b)[|a + b| - 1] == b[|b| - 1];
      MismatchesAppend(a, b', c);
    }
  }

  /** e reports the point at i: c misses it, and e carries its x, its share
      value and the floor of c's value there. */
  ghost predicate Reports(all: seq<Point>, c: seq<real>, e: WrongShare, i: int)
  {
    0 <= i < |all| && all[i].x == e.x && all[i].y == e.got
    && EvalR(c, e.x as real) != e.got as real
    && e.expected == EvalR(c, e.x as real).Floor
  }

  /** A point is listed exactly when the polynomial misses it, and then with
      the polynomial's value there. */
  lemma {:induction false} MismatchesMember(all: seq<Point>, c: seq<real>, e: WrongShare)
    ensures e in Mismatches(all, c) <==> exists i :: Reports(all, c, e, i)
  {
    if |all| > 0 {
      var init, last := all[..|all| - 1], all[|all| - 1];
      MismatchesMember(init, c, e);
      assert Mismatches(all, c) == Mismatches(init, c) + Mismatch(last, c);
      if e in Mismatches(all, c) {
        if e in Mismatches(init, c) {
          var i :| Reports(init, c, e, i);
          assert Reports(all, c, e, i);
        } else {
          assert Reports(all, c, e, |all| - 1);
        }
      }
      if exists i :: Reports(all, c, e, i) {
        var i :| Reports(all, c, e, i);
        if i < |all| - 1 {
          assert Reports(init, c, e, i);
        } else {
          assert e in Mismatch(last, c);
        }
      }
    }
  }

  /** No share of the winning subset is ever listed: the polynomial through
      it passes through each of its points. */
  lemma WinnerAgrees(all: seq<Point>, c: seq<int>, poly: seq<real>, q: int)
    requires Addresses(c, |all|) && DistinctX(Select(all, c)) && 0 <= q < |c|
    requires forall X: real :: EvalR(poly, X) == LagrangeAt(Select(all, c), X)
    ensures Mismatch(all[c[q]], poly) == []
  {
    Interpolates(Select(all, c), q);
  }

  // ---------------------------------------------------------------------------
  // The whole of main after the shares are read.

  /** The result main prints. */
  datatype Outcome = Outcome(secret: int, wrong: seq<WrongShare>)

  /** combos lists every k-combination of 0..n-1 once, in increasing order. */
  ghost predicate Enumerates(combos: seq<seq<int>>, n: int, k: int)
  {
    (forall m :: 0 <= m < |combos| ==> IsCombination(combos[m], n, k))
    && (forall a, b :: 0 <= a < b < |combos| ==> LexLess(combos[a], combos[b]))
    && (forall c :: IsCombination(c, n, k) ==> c in combos)
  }

  /** No value gets more votes than the one of the tuple at w. */
  ghost predicate MostVoted(all: seq<Point>, combos: seq<seq<int>>, w: int)
    requires AllAddress(combos, |all|) && AllDistinct(all, combos) && 0 <= w < |combos|
  {
    forall m :: 0 <= m < |combos| ==>
      Votes(all, combos, Vote(all, combos[m])) <= Votes(all, combos, Vote(all, combos[w]))
  }

  /** A combination addresses the points it is drawn from. */
  lemma EnumeratesAddresses(combos: seq<seq<int>>, n: int, k: int)
    requires Enumerates(combos, n, k)
    ensures AllAddress(combos, n)
  {
    forall m | 0 <= m < |combos| ensures Addresses(combos[m], n) {
      assert IsCombination(combos[m], n, k);
    }
  }

  /** Shares with pairwise different x make every subset interpolable, so
      the tally cannot fail on them. */
  lemma DistinctSharesDistinctSubsets(all: seq<Point>, combos: seq<seq<int>>, k: int)
    requires DistinctX(all) && Enumerates(combos, |all|, k)
    ensures AllAddress(combos, |all|) && AllDistinct(all, combos)
  {
    EnumeratesAddresses(combos, |all|, k);
    forall m | 0 <= m < |combos| ensures DistinctX(Select(all, combos[m])) {
      var c := combos[m];
      assert IsCombination(c, |all|, k);
      forall i, j | 0 <= i < j < |c| ensures Select(all, c)[i].x != Select(all, c)[j].x {
        Spread(c, |all|, k, i, j);
      }
    }
  }

  /** A k-combination through i < j: the a indices just below i, i and the
      b just above it, then j and the r just above it. */
  function Through(i: int, j: int, k: int): (c: seq<int>)
    requires 0 <= i < j && k >= 2
  {
    var a := if i < k - 2 then i else k - 2;
    var b := if j - i - 1 < k - 2 - a then j - i - 1 else k - 2 - a;
    var r := k - 2 - a - b;
    seq(a + b + 1, q => i - a + q) + seq(r + 1, q => j + q)
  }

  lemma ThroughIsCombination(i: int, j: int, n: int, k: int)
    requires 0 <= i < j < n && 2 <= k <= n
    ensures IsCombination(Through(i, j, k), n, k)
    ensures exists p, p' :: 0 <= p < p' < k && Through(i, j, k)[p] == i && Through(i, j, k)[p'] == j
  {
    var a := if i < k - 2 then i else k - 2;
    var b := if j - i - 1 < k - 2 - a then j - i - 1 else k - 2 - a;
    var c := Through(i, j, k);
    assert c[a] == i && c[a + b + 1] == j;
  }

  /** With subsets of two or more, two shares with the same x always meet in
      some subset, so the tally fails. */
  lemma DuplicateSharesFail(all: seq<Point>, combos: seq<seq<int>>, k: int, i: int, j: int)
    requires Enumerates(combos, |all|, k) && 2 <= k <= |all|
    requires 0 <= i < j < |all| && all[i].x == all[j].x
    ensures AllAddress(combos, |all|) && !AllDistinct(all, combos)
  {
    EnumeratesAddresses(combos, |all|, k);
    var c := Through(i, j, k);
    ThroughIsCombination(i, j, |all|, k);
    var m :| 0 <= m < |combos| && combos[m] == c;
    var p, p' :| 0 <= p < p' < k && c[p] == i && c[p'] == j;
    assert Select(all, c)[p].x == Select(all, c)[p'].x;
  }

  /** The witness comes first in lexicographic order among all combinations
      that vote for the winning value. */
  lemma WitnessIsLexFirst(all: seq<Point>, combos: seq<seq<int>>, k: int, v: real, w: int, c: seq<int>)
    requires Enumerates(combos, |all|, k) && AllAddress(combos, |all|) && AllDistinct(all, combos)
    requires FirstVote(all, combos, v, w)
    requires IsCombination(c, |all|, k) && Addresses(c, |all|) && DistinctX(Select(all, c))
    requires Vote(all, c) == v
    ensures combos[w] == c || LexLess(combos[w], c)
  {
    var m :| 0 <= m < |combos| && combos[m] == c;
    assert m >= w;
  }

  /** Main.java:265-301 on the parsed points: the tally, the winner, its first
      witness, the polynomial through it, the secret and the wrong shares.
      combos, w and poly name the enumeration, the witness's position in it and
      the values of the polynomial the program builds. */
  method Reconstruct(all: seq<Point>, k: int)
    returns (r: Result<Outcome>, ghost combos: seq<seq<int>>, ghost w: int, ghost poly: seq<real>)
    ensures k < 0 ==> r == Failure(NegativeArraySize)
    ensures k == 0 || k > |all| ==> r == Failure(IndexOutOfBounds)
    ensures 0 < k <= |all| ==>
              Enumerates(combos, |all|, k) && AllAddress(combos, |all|) &&
              (r == Failure(DivisionByZero) <==> !AllDistinct(all, combos))
    ensures 0 < k <= |all| && AllAddress(combos, |all|) && AllDistinct(all, combos) ==>
              0 <= w < |combos| && MostVoted(all, combos, w) &&
              FirstVote(all, combos, Vote(all, combos[w]), w) &&
              (forall X: real :: EvalR(poly, X) == LagrangeAt(Select(all, combos[w]), X)) &&
              (r.Success? <==> Whole(Vote(all, combos[w])) && WholeAt(all, poly)) &&
              (r.Failure? ==> r.error == NonIntegerValue) &&
              (r.Success? ==> r.value.secret as real == Vote(all, combos[w]) &&
                              r.value.wrong == Mismatches(all, poly))
    ensures r.Failure? ==> r.error != NoConsensus && r.error != NoWitness
  {
    combos, w, poly := [], 0, [];
    if k < 0 {
      // new int[k] in combinations
      return Failure(NegativeArraySize), combos, w, poly;
    }
    if k > |all| {
      // all.get(id) on the first combination [0, ..., k-1]
      return Failure(IndexOutOfBounds), combos, w, poly;
    }
    var list := AllCombinations(|all|, k);
    combos := list;
    EnumeratesAddresses(list, |all|, k);
    var tally := Tally(all, list);
    if tally.Failure? {
      return Failure(tally.error), combos, w, poly;
    }
    var freq := tally.value;
    assert IsCombination(First(k), |all|, k);
    assert Vote(all, combos[0]) == Vote(all, combos[0]);
    var best := PickBest(freq);
    var f := best.value;
    VotesPositive(all, combos, f.Value());
    var winner;
    winner, w := FindWitness(all, list, f);
    forall m | 0 <= m < |combos|
      ensures Votes(all, combos, Vote(all, combos[m])) <= Votes(all, combos, Vote(all, combos[w]))
    {
      var g :| g in freq && g.Value() == Vote(all, combos[m]);
    }
    var coeff := PolyFromSubset(winner.value);
    poly := Values(coeff.value);
    if |coeff.value| == 0 {
      // coeff.get(0)
      return Failure(IndexOutOfBounds), combos, w, poly;
    }
    EvalAtZero(poly);
    var secret := ToIntExact(coeff.value[0]);
    if secret.Failure? {
      return Failure(secret.error), combos, w, poly;
    }
    var wrong := Classify(all, coeff.value);
    if wrong.Failure? {
      return Failure(wrong.error), combos, w, poly;
    }
    r := Success(Outcome(secret.value, wrong.value));
  }
}
