/** What the share-value evaluator computes: an expression tree written out
    in the grammar's concrete syntax is read back as the tree's value, a letter
    always starts a call, any other character starts one number token, and
    the hexadecimal-letter quirk. */
module ExpressionFacts {
  import opened Results
  import opened Literals
  import opened Expressions

  // ---------------------------------------------------------------------------
  // The scans stop exactly at the end of their runs.

  lemma {:induction false} SkipWsAt(s: string, p: nat, e: nat)
    requires p <= e <= |s|
    requires forall q :: p <= q < e ==> IsWhitespace(s[q])
    requires e == |s| || !IsWhitespace(s[e])
    ensures SkipWs(s, p) == e
    decreases e - p
  {
    if p < e {
      SkipWsAt(s, p + 1, e);
    }
  }

  lemma {:induction false} IdentEndAt(s: string, p: nat, e: nat)
    requires p <= e <= |s|
    requires forall q :: p <= q < e ==> IsIdentChar(s[q])
    requires e == |s| || !IsIdentChar(s[e])
    ensures IdentEnd(s, p) == e
    decreases e - p
  {
    if p < e {
      IdentEndAt(s, p + 1, e);
    }
  }

  lemma {:induction false} TokenEndAt(s: string, p: nat, e: nat)
    requires p <= e <= |s|
    requires forall q :: p <= q < e ==> IsLetterOrDigit(s[q])
    requires e == |s| || !IsLetterOrDigit(s[e])
    ensures TokenEnd(s, p) == e
    decreases e - p
  {
    if p < e {
      TokenEndAt(s, p + 1, e);
    }
  }

  /** parseNumberToken reads a maximal run of letters and digits. */
  lemma {:induction false} TokenRun(s: string, p: nat)
    requires p <= |s|
    ensures forall q :: p <= q < TokenEnd(s, p) ==> IsLetterOrDigit(s[q])
    ensures TokenEnd(s, p) == |s| || !IsLetterOrDigit(s[TokenEnd(s, p)])
    decreases |s| - p
  {
    if p < |s| && IsLetterOrDigit(s[p]) {
      TokenRun(s, p + 1);
    }
  }

  // ---------------------------------------------------------------------------
  // The two kinds of position.

  /** Any other position reads the maximal letter/digit run there: an empty
      run is NumberExpected, and a run is a number exactly when the radix is
      valid and every character is a digit below it. */
  lemma OtherStartsLiteral(s: string, base: int, p: nat)
    requires p <= |s| && !(SkipWs(s, p) < |s| && IsLetter(s[SkipWs(s, p)]))
    ensures forall q :: SkipWs(s, p) <= q < TokenEnd(s, SkipWs(s, p)) ==> IsLetterOrDigit(s[q])
    ensures TokenEnd(s, SkipWs(s, p)) == |s| || !IsLetterOrDigit(s[TokenEnd(s, SkipWs(s, p))])
    ensures TokenEnd(s, SkipWs(s, p)) == SkipWs(s, p) ==>
              ExprAt(s, base, p).result == Failure(Parse(NumberExpected))
    ensures ExprAt(s, base, p).result.Success? <==>
              var q := SkipWs(s, p);
              q < TokenEnd(s, q) && 2 <= base <= 36 && DigitsIn(s[q..TokenEnd(s, q)], base)
    ensures ExprAt(s, base, p).result.Success? ==>
              ExprAt(s, base, p).result.value == Numeral(s[SkipWs(s, p)..TokenEnd(s, SkipWs(s, p))], base)
  {
    var q := SkipWs(s, p);
    TokenRun(s, q);
    LiteralStart(s, base, p, q, TokenEnd(s, q));
  }

  // ---------------------------------------------------------------------------
  // Expression trees, their concrete syntax and their values.

  datatype Expr = Literal(digits: string) | Call(name: string, args: seq<Expr>)

  /** A tree the grammar can express without the letter quirk: literals start
      with a decimal digit, names with a letter, every call has arguments. */
  predicate WellFormed(e: Expr)
  {
    match e
    case Literal(d) =>
      |d| > 0 && IsDecimal(d[0]) && forall i :: 0 <= i < |d| ==> IsLetterOrDigit(d[i])
    case Call(n, args) =>
      |n| > 0 && IsLetter(n[0]) && (forall i :: 0 <= i < |n| ==> IsIdentChar(n[i]))
      && |args| > 0 && WellFormedArgs(args)
  }

  predicate WellFormedArgs(args: seq<Expr>)
  {
    |args| == 0 || (WellFormed(args[0]) && WellFormedArgs(args[1..]))
  }

  function Print(e: Expr): string
  {
    match e
    case Literal(d) => d
    case Call(n, args) => n + "(" + Join(args) + ")"
  }

  /** The arguments separated by commas. */
  function Join(args: seq<Expr>): string
  {
    if |args| == 0 then ""
    else if |args| == 1 then Print(args[0])
    else Print(args[0]) + "," + Join(args[1..])
  }

  /** The value of a tree: literals in the base, arguments left to right with
      the first failure winning, then the named function. */
  function Eval(e: Expr, base: int): Result<int>
  {
    match e
    case Literal(d) => ParseLiteral(d, base)
    case Call(n, args) =>
      var vs :- EvalArgs(args, base);
      Apply(Upper(n), vs)
  }

  function EvalArgs(args: seq<Expr>, base: int): Result<seq<int>>
  {
    if |args| == 0 then Success([])
    else
      var v :- Eval(args[0], base);
      var vs :- EvalArgs(args[1..], base);
      Success([v] + vs)
  }

  /** name applied to acc followed by the argument values, unless one failed. */
  function Applied(name: string, acc: seq<int>, vs: Result<seq<int>>): Result<int>
  {
    if vs.Failure? then Failure(vs.error) else Apply(name, acc + vs.value)
  }

  /** t occurs in s at position p. */
  predicate At(s: string, p: nat, t: string)
  {
    p + |t| <= |s| && s[p..p + |t|] == t
  }

  /** What may follow an argument: a separator, a closing parenthesis or the end. */
  predicate Follows(s: string, i: nat)
  {
    i == |s| || (i < |s| && (s[i] == ',' || s[i] == ')'))
  }

  lemma AtChar(s: string, p: nat, t: string, i: nat)
    requires At(s, p, t) && i < |t|
    ensures s[p + i] == t[i]
  {
    assert s[p..p + |t|][i] == s[p + i];
  }

  /** t occurs in s at position p, character by character. */
  predicate Chars(s: string, p: nat, t: string)
  {
    p + |t| <= |s| && forall i :: 0 <= i < |t| ==> s[p + i] == t[i]
  }

  lemma AtChars(s: string, p: nat, t: string)
    requires At(s, p, t)
    ensures Chars(s, p, t)
  {
    forall i | 0 <= i < |t|
      ensures s[p + i] == t[i]
    {
      AtChar(s, p, t, i);
    }
  }

  lemma CharsAt(s: string, p: nat, t: string)
    requires Chars(s, p, t)
    ensures At(s, p, t)
  {
    assert forall i :: 0 <= i < |t| ==> s[p..p + |t|][i] == t[i];
  }

  /** Text that occurs at p splits into its two parts, the second at m. */
  lemma AtSplit(s: string, p: nat, a: string, b: string, m: nat)
    requires At(s, p, a + b) && m == p + |a|
    ensures At(s, p, a) && At(s, m, b)
  {
    AtChars(s, p, a + b);
    forall i | 0 <= i < |a|
      ensures s[p + i] == a[i]
    {
      assert (a + b)[i] == a[i];
    }
    forall i | 0 <= i < |b|
      ensures s[m + i] == b[i]
    {
      assert (a + b)[|a| + i] == b[i];
    }
    CharsAt(s, p, a);
    CharsAt(s, m, b);
  }

  /** Identifier characters stay identifier characters where they occur. */
  lemma AtIdentChars(s: string, p: nat, t: string)
    requires At(s, p, t) && forall i :: 0 <= i < |t| ==> IsIdentChar(t[i])
    ensures forall q :: p <= q < p + |t| ==> IsIdentChar(s[q])
  {
    forall q | p <= q < p + |t|
      ensures IsIdentChar(s[q])
    {
      AtChar(s, p, t, q - p);
    }
  }

  /** Letters and digits stay letters and digits where they occur. */
  lemma AtAlnumChars(s: string, p: nat, t: string)
    requires At(s, p, t) && forall i :: 0 <= i < |t| ==> IsLetterOrDigit(t[i])
    ensures forall q :: p <= q < p + |t| ==> IsLetterOrDigit(s[q])
  {
    forall q | p <= q < p + |t|
      ensures IsLetterOrDigit(s[q])
    {
      AtChar(s, p, t, q - p);
    }
  }

  /** Printed trees are not blank at either end, and a printed call starts
      with a letter and ends with ')'. */
  lemma PrintShape(e: Expr)
    requires WellFormed(e)
    ensures |Print(e)| > 0 && IsLetterOrDigit(Print(e)[0]) && Print(e)[|Print(e)| - 1] > ' '
    ensures e.Literal? ==> IsDecimal(Print(e)[0])
    ensures e.Call? ==> IsLetter(Print(e)[0]) && Print(e)[|Print(e)| - 1] == ')'
                        && Print(e)[|e.name|] == '('
  {
    if e.Literal? {
      assert IsLetterOrDigit(e.digits[|e.digits| - 1]);
    }
  }

  /** A printed tree, followed by a separator, ')' or the end, is read back
      as the tree's value, and the cursor lands right behind it. */
  lemma {:induction false} ExprAtPrinted(e: Expr, s: string, base: int, p: nat)
    requires WellFormed(e) && At(s, p, Print(e)) && Follows(s, p + |Print(e)|)
    ensures ExprAt(s, base, p).result == Eval(e, base)
    ensures Eval(e, base).Success? ==> ExprAt(s, base, p).end == p + |Print(e)|
    decreases e, 1
  {
    if e.Literal? {
      LiteralPrinted(e.digits, s, base, p);
    } else {
      CallPrinted(e, s, base, p);
    }
  }

  lemma LiteralPrinted(d: string, s: string, base: int, p: nat)
    requires WellFormed(Literal(d)) && At(s, p, d) && Follows(s, p + |d|)
    ensures ExprAt(s, base, p).result == ParseLiteral(d, base)
    ensures ExprAt(s, base, p).end == p + |d|
  {
    AtChar(s, p, d, 0);
    SkipWsAt(s, p, p);
    AtAlnumChars(s, p, d);
    TokenEndAt(s, p, p + |d|);
    LiteralStart(s, base, p, p, p + |d|);
  }

  /** A printed call is its name, '(' and its arguments followed by ')'. */
  lemma CallShape(e: Expr)
    requires e.Call? && WellFormed(e)
    ensures Print(e) == e.name + ("(" + (Join(e.args) + ")"))
    ensures |e.name| > 0 && IsLetter(e.name[0])
    ensures forall i :: 0 <= i < |e.name| ==> IsIdentChar(e.name[i])
    ensures |e.args| > 0 && WellFormedArgs(e.args)
  {
  }

  /** An identifier followed by '(' at p: the scans stop at q, just before
      the '(', and the rest follows it. */
  lemma NameParen(s: string, p: nat, q: nat, n: string, rest: string)
    requires At(s, p, n + ("(" + rest)) && q == p + |n|
    requires |n| > 0 && IsLetter(n[0]) && forall i :: 0 <= i < |n| ==> IsIdentChar(n[i])
    ensures p < |s| && SkipWs(s, p) == p && IsLetter(s[p])
    ensures IdentEnd(s, p) == q && q < |s| && s[q] == '('
    ensures s[p..q] == n && At(s, q + 1, rest)
  {
    NameParenText(s, p, q, n, rest);
    SkipWsAt(s, p, p);
    AtIdentChars(s, p, n);
    IdentEndAt(s, p, q);
  }

  /** The pieces of a name, '(' and rest standing at p. */
  lemma NameParenText(s: string, p: nat, q: nat, n: string, rest: string)
    requires At(s, p, n + ("(" + rest)) && q == p + |n| && |n| > 0
    ensures At(s, p, n) && At(s, q + 1, rest) && q < |s| && s[q] == '(' && s[p] == n[0]
  {
    AtSplit(s, p, n, "(" + rest, q);
    AtSplit(s, q, "(", rest, q + 1);
    AtChar(s, p, n, 0);
    AtChar(s, q, "(", 0);
  }

  /** Where a printed call sits in the text: its name up to q, the '(' at q
      and its arguments followed by ')' behind it. */
  lemma CallText(e: Expr, s: string, p: nat, q: nat)
    requires e.Call? && WellFormed(e) && At(s, p, Print(e)) && q == p + |e.name|
    ensures p < |s| && SkipWs(s, p) == p && IsLetter(s[p])
    ensures IdentEnd(s, p) == q && q < |s| && s[q] == '('
    ensures s[p..q] == e.name
    ensures At(s, q + 1, Join(e.args) + ")")
    ensures |e.args| > 0 && WellFormedArgs(e.args)
    ensures p + |Print(e)| == q + 1 + |Join(e.args)| + 1
  {
    CallShape(e);
    NameParen(s, p, q, e.name, Join(e.args) + ")");
  }

  lemma {:induction false} CallPrinted(e: Expr, s: string, base: int, p: nat)
    requires e.Call? && WellFormed(e) && At(s, p, Print(e)) && Follows(s, p + |Print(e)|)
    ensures ExprAt(s, base, p).result == Eval(e, base)
    ensures Eval(e, base).Success? ==> ExprAt(s, base, p).end == p + |Print(e)|
    decreases e, 0
  {
    var q := p + |e.name|;
    CallText(e, s, p, q);
    CallStart(s, base, p, p, q);
    ArgsAtPrinted(e.args, s, base, q + 1, Upper(e.name), []);
    CallValue(e, base);
  }

  lemma CallValue(e: Expr, base: int)
    requires e.Call?
    ensures Eval(e, base) == Applied(Upper(e.name), [], EvalArgs(e.args, base))
  {
    if EvalArgs(e.args, base).Success? {
      assert [] + EvalArgs(e.args, base).value == EvalArgs(e.args, base).value;
    }
  }

  /** Printed arguments followed by ')' are the first one, then ')' when it
      is the last, or ',' and the others followed by ')'. */
  lemma JoinCons(args: seq<Expr>)
    requires |args| > 0
    ensures |args| == 1 ==> Join(args) + ")" == Print(args[0]) + ")"
    ensures |args| > 1 ==> Join(args) + ")" == Print(args[0]) + ("," + (Join(args[1..]) + ")"))
  {
    if |args| > 1 {
      Regroup(Print(args[0]), ",", Join(args[1..]), ")");
    }
  }

  lemma Regroup(a: string, b: string, c: string, d: string)
    ensures a + b + c + d == a + (b + (c + d))
  {
  }

  /** The text of printed arguments and ')' splits behind the first one. */
  lemma ArgsPieces(args: seq<Expr>, s: string, p: nat, e: nat)
    requires |args| > 0 && At(s, p, Join(args) + ")") && e == p + |Print(args[0])|
    ensures At(s, p, Print(args[0])) && e < |s|
    ensures |args| == 1 ==> s[e] == ')'
    ensures |args| > 1 ==> s[e] == ',' && At(s, e + 1, Join(args[1..]) + ")")
  {
    JoinCons(args);
    if |args| == 1 {
      LastPiece(s, p, Print(args[0]), e);
    } else {
      NextPiece(s, p, Print(args[0]), Join(args[1..]) + ")", e);
    }
  }

  lemma LastPiece(s: string, p: nat, t: string, e: nat)
    requires At(s, p, t + ")") && e == p + |t|
    ensures At(s, p, t) && e < |s| && s[e] == ')'
  {
    AtSplit(s, p, t, ")", e);
    AtChar(s, e, ")", 0);
  }

  lemma NextPiece(s: string, p: nat, t: string, tail: string, e: nat)
    requires At(s, p, t + ("," + tail)) && e == p + |t|
    ensures At(s, p, t) && e < |s| && s[e] == ',' && At(s, e + 1, tail)
  {
    AtSplit(s, p, t, "," + tail, e);
    AtSplit(s, e, ",", tail, e + 1);
    AtChar(s, e, ",", 0);
  }

  /** Where printed arguments sit in the text: the first one up to e, then
      ')' when it is the last and ',' and the others otherwise. */
  lemma ArgsText(args: seq<Expr>, s: string, p: nat, e: nat)
    requires |args| > 0 && WellFormedArgs(args)
    requires At(s, p, Join(args) + ")") && e == p + |Print(args[0])|
    ensures WellFormed(args[0]) && SkipWs(s, p) == p
    ensures At(s, p, Print(args[0])) && e < |s| && SkipWs(s, e) == e
    ensures |args| == 1 ==> s[e] == ')' && p + |Join(args)| == e
    ensures |args| > 1 ==> s[e] == ',' && At(s, e + 1, Join(args[1..]) + ")")
                           && p + |Join(args)| == e + 1 + |Join(args[1..])|
                           && WellFormedArgs(args[1..])
  {
    ArgsPieces(args, s, p, e);
    PrintShape(args[0]);
    AtChar(s, p, Print(args[0]), 0);
    SkipWsAt(s, p, p);
    SkipWsAt(s, e, e);
  }

  /** The values of arguments are the first value followed by the rest. */
  lemma EvalArgsCons(args: seq<Expr>, base: int)
    requires |args| > 0
    ensures Eval(args[0], base).Failure? ==> EvalArgs(args, base) == Failure(Eval(args[0], base).error)
    ensures Eval(args[0], base).Success? && |args| == 1 ==>
              EvalArgs(args, base) == Success([Eval(args[0], base).value])
    ensures Eval(args[0], base).Success? && |args| > 1 ==>
              EvalArgs(args, base) == Applied2(Eval(args[0], base).value, EvalArgs(args[1..], base))
  {
    if |args| == 1 && Eval(args[0], base).Success? {
      assert EvalArgs(args[1..], base) == Success([]);
      assert [Eval(args[0], base).value] + [] == [Eval(args[0], base).value];
    }
  }

  /** v in front of the values vs, unless they failed. */
  function Applied2(v: int, vs: Result<seq<int>>): Result<seq<int>>
  {
    if vs.Failure? then Failure(vs.error) else Success([v] + vs.value)
  }

  /** Moving v from the values still to come onto the values read. */
  lemma AppliedShift(name: string, acc: seq<int>, v: int, vs: Result<seq<int>>)
    ensures Applied(name, acc, Applied2(v, vs)) == Applied(name, acc + [v], vs)
  {
    if vs.Success? {
      assert acc + ([v] + vs.value) == acc + [v] + vs.value;
    }
  }

  /** One round of the argument loop at a position without leading blanks,
      with the argument's value h ending at e and no blanks behind it. */
  lemma StepFail(s: string, base: int, p: nat, name: string, acc: seq<int>)
    requires p <= |s| && SkipWs(s, p) == p && ExprAt(s, base, p).result.Failure?
    ensures ArgsAt(s, base, p, name, acc).result == ExprAt(s, base, p).result
  {
    ArgsFail(s, base, p, name, acc);
  }

  lemma StepLast(s: string, base: int, p: nat, name: string, acc: seq<int>, v: int, e: nat)
    requires p <= |s| && SkipWs(s, p) == p && ExprAt(s, base, p).result == Success(v)
    requires ExprAt(s, base, p).end == e && SkipWs(s, e) == e && e < |s| && s[e] == ')'
    ensures ArgsAt(s, base, p, name, acc) == Step(Apply(name, acc + [v]), e + 1)
  {
    ArgsClose(s, base, p, name, acc, v, e);
  }

  lemma StepNext(s: string, base: int, p: nat, name: string, acc: seq<int>, v: int, e: nat)
    requires p <= |s| && SkipWs(s, p) == p && ExprAt(s, base, p).result == Success(v)
    requires ExprAt(s, base, p).end == e && SkipWs(s, e) == e && e < |s| && s[e] == ','
    ensures ArgsAt(s, base, p, name, acc) == ArgsAt(s, base, e + 1, name, acc + [v])
  {
    ArgsComma(s, base, p, name, acc, v, e);
  }

  /** Printed arguments followed by ')' are read by the argument loop as
      their values, appended to acc, and apply name. */
  lemma {:induction false} ArgsAtPrinted(args: seq<Expr>, s: string, base: int, p: nat,
                                         name: string, acc: seq<int>)
    requires |args| > 0 && WellFormedArgs(args)
    requires At(s, p, Join(args) + ")")
    ensures ArgsAt(s, base, p, name, acc).result == Applied(name, acc, EvalArgs(args, base))
    ensures EvalArgs(args, base).Success? ==> ArgsAt(s, base, p, name, acc).end == p + |Join(args)| + 1
    decreases args, 3
  {
    var e := p + |Print(args[0])|;
    ArgsText(args, s, p, e);
    ExprAtPrinted(args[0], s, base, p);
    if Eval(args[0], base).Failure? {
      FirstArgFails(args, s, base, p, name, acc);
    } else if |args| == 1 {
      LastArg(args, s, base, p, name, acc, e);
    } else {
      NextArg(args, s, base, p, name, acc, e);
    }
  }

  lemma FirstArgFails(args: seq<Expr>, s: string, base: int, p: nat, name: string, acc: seq<int>)
    requires |args| > 0 && p <= |s| && SkipWs(s, p) == p
    requires ExprAt(s, base, p).result == Eval(args[0], base) && Eval(args[0], base).Failure?
    ensures ArgsAt(s, base, p, name, acc).result == Applied(name, acc, EvalArgs(args, base))
    ensures EvalArgs(args, base).Failure?
  {
    EvalArgsCons(args, base);
    StepFail(s, base, p, name, acc);
  }

  lemma LastArg(args: seq<Expr>, s: string, base: int, p: nat, name: string, acc: seq<int>, e: nat)
    requires |args| == 1 && p <= |s| && SkipWs(s, p) == p
    requires ExprAt(s, base, p).result == Eval(args[0], base) && Eval(args[0], base).Success?
    requires ExprAt(s, base, p).end == e && SkipWs(s, e) == e && e < |s| && s[e] == ')'
    ensures ArgsAt(s, base, p, name, acc).result == Applied(name, acc, EvalArgs(args, base))
    ensures ArgsAt(s, base, p, name, acc).end == e + 1
  {
    var v := Eval(args[0], base).value;
    EvalArgsCons(args, base);
    StepLast(s, base, p, name, acc, v, e);
  }

  lemma {:induction false} NextArg(args: seq<Expr>, s: string, base: int, p: nat,
                                   name: string, acc: seq<int>, e: nat)
    requires |args| > 1 && p <= |s| && SkipWs(s, p) == p
    requires ExprAt(s, base, p).result == Eval(args[0], base) && Eval(args[0], base).Success?
    requires ExprAt(s, base, p).end == e && SkipWs(s, e) == e && e < |s| && s[e] == ','
    requires WellFormedArgs(args[1..]) && At(s, e + 1, Join(args[1..]) + ")")
    ensures ArgsAt(s, base, p, name, acc).result == Applied(name, acc, EvalArgs(args, base))
    ensures EvalArgs(args, base).Success? ==>
              ArgsAt(s, base, p, name, acc).end == e + 1 + |Join(args[1..])| + 1
    decreases args, 2
  {
    var v := Eval(args[0], base).value;
    var rest := args[1..];
    EvalArgsCons(args, base);
    StepNext(s, base, p, name, acc, v, e);
    ArgsAtPrinted(rest, s, base, e + 1, name, acc + [v]);
    AppliedShift(name, acc, v, EvalArgs(rest, base));
  }

  /** parse() reads a printed tree back as the tree's value. */
  lemma ParsePrinted(e: Expr, base: int)
    requires WellFormed(e)
    ensures ParseFrom(Print(e), base, 0) == Eval(e, base)
  {
    var s := Print(e);
    PrintShape(e);
    SkipWsAt(s, 0, 0);
    ExprAtPrinted(e, s, base, 0);
    SkipWsAt(s, |s|, |s|);
  }

  /** Decoding a share value written as a well-formed tree gives the tree's
      value: calls go through the parser, literals are read directly. */
  lemma DecodePrinted(e: Expr, base: int)
    requires WellFormed(e)
    ensures ShareValue(Print(e), base) == Eval(e, base)
  {
    var s := Print(e);
    PrintShape(e);
    TrimKeeps(s);
    TrimKeeps(Trim(s));
    if e.Call? {
      assert LooksLikeFunction(s) by {
        assert s[|e.name|] == '(';
      }
      ParsePrinted(e, base);
    } else {
      assert !LooksLikeFunction(s);
    }
  }
}
