/** The evaluator for share values (Main.java:58-137): a recursive-descent
    parser over a trimmed string with a mutable cursor, for the grammar
      expr ::= IDENT '(' expr (',' expr)* ')' | alnum-run
    where a run is a number in the share's base and IDENT names ADD, SUB, MUL
    or DIV with exactly two arguments. */
module Expressions {
  import opened Results
  import opened Arith
  import opened Literals

  // ---------------------------------------------------------------------------
  // Cursor scans: skip, the identifier loop and the number-token loop.

  /** skip(): the end of the whitespace run starting at p. */
  function SkipWs(s: string, p: nat): (r: nat)
    requires p <= |s|
    ensures p <= r <= |s|
    ensures r == |s| || !IsWhitespace(s[r])
    decreases |s| - p
  {
    if p < |s| && IsWhitespace(s[p]) then SkipWs(s, p + 1) else p
  }

  /** The end of the identifier run (letters, digits, '_') starting at p. */
  function IdentEnd(s: string, p: nat): (r: nat)
    requires p <= |s|
    ensures p <= r <= |s|
    ensures r == |s| || !IsIdentChar(s[r])
    decreases |s| - p
  {
    if p < |s| && IsIdentChar(s[p]) then IdentEnd(s, p + 1) else p
  }

  /** The end of the number-token run (letters and digits) starting at p. */
  function TokenEnd(s: string, p: nat): (r: nat)
    requires p <= |s|
    ensures p <= r <= |s|
    ensures r == |s| || !IsLetterOrDigit(s[r])
    decreases |s| - p
  {
    if p < |s| && IsLetterOrDigit(s[p]) then TokenEnd(s, p + 1) else p
  }

  // ---------------------------------------------------------------------------
  // apply (Main.java:99-117).

  /** BigInteger.divide: the quotient truncated toward zero. Its magnitude is
      |a| / |b| rounded down, and it is negative exactly when the signs of a
      and b differ. */
  function TruncDiv(a: int, b: int): (q: int)
    requires b != 0
    ensures Abs(b) * Abs(q) <= Abs(a) < Abs(b) * (Abs(q) + 1)
    ensures q != 0 ==> (q < 0 <==> (a < 0) != (b < 0))
  {
    var q := Abs(a) / Abs(b);
    DivisionBounds(Abs(a), Abs(b));
    if (a < 0) != (b < 0) then -q else q
  }

  lemma DivisionBounds(n: int, d: int)
    requires n >= 0 && d > 0
    ensures 0 <= n / d && d * (n / d) <= n < d * (n / d + 1)
  {
    var q := n / d;
    assert n == d * q + n % d;
    assert d * (q + 1) == d * q + d;
  }

  /** The remainder of divideAndRemainder: smaller than b in magnitude, and
      with the sign of a. */
  function TruncRem(a: int, b: int): (r: int)
    requires b != 0
    ensures Abs(r) < Abs(b)
    ensures r != 0 ==> (r < 0 <==> a < 0)
  {
    DivisionBounds(Abs(a), Abs(b));
    SignedProduct(a, b, Abs(a), Abs(b), Abs(a) / Abs(b), TruncDiv(a, b));
    a - b * TruncDiv(a, b)
  }

  /** The truncated remainder is the remainder of |a| by |b|, with the sign of a. */
  lemma TruncRemIs(a: int, b: int)
    requires b != 0
    ensures TruncRem(a, b) == if a < 0 then -(Abs(a) % Abs(b)) else Abs(a) % Abs(b)
  {
    var A: int, B: int := Abs(a), Abs(b);
    var q: int, r: int := A / B, A % B;
    assert A == B * q + r;
    var t := TruncDiv(a, b);
    assert t == (if (a < 0) != (b < 0) then -q else q);
    SignedProduct(a, b, A, B, q, t);
  }

  /** b * t is B * q with the sign of a, whatever the signs of a and b. */
  lemma SignedProduct(a: int, b: int, A: int, B: int, q: int, t: int)
    requires A == Abs(a) && B == Abs(b) && b != 0
    requires t == if (a < 0) != (b < 0) then -q else q
    ensures b * t == if a < 0 then -(B * q) else B * q
  {
    if b < 0 {
      assert b == -B;
      assert b * t == -(B * t);
    } else {
      assert b == B;
    }
  }

  /** A remainder of zero does not depend on the sign of the dividend. */
  lemma ModAbs(a: int, d: int)
    requires d > 0
    ensures a % d == 0 <==> Abs(a) % d == 0
  {
    if a < 0 {
      if a % d == 0 {
        NegMod(a, d);
      }
      if (-a) % d == 0 {
        NegMod(-a, d);
      }
    }
  }

  /** The truncated remainder vanishes exactly when b divides a, and then the
      quotient times b is a. */
  lemma ExactDivision(a: int, b: int)
    requires b != 0
    ensures TruncRem(a, b) == 0 <==> Divides(Abs(b), a)
    ensures TruncRem(a, b) == 0 ==> TruncDiv(a, b) * b == a
  {
    TruncRemIs(a, b);
    ModAbs(a, Abs(b));
  }

  /** The four functions of a share expression. */
  predicate IsOperator(name: string)
  {
    name == "ADD" || name == "SUB" || name == "MUL" || name == "DIV"
  }

  /** apply: only the four functions on two arguments succeed, and a DIV that
      succeeds is exact. */
  function Apply(name: string, a: seq<int>): (r: Result<int>)
    ensures r.Success? ==> IsOperator(name) && |a| == 2
    ensures r.Success? && name == "DIV" && |a| == 2 ==> a[1] != 0 && r.value * a[1] == a[0]
  {
    if !IsOperator(name) then Failure(Parse(UnknownFunction(name)))
    else if |a| != 2 then Failure(Parse(WrongArity(name)))
    else if name == "ADD" then Success(a[0] + a[1])
    else if name == "SUB" then Success(a[0] - a[1])
    else if name == "MUL" then Success(a[0] * a[1])
    else if a[1] == 0 then Failure(DivisionByZero)
    else if TruncRem(a[0], a[1]) != 0 then Failure(NonExactDivision)
    else
      ExactDivision(a[0], a[1]);
      Success(TruncDiv(a[0], a[1]))
  }

  /** Names other than the four fail whatever the arguments; the four need
      exactly two; DIV fails on a zero divisor and on a nonzero remainder,
      and otherwise its quotient times the divisor is the dividend. */
  lemma ApplyMeaning(name: string, a: seq<int>)
    ensures !IsOperator(name) ==> Apply(name, a) == Failure(Parse(UnknownFunction(name)))
    ensures IsOperator(name) && |a| != 2 ==> Apply(name, a) == Failure(Parse(WrongArity(name)))
    ensures |a| == 2 && name == "ADD" ==> Apply(name, a) == Success(a[0] + a[1])
    ensures |a| == 2 && name == "SUB" ==> Apply(name, a) == Success(a[0] - a[1])
    ensures |a| == 2 && name == "MUL" ==> Apply(name, a) == Success(a[0] * a[1])
    ensures |a| == 2 && name == "DIV" && a[1] == 0 ==> Apply(name, a) == Failure(DivisionByZero)
    ensures |a| == 2 && name == "DIV" && a[1] != 0 ==>
              (Apply(name, a).Success? <==> Divides(Abs(a[1]), a[0])) &&
              (Apply(name, a).Failure? ==> Apply(name, a).error == NonExactDivision) &&
              (Apply(name, a).Success? ==> Apply(name, a).value * a[1] == a[0])
  {
    if |a| == 2 && a[1] != 0 {
      ExactDivision(a[0], a[1]);
    }
  }

  // ---------------------------------------------------------------------------
  // The grammar as functions threading the cursor.

  /** The outcome of parsing from a position: a value or a failure, and the
      cursor afterwards. */
  datatype Step = Step(result: Result<int>, end: nat)

  /** parseExpr at cursor p. */
  function ExprAt(s: string, base: int, p: nat): (r: Step)
    requires p <= |s|
    ensures p <= r.end <= |s|
    decreases |s| - p, 1
  {
    var q := SkipWs(s, p);
    if q < |s| && IsLetter(s[q]) then
      var e := IdentEnd(s, q);
      if e < |s| && s[e] == '(' then ArgsAt(s, base, e + 1, Upper(s[q..e]), [])
      else Step(Failure(Parse(Expected('('))), e)
    else
      var e := TokenEnd(s, q);
      if e == q then Step(Failure(Parse(NumberExpected)), q)
      else Step(ParseLiteral(s[q..e], base), e)
  }

  /** The do-while argument loop of parseExpr at cursor p, with the values
      acc already read, followed by expect(')') and apply. */
  function ArgsAt(s: string, base: int, p: nat, name: string, acc: seq<int>): (r: Step)
    requires p <= |s|
    ensures p <= r.end <= |s|
    decreases |s| - p, 2
  {
    var arg := ExprAt(s, base, SkipWs(s, p));
    if arg.result.Failure? then arg
    else
      var e := SkipWs(s, arg.end);
      var vals := acc + [arg.result.value];
      if e < |s| && s[e] == ',' then ArgsAt(s, base, e + 1, name, vals)
      else if e < |s| && s[e] == ')' then Step(Apply(name, vals), e + 1)
      else Step(Failure(Parse(Expected(')'))), e)
  }

  /** A letter at the first non-blank position, a complete identifier and
      its '(' hand over to the argument loop. */
  lemma CallStart(s: string, base: int, p: nat, q: nat, e: nat)
    requires p <= |s| && q == SkipWs(s, p) && q < |s| && IsLetter(s[q])
    requires e == IdentEnd(s, q) && e < |s| && s[e] == '('
    ensures ExprAt(s, base, p) == ArgsAt(s, base, e + 1, Upper(s[q..e]), [])
  {
  }

  /** An identifier that is not followed by '(' is an error. */
  lemma CallWithoutParen(s: string, base: int, p: nat, q: nat, e: nat)
    requires p <= |s| && q == SkipWs(s, p) && q < |s| && IsLetter(s[q])
    requires e == IdentEnd(s, q) && !(e < |s| && s[e] == '(')
    ensures ExprAt(s, base, p) == Step(Failure(Parse(Expected('('))), e)
  {
  }

  /** Any other first non-blank character starts a number token. */
  lemma LiteralStart(s: string, base: int, p: nat, q: nat, e: nat)
    requires p <= |s| && q == SkipWs(s, p) && !(q < |s| && IsLetter(s[q]))
    requires e == TokenEnd(s, q)
    ensures e == q ==> ExprAt(s, base, p) == Step(Failure(Parse(NumberExpected)), q)
    ensures e > q ==> ExprAt(s, base, p) == Step(ParseLiteral(s[q..e], base), e)
  {
  }

  /** A failing argument ends the loop with its failure. */
  lemma ArgsFail(s: string, base: int, p: nat, name: string, acc: seq<int>)
    requires p <= |s| && ExprAt(s, base, SkipWs(s, p)).result.Failure?
    ensures ArgsAt(s, base, p, name, acc) == ExprAt(s, base, SkipWs(s, p))
  {
  }

  /** After an argument with value v and the blanks behind it up to e, a ','
      goes on with the next argument. */
  lemma ArgsComma(s: string, base: int, p: nat, name: string, acc: seq<int>, v: int, e: nat)
    requires p <= |s| && ExprAt(s, base, SkipWs(s, p)).result == Success(v)
    requires e == SkipWs(s, ExprAt(s, base, SkipWs(s, p)).end) && e < |s| && s[e] == ','
    ensures ArgsAt(s, base, p, name, acc) == ArgsAt(s, base, e + 1, name, acc + [v])
  {
  }

  /** ... a ')' closes the call and applies name to the values. */
  lemma ArgsClose(s: string, base: int, p: nat, name: string, acc: seq<int>, v: int, e: nat)
    requires p <= |s| && ExprAt(s, base, SkipWs(s, p)).result == Success(v)
    requires e == SkipWs(s, ExprAt(s, base, SkipWs(s, p)).end) && e < |s| && s[e] == ')'
    ensures ArgsAt(s, base, p, name, acc) == Step(Apply(name, acc + [v]), e + 1)
  {
  }

  /** ... and anything else is a missing ')'. */
  lemma ArgsUnclosed(s: string, base: int, p: nat, name: string, acc: seq<int>, v: int, e: nat)
    requires p <= |s| && ExprAt(s, base, SkipWs(s, p)).result == Success(v)
    requires e == SkipWs(s, ExprAt(s, base, SkipWs(s, p)).end)
    requires !(e < |s| && (s[e] == ',' || s[e] == ')'))
    ensures ArgsAt(s, base, p, name, acc) == Step(Failure(Parse(Expected(')'))), e)
  {
  }

  /** parse() from cursor p: one expression, then nothing but whitespace. */
  function ParseFrom(s: string, base: int, p: nat): (r: Result<int>)
    requires p <= |s|
  {
    var v := ExprAt(s, base, SkipWs(s, p));
    if v.result.Failure? then v.result
    else if SkipWs(s, v.end) != |s| then Failure(Parse(TrailingCharacters))
    else v.result
  }

  /** The value of a share string (Main.java:250-258): the trimmed text goes to
      the parser when it looks like a function call, and is otherwise read as
      one literal in the base. */
  function ShareValue(value: string, base: int): Result<int>
  {
    var v := Trim(value);
    if LooksLikeFunction(v) then ParseFrom(Trim(v), base, 0) else ParseLiteral(v, base)
  }

  // ---------------------------------------------------------------------------
  // The parser object.

  class ExprParser {
    const s: string
    const base: int
    var pos: nat

    constructor (input: string, base: int)
      ensures s == Trim(input) && this.base == base && pos == 0
    {
      s := Trim(input);
      this.base := base;
      pos := 0;
    }

    method Skip()
      requires pos <= |s|
      modifies this
      ensures pos == SkipWs(s, old(pos))
    {
      while pos < |s| && IsWhitespace(s[pos])
        invariant old(pos) <= pos <= |s|
        invariant SkipWs(s, pos) == SkipWs(s, old(pos))
        decreases |s| - pos
      {
        pos := pos + 1;
      }
    }

    method Accept(c: char) returns (ok: bool)
      requires pos <= |s|
      modifies this
      ensures ok == (old(pos) < |s| && s[old(pos)] == c)
      ensures pos == if ok then old(pos) + 1 else old(pos)
    {
      ok := pos < |s| && s[pos] == c;
      if ok {
        pos := pos + 1;
      }
    }

    /** expect(c): like Accept, but a missing c is a failure. */
    method Expect(c: char) returns (r: Result<()>)
      requires pos <= |s|
      modifies this
      ensures r.Success? == (old(pos) < |s| && s[old(pos)] == c)
      ensures r.Failure? ==> r.error == Error.Parse(Expected(c))
      ensures pos == if r.Success? then old(pos) + 1 else old(pos)
    {
      var ok := Accept(c);
      r := if ok then Success(()) else Failure(Error.Parse(Expected(c)));
    }

    method PeekAlpha() returns (b: bool)
      ensures b == (pos < |s| && IsLetter(s[pos]))
    {
      b := pos < |s| && IsLetter(s[pos]);
    }

    method ParseIdent() returns (r: Result<string>)
      requires pos <= |s|
      modifies this
      ensures pos == IdentEnd(s, old(pos))
      ensures r == if pos == old(pos) then Failure(Error.Parse(IdentifierExpected))
                   else Success(s[old(pos)..pos])
    {
      var start := pos;
      while pos < |s| && IsIdentChar(s[pos])
        invariant start <= pos <= |s|
        invariant IdentEnd(s, pos) == IdentEnd(s, start)
        decreases |s| - pos
      {
        pos := pos + 1;
      }
      r := if start == pos then Failure(Error.Parse(IdentifierExpected)) else Success(s[start..pos]);
    }

    method ParseNumberToken() returns (r: Result<string>)
      requires pos <= |s|
      modifies this
      ensures pos == TokenEnd(s, old(pos))
      ensures r == if pos == old(pos) then Failure(Error.Parse(NumberExpected))
                   else Success(s[old(pos)..pos])
    {
      var start := pos;
      while pos < |s|
        invariant start <= pos <= |s|
        invariant TokenEnd(s, pos) == TokenEnd(s, start)
        decreases |s| - pos
      {
        var c := s[pos];
        if IsLetterOrDigit(c) {
          pos := pos + 1;
        } else {
          break;
        }
      }
      r := if start == pos then Failure(Error.Parse(NumberExpected)) else Success(s[start..pos]);
    }

    method ParseExpr() returns (r: Result<int>)
      requires pos <= |s|
      modifies this
      ensures old(pos) <= pos <= |s|
      ensures r == ExprAt(s, base, old(pos)).result
      ensures r.Success? ==> pos == ExprAt(s, base, old(pos)).end
      decreases |s| - pos, 2
    {
      ghost var start := pos;
      Skip();
      var alpha := PeekAlpha();
      if alpha {
        r := ParseCall();
      } else {
        LiteralStart(s, base, start, pos, TokenEnd(s, pos));
        var lit := ParseNumberToken();
        if lit.Failure? {
          return Failure(Error.Parse(NumberExpected));
        }
        r := ParseLiteral(lit.value, base);
      }
    }

    /** The branch of parseExpr that starts with a letter: the identifier,
        its '(' and the arguments. */
    method ParseCall() returns (r: Result<int>)
      requires pos < |s| && IsLetter(s[pos])
      modifies this
      ensures old(pos) <= pos <= |s|
      ensures r == ExprAt(s, base, old(pos)).result
      ensures r.Success? ==> pos == ExprAt(s, base, old(pos)).end
      decreases |s| - pos, 1
    {
      ghost var q := pos;
      assert SkipWs(s, q) == q;
      var ident := ParseIdent();
      if ident.Failure? {
        return Failure(Error.Parse(IdentifierExpected));
      }
      r := ParseOpen(Upper(ident.value), q);
    }

    /** The rest of the call once its name, which starts at q, is read: the
        '(' and the arguments. */
    method ParseOpen(name: string, ghost q: nat) returns (r: Result<int>)
      requires q < pos <= |s| && SkipWs(s, q) == q && IsLetter(s[q])
      requires pos == IdentEnd(s, q) && name == Upper(s[q..pos])
      modifies this
      ensures old(pos) <= pos <= |s|
      ensures r == ExprAt(s, base, q).result
      ensures r.Success? ==> pos == ExprAt(s, base, q).end
      decreases |s| - q, 0
    {
      ghost var e := pos;
      var open := Expect('(');
      if open.Failure? {
        CallWithoutParen(s, base, q, q, e);
        return Failure(Error.Parse(Expected('(')));
      }
      CallStart(s, base, q, q, e);
      r := ParseArgs(name);
    }

    /** The do-while argument loop of parseExpr, then expect(')') and apply. */
    method ParseArgs(name: string) returns (r: Result<int>)
      requires pos <= |s|
      modifies this
      ensures old(pos) <= pos <= |s|
      ensures r == ArgsAt(s, base, old(pos), name, []).result
      ensures r.Success? ==> pos == ArgsAt(s, base, old(pos), name, []).end
      decreases |s| - pos, 4
    {
      ghost var start := pos;
      var args: seq<int> := [];
      ghost var p, acc := pos, args;
      while true
        invariant start <= pos <= |s|
        invariant ArgsAt(s, base, pos, name, args) == ArgsAt(s, base, start, name, [])
        decreases |s| - pos
      {
        p, acc := pos, args;
        var v, more := ParseArg(name, args);
        if v.Failure? {
          return v;
        }
        args := args + [v.value];
        if !more {
          break;
        }
      }
      var close := Expect(')');
      if close.Failure? {
        return Failure(Error.Parse(Expected(')')));
      }
      r := Apply(name, args);
    }

    /** One round of the argument loop: an argument, the blanks behind it and
        an optional ','; without the ',' the loop's outcome is decided by
        whether a ')' comes next. */
    method ParseArg(name: string, args: seq<int>) returns (v: Result<int>, more: bool)
      requires pos <= |s|
      modifies this
      ensures old(pos) <= pos <= |s|
      ensures v.Failure? ==> v == ArgsAt(s, base, old(pos), name, args).result
      ensures v.Success? && more ==>
                old(pos) < pos &&
                ArgsAt(s, base, pos, name, args + [v.value]) == ArgsAt(s, base, old(pos), name, args)
      ensures v.Success? && !more ==>
                ArgsAt(s, base, old(pos), name, args) ==
                (if pos < |s| && s[pos] == ')' then Step(Apply(name, args + [v.value]), pos + 1)
                 else Step(Failure(Error.Parse(Expected(')'))), pos))
      decreases |s| - pos, 3
    {
      ghost var p := pos;
      Skip();
      v := ParseExpr();
      if v.Failure? {
        ArgsFail(s, base, p, name, args);
        return v, false;
      }
      Skip();
      ghost var e := pos;
      more := Accept(',');
      if more {
        ArgsComma(s, base, p, name, args, v.value, e);
      } else if pos < |s| && s[pos] == ')' {
        ArgsClose(s, base, p, name, args, v.value, e);
      } else {
        ArgsUnclosed(s, base, p, name, args, v.value, e);
      }
    }

    method Parse() returns (r: Result<int>)
      requires pos <= |s|
      modifies this
      ensures r == ParseFrom(s, base, old(pos))
    {
      Skip();
      r := ParseExpr();
      if r.Failure? {
        return;
      }
      Skip();
      if pos != |s| {
        r := Failure(Error.Parse(TrailingCharacters));
      }
    }
  }

  /** The share decoding of main (Main.java:250-258). */
  method DecodeShareValue(value: string, base: int) returns (r: Result<int>)
    ensures r == ShareValue(value, base)
  {
    var v := Trim(value);
    if LooksLikeFunction(v) {
      var parser := new ExprParser(v, base);
      r := parser.Parse();
    } else {
      r := ParseLiteral(v, base);
    }
  }
}
