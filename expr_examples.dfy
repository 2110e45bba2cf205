/** Share values worked through the evaluator (Main.java:58-137, 250-258). */
module ExpressionExamples {
  import opened Results
  import opened Literals
  import opened Expressions
  import opened ExpressionFacts

  /** A one-digit numeral is that digit's value. */
  lemma OneDigit(t: string, base: int)
    requires |t| == 1
    ensures Numeral(t, base) == DigitValue(t[0])
  {
    assert t[..0] == [];
  }

  /** Two arguments that both have values evaluate to the pair of them. */
  lemma TwoArgs(a: Expr, b: Expr, base: int)
    requires Eval(a, base).Success? && Eval(b, base).Success?
    ensures EvalArgs([a, b], base) == Success([Eval(a, base).value, Eval(b, base).value])
  {
    var args := [a, b];
    assert args[1..] == [b];
    EvalArgsCons(args, base);
    EvalArgsCons([b], base);
    assert [Eval(a, base).value] + [Eval(b, base).value] == [Eval(a, base).value, Eval(b, base).value];
  }

  // ---------------------------------------------------------------------------
  // Calls nest, names are upper-cased, and each call is applied to the values
  // of its arguments.

  lemma NestedTreePrint()
    ensures Print(Call("add", [Literal("1"), Call("SUB", [Literal("5"), Literal("2")])])) == "add(1,SUB(5,2))"
  {
  }

  lemma NestedTreeWellFormed()
    ensures WellFormed(Call("add", [Literal("1"), Call("SUB", [Literal("5"), Literal("2")])]))
  {
  }

  lemma NestedTreeValue()
    ensures Eval(Call("add", [Literal("1"), Call("SUB", [Literal("5"), Literal("2")])]), 10) == Success(4)
  {
    var sub := Call("SUB", [Literal("5"), Literal("2")]);
    OneDigit("5", 10);
    OneDigit("2", 10);
    OneDigit("1", 10);
    TwoArgs(Literal("5"), Literal("2"), 10);
    assert Upper("SUB") == "SUB";
    assert Eval(sub, 10) == Success(3);
    TwoArgs(Literal("1"), sub, 10);
    assert Upper("add") == "ADD";
  }

  lemma NestedCall(s: string)
    requires s == "add(1,SUB(5,2))"
    ensures ShareValue(s, 10) == Success(4)
  {
    var e := Call("add", [Literal("1"), Call("SUB", [Literal("5"), Literal("2")])]);
    NestedTreePrint();
    NestedTreeWellFormed();
    NestedTreeValue();
    DecodePrinted(e, 10);
  }

  // ---------------------------------------------------------------------------
  // DIV by zero fails.

  lemma ZeroDivisorPrint()
    ensures Print(Call("DIV", [Literal("7"), Literal("0")])) == "DIV(7,0)"
  {
  }

  lemma ZeroDivisorWellFormed()
    ensures WellFormed(Call("DIV", [Literal("7"), Literal("0")]))
  {
  }

  lemma ZeroDivisorValue()
    ensures Eval(Call("DIV", [Literal("7"), Literal("0")]), 10) == Failure(DivisionByZero)
  {
    OneDigit("7", 10);
    OneDigit("0", 10);
    TwoArgs(Literal("7"), Literal("0"), 10);
    assert Upper("DIV") == "DIV";
  }

  lemma ZeroDivisor(s: string)
    requires s == "DIV(7,0)"
    ensures ShareValue(s, 10) == Failure(DivisionByZero)
  {
    ZeroDivisorPrint();
    ZeroDivisorWellFormed();
    ZeroDivisorValue();
    DecodePrinted(Call("DIV", [Literal("7"), Literal("0")]), 10);
  }

  // ---------------------------------------------------------------------------
  // A value not shaped like a call is one literal, after trimming.

  lemma BareLiteral(s: string)
    requires s == " 7f\n"
    ensures ShareValue(s, 16) == Success(127)
  {
    TrimKeeps("7f");
    assert Trim(s) == "7f" by {
      assert TrimStart(s, 0) == 1;
      assert TrimEnd(s, 1, 4) == 3;
    }
    assert Numeral("7f", 16) == 127 by {
      assert "7f"[..1] == "7";
      OneDigit("7", 16);
    }
  }

  // ---------------------------------------------------------------------------
  // In base 16 an argument that starts with a letter is read as a function
  // name, so the digit A cannot open an argument.

  lemma LetterDigitExpr(s: string)
    requires s == "ADD(A,1)"
    ensures ExprAt(s, 16, 0).result == Failure(Parse(Expected('(')))
  {
    SkipWsAt(s, 0, 0);
    IdentEndAt(s, 0, 3);
    CallStart(s, 16, 0, 0, 3);
    SkipWsAt(s, 4, 4);
    IdentEndAt(s, 4, 5);
    CallWithoutParen(s, 16, 4, 4, 5);
    ArgsFail(s, 16, 4, Upper(s[0..3]), []);
  }

  /** A trimmed value shaped like a call goes to the parser unchanged. */
  lemma TrimmedCall(v: string, base: int)
    requires Trim(v) == v && LooksLikeFunction(v)
    ensures ShareValue(v, base) == ParseFrom(v, base, 0)
  {
  }

  lemma LetterDigitIsAName(s: string)
    requires s == "ADD(A,1)"
    ensures ShareValue(s, 16) == Failure(Parse(Expected('(')))
  {
    LetterDigitExpr(s);
    TrimKeeps(s);
    assert LooksLikeFunction(s) by {
      assert s[3] == '(';
    }
    TrimmedCall(s, 16);
  }

  // ---------------------------------------------------------------------------
  // No whitespace is skipped between a function name and its '('.

  lemma SpacedNameExpr(s: string)
    requires s == "ADD (1,2)"
    ensures ExprAt(s, 10, 0).result == Failure(Parse(Expected('(')))
  {
    SkipWsAt(s, 0, 0);
    IdentEndAt(s, 0, 3);
    CallWithoutParen(s, 10, 0, 0, 3);
  }

  lemma SpacedName(s: string)
    requires s == "ADD (1,2)"
    ensures ShareValue(s, 10) == Failure(Parse(Expected('(')))
  {
    SpacedNameExpr(s);
    TrimKeeps(s);
    assert LooksLikeFunction(s) by {
      assert s[4] == '(';
    }
    TrimmedCall(s, 10);
  }
}
