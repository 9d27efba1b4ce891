/** The optimizer expectations of the unit tests in parse.cpp, on the trees the parser builds. */
module RewriteExamples {

  import opened Int32
  import opened Syntax
  import opened Outcomes
  import opened Rewrite
  import Exprs

  function N(n: int32): Expr { NumExpr(n) }
  function V(name: string): Expr { VarExpr(name) }

  /** "3 + (2 * 4)" optimizes to "11"; "x + (2 * 4)" to "x + 8"; "x + y + z" is unchanged. */
  lemma FoldsConstants()
    ensures Optimize(AddExpr(N(3), MultExpr(N(2), N(4)))) == Some(N(11))
    ensures Exprs.ToString(N(11)) == "11"
    ensures Optimize(AddExpr(V("x"), MultExpr(N(2), N(4)))) == Some(AddExpr(V("x"), N(8)))
    ensures Exprs.ToString(AddExpr(V("x"), N(8))) == "x + 8"
    ensures Optimize(AddExpr(V("x"), AddExpr(V("y"), V("z")))) == Some(AddExpr(V("x"), AddExpr(V("y"), V("z"))))
    ensures Exprs.ToString(AddExpr(V("x"), AddExpr(V("y"), V("z")))) == "x + y + z"
  {
  }

  /** "_let x = 2 _in x + 8" optimizes to 10; "_let x = y + 4 _in x + 8" is unchanged. */
  lemma EliminatesConstantLets()
    ensures Optimize(LetExpr("x", N(2), AddExpr(V("x"), N(8)))) == Some(N(10))
    ensures var e := LetExpr("x", AddExpr(V("y"), N(4)), AddExpr(V("x"), N(8)));
            Optimize(e) == Some(e) && Exprs.ToString(e) == "_let x = y + 4 _in x + 8"
  {
  }

  function ZPlus2(): Expr { AddExpr(V("z"), N(2)) }

  /** "_let y = z + 2 _in x + y + (2 * 3)" optimizes to "_let y = z + 2 _in x + y + 6". */
  lemma KeepsVariableLet()
    ensures Optimize(LetExpr("y", ZPlus2(), AddExpr(V("x"), AddExpr(V("y"), MultExpr(N(2), N(3))))))
            == Some(LetExpr("y", ZPlus2(), AddExpr(V("x"), AddExpr(V("y"), N(6)))))
  {
    assert Optimize(ZPlus2()) == Some(ZPlus2());
    assert ContainsVar(ZPlus2()) == Some(true);
    assert Optimize(AddExpr(V("y"), MultExpr(N(2), N(3)))) == Some(AddExpr(V("y"), N(6)));
  }

  lemma SubstitutesIntoVariableLet()
    ensures Optimize(Subst(LetExpr("y", ZPlus2(), AddExpr(V("x"), AddExpr(V("y"), N(6)))), "x", NumVal(5)))
            == Some(LetExpr("y", ZPlus2(), AddExpr(N(5), AddExpr(V("y"), N(6)))))
  {
    var substituted := LetExpr("y", ZPlus2(), AddExpr(N(5), AddExpr(V("y"), N(6))));
    assert Subst(LetExpr("y", ZPlus2(), AddExpr(V("x"), AddExpr(V("y"), N(6)))), "x", NumVal(5)) == substituted;
    assert Optimize(ZPlus2()) == Some(ZPlus2());
    assert ContainsVar(ZPlus2()) == Some(true);
    assert Optimize(AddExpr(N(5), AddExpr(V("y"), N(6)))) == Some(AddExpr(N(5), AddExpr(V("y"), N(6))));
  }

  /** "_let x = 5 _in _let y = z + 2 _in x + y + (2 * 3)" optimizes to "_let y = z + 2 _in 5 + y + 6". */
  lemma EliminatesConstantLetAroundOther()
    ensures Optimize(LetExpr("x", N(5), LetExpr("y", ZPlus2(), AddExpr(V("x"), AddExpr(V("y"), MultExpr(N(2), N(3)))))))
            == Some(LetExpr("y", ZPlus2(), AddExpr(N(5), AddExpr(V("y"), N(6)))))
  {
    KeepsVariableLet();
    SubstitutesIntoVariableLet();
  }

  lemma KeptLetText()
    ensures Exprs.ToString(LetExpr("y", ZPlus2(), AddExpr(V("x"), AddExpr(V("y"), N(6)))))
            == "_let y = z + 2 _in x + y + 6"
  {
  }

  lemma EliminatedLetText()
    ensures Exprs.ToString(LetExpr("y", ZPlus2(), AddExpr(N(5), AddExpr(V("y"), N(6)))))
            == "_let y = z + 2 _in 5 + y + 6"
  {
  }

  /** Substituting the closure for `f` in "f (10)" and optimizing gives the call of the function literal. */
  lemma SubstitutesClosure()
    ensures var inc := AddExpr(V("x"), N(1));
            Optimize(Subst(CallExpr(V("f"), N(10)), "f", FunVal("x", inc, EmptyEnv)))
            == Some(CallExpr(FunExpr("x", inc), N(10)))
  {
  }

  function FibFib(): Expr { CallExpr(V("fib"), V("fib")) }

  function FibRecur(): Expr
  {
    AddExpr(CallExpr(FibFib(), AddExpr(V("x"), N(-1))), CallExpr(FibFib(), AddExpr(V("x"), N(-2))))
  }

  function FibBody(): Expr
  {
    IfExpr(CompareExpr(V("x"), N(0)), N(1), IfExpr(CompareExpr(V("x"), N(1)), N(1), FibRecur()))
  }

  /** The Fibonacci program of the tests. */
  function FibProgram(): Expr
  {
    LetExpr("fib", FunExpr("fib", FunExpr("x", FibBody())), CallExpr(FibFib(), N(10)))
  }

  /** The recursive step of the Fibonacci program renders as in its source text. */
  lemma FibRecurText()
    ensures Exprs.ToString(FibRecur()) == "fib(fib)(x + -1) + fib(fib)(x + -2)"
  {
    FibCallText();
  }

  lemma FibCallText()
    ensures Exprs.ToString(CallExpr(FibFib(), AddExpr(V("x"), N(-1)))) == "fib(fib)(x + -1)"
    ensures Exprs.ToString(CallExpr(FibFib(), AddExpr(V("x"), N(-2)))) == "fib(fib)(x + -2)"
  {
    assert Int32.ToString(-1) == "-1" && Int32.ToString(-2) == "-2";
    assert Exprs.ToString(FibFib()) == "fib(fib)";
  }

  /**
   * The Fibonacci program prints as the program text of the test
   * (parse.cpp:411), which the ensures spells out in the pieces the printer
   * puts together.
   */
  lemma FibProgramText()
    ensures Exprs.ToString(FibProgram())
            == "_let fib = "
               + ("_fun (fib) _fun (x) "
                  + ("_if x == 0 _then 1 _else "
                     + ("_if x == 1 _then 1 _else " + "fib(fib)(x + -1) + fib(fib)(x + -2)")))
               + " _in fib(fib)(10)"
  {
    var f := FunExpr("fib", FunExpr("x", FibBody()));
    FibFunctionText(Exprs.ToString(f));
    FibCallOfTenText(Exprs.ToString(CallExpr(FibFib(), N(10))));
    ProgramPieces(Exprs.ToString(FibProgram()), Exprs.ToString(f), Exprs.ToString(CallExpr(FibFib(), N(10))));
  }

  lemma ProgramPieces(s: string, f: string, c: string)
    requires s == "_let " + "fib" + " = " + f + " _in " + c && c == "fib(fib)(10)"
    ensures s == "_let fib = " + f + " _in fib(fib)(10)"
  {
    assert "_let " + "fib" + " = " == "_let fib = ";
    assert " _in " + "fib(fib)(10)" == " _in fib(fib)(10)";
  }

  lemma FibCallOfTenText(s: string)
    requires s == Exprs.ToString(CallExpr(FibFib(), N(10)))
    ensures s == "fib(fib)(10)"
  {
    assert Int32.ToString(10) == "10";
  }

  lemma FibFunctionText(s: string)
    requires s == Exprs.ToString(FunExpr("fib", FunExpr("x", FibBody())))
    ensures s == "_fun (fib) _fun (x) "
                 + ("_if x == 0 _then 1 _else " + ("_if x == 1 _then 1 _else " + "fib(fib)(x + -1) + fib(fib)(x + -2)"))
  {
    var b := Exprs.ToString(FibBody());
    FibBodyText(b);
    assert s == "_fun (" + "fib" + ") " + ("_fun (" + "x" + ") " + b);
    assert "_fun (" + "fib" + ") " + ("_fun (" + "x" + ") ") == "_fun (fib) _fun (x) ";
  }

  lemma FibBodyText(s: string)
    requires s == Exprs.ToString(FibBody())
    ensures s == "_if x == 0 _then 1 _else " + ("_if x == 1 _then 1 _else " + "fib(fib)(x + -1) + fib(fib)(x + -2)")
  {
    var inner := Exprs.ToString(IfExpr(CompareExpr(V("x"), N(1)), N(1), FibRecur()));
    FibInnerIfText(inner);
    IfPieces(s, Exprs.ToString(CompareExpr(V("x"), N(0))), inner);
  }

  lemma IfPieces(s: string, c: string, f: string)
    requires s == "_if " + c + " _then " + Exprs.ToString(N(1)) + " _else " + f && c == Exprs.ToString(CompareExpr(V("x"), N(0)))
    ensures s == "_if x == 0 _then 1 _else " + f
  {
    assert Int32.ToString(0) == "0" && Int32.ToString(1) == "1";
    assert c == "x == 0";
    assert "_if " + "x == 0" + " _then " + "1" + " _else " == "_if x == 0 _then 1 _else ";
  }

  lemma FibInnerIfText(s: string)
    requires s == Exprs.ToString(IfExpr(CompareExpr(V("x"), N(1)), N(1), FibRecur()))
    ensures s == "_if x == 1 _then 1 _else " + "fib(fib)(x + -1) + fib(fib)(x + -2)"
  {
    FibRecurText();
    assert Int32.ToString(1) == "1";
    assert Exprs.ToString(CompareExpr(V("x"), N(1))) == "x == 1";
  }

  /**
   * Optimizing the Fibonacci program gives the same tree, so its rendering
   * is the program's text again (`FibProgramText`).
   */
  lemma FibOptimizesToItself()
    ensures Optimize(FibProgram()) == Some(FibProgram())
  {
    assert Optimize(CompareExpr(V("x"), N(0))) == Some(CompareExpr(V("x"), N(0)));
    assert Optimize(FibBody()) == Some(FibBody());
    assert Optimize(FunExpr("fib", FunExpr("x", FibBody()))) == Some(FunExpr("fib", FunExpr("x", FibBody())));
    assert ContainsVar(FunExpr("fib", FunExpr("x", FibBody()))) == Some(true);
  }
}
