/** The direct-evaluation expectations of the unit tests in parse.cpp, on the parsed trees. */
module EvaluatorExamples {

  import opened Int32
  import opened Syntax
  import opened Outcomes
  import opened Evaluator
  import Values

  function V(name: string): Expr { VarExpr(name) }
  function N(n: int32): Expr { NumExpr(n) }

  /** "_let x = 2 _in x + 8" is 10; the conditionals pick their branch by the comparison. */
  lemma LetAndConditionals()
    ensures Interp(LetExpr("x", N(2), AddExpr(V("x"), N(8))), EmptyEnv, 4) == Ok(NumVal(10))
    ensures Values.ToString(NumVal(10)) == "10"
    ensures Interp(IfExpr(BoolExpr(true), N(1), N(2)), EmptyEnv, 3) == Ok(NumVal(1))
    ensures Interp(IfExpr(CompareExpr(N(1), N(1)), N(1), N(2)), EmptyEnv, 4) == Ok(NumVal(1))
    ensures Interp(IfExpr(CompareExpr(N(1), N(9)), N(1), N(2)), EmptyEnv, 4) == Ok(NumVal(2))
    ensures Interp(IfExpr(CompareExpr(N(1), AddExpr(N(2), N(-1))), N(1), N(2)), EmptyEnv, 5) == Ok(NumVal(1))
  {
  }

  /** "(_fun (x) x + 1)(10)" and "_let f = _fun (x) x + 1 _in f (10)" are 11. */
  lemma CallsOfIncrement()
    ensures Interp(CallExpr(FunExpr("x", AddExpr(V("x"), N(1))), N(10)), EmptyEnv, 4) == Ok(NumVal(11))
    ensures Interp(LetExpr("f", FunExpr("x", AddExpr(V("x"), N(1))), CallExpr(V("f"), N(10))), EmptyEnv, 5)
            == Ok(NumVal(11))
  {
  }

  /** "_let f = _fun (x) x * x _in f (2)" is 4. */
  lemma CallOfSquare()
    ensures Interp(LetExpr("f", FunExpr("x", MultExpr(V("x"), V("x"))), CallExpr(V("f"), N(2))), EmptyEnv, 5)
            == Ok(NumVal(4))
  {
  }

  /** The nested conditional of the tests answers 0 for the argument 0. */
  lemma CallOfConditional()
    ensures var f := FunExpr("x", IfExpr(CompareExpr(V("x"), N(0)), N(0),
                                    IfExpr(CompareExpr(V("x"), AddExpr(N(2), N(-1))), N(1), N(3))));
            Interp(LetExpr("f", f, CallExpr(V("f"), N(0))), EmptyEnv, 6) == Ok(NumVal(0))
  {
  }

  /** Closures see the environment they were made in: 16 here. */
  lemma Closures()
    ensures Interp(LetExpr("y", N(8), LetExpr("f", FunExpr("x", MultExpr(V("x"), V("y"))), CallExpr(V("f"), N(2)))),
                   EmptyEnv, 6) == Ok(NumVal(16))
  {
  }

  /** Partial application: the inner closure keeps the first argument, 15 here. */
  lemma PartialApplication()
    ensures Interp(LetExpr("add", FunExpr("x", FunExpr("y", AddExpr(V("x"), V("y")))),
                     LetExpr("addFive", CallExpr(V("add"), N(5)), CallExpr(V("addFive"), N(10)))),
                   EmptyEnv, 7) == Ok(NumVal(15))
  {
  }

  function Factorial(n: nat): nat
  {
    if n <= 1 then 1 else n * Factorial(n - 1)
  }

  lemma {:induction false} FactorialMonotone(m: nat, n: nat)
    requires m <= n
    ensures 1 <= Factorial(m) <= Factorial(n)
    decreases n
  {
    if m < n {
      FactorialMonotone(m, n - 1);
    } else if n > 1 {
      FactorialMonotone(n - 1, n - 1);
    }
    if n > 1 {
      ProductAtLeast(n, Factorial(n - 1));
    }
  }

  lemma {:induction false} ProductAtLeast(a: nat, b: nat)
    requires a >= 1
    ensures a * b >= b
  {
    if a > 1 {
      ProductAtLeast(a - 1, b);
      assert a * b == (a - 1) * b + b;
    }
  }

  lemma FactorialOfTwelve()
    ensures Factorial(12) == 479001600
  {
    assert Factorial(3) == 6;
    assert Factorial(5) == 120;
    assert Factorial(7) == 5040;
    assert Factorial(9) == 362880;
    assert Factorial(11) == 39916800;
  }

  /** n! as an `int`, for the n whose factorial fits. */
  function FactorialInt32(n: int32): int32
    requires 1 <= n <= 12
  {
    FactorialMonotone(n as nat, 12);
    FactorialOfTwelve();
    Factorial(n as nat) as int32
  }

  /**
   * The self-application `f (f)` of the recursion idiom: the name `f` is bound
   * (possibly under other bindings) to a closure `_fun (f) c` made in the empty
   * environment, and the call yields the closure `c` in the environment binding `f`.
   */
  lemma SelfApplication(selfEnv: Env, env: Env, fuel: nat)
    requires selfEnv.ExtendedEnv? && selfEnv.rest == EmptyEnv
    requires selfEnv.val.FunVal? && selfEnv.val.formalArg == selfEnv.name && selfEnv.val.env == EmptyEnv
    requires selfEnv.val.body.FunExpr?
    requires Environment.Lookup(env, selfEnv.name) == Ok(selfEnv.val)
    requires fuel >= 2
    ensures Interp(CallExpr(V(selfEnv.name), V(selfEnv.name)), env, fuel)
            == Ok(FunVal(selfEnv.val.body.formalArg, selfEnv.val.body.body, selfEnv))
  {
    var f := selfEnv.val;
    assert Interp(V(selfEnv.name), env, fuel - 1) == Ok(f);
    assert Call(f, f, fuel - 1) == Interp(f.body, ExtendedEnv(EmptyEnv, f.formalArg, f), fuel - 1);
  }

  /** The body of the factorial closure of the tests: `_if x == 1 _then 1 _else x * fac (fac) (x + -1)`. */
  function FacBody(): Expr
  {
    IfExpr(CompareExpr(V("x"), N(1)), N(1),
      MultExpr(V("x"), CallExpr(CallExpr(V("fac"), V("fac")), AddExpr(V("x"), N(-1)))))
  }

  function FacCode(): Expr { FunExpr("fac", FunExpr("x", FacBody())) }

  /** "_let fac = _fun (fac) _fun (x) ... _in fac (fac) (n)". */
  function FacProgram(n: int32): Expr
  {
    LetExpr("fac", FacCode(), CallExpr(CallExpr(V("fac"), V("fac")), N(n)))
  }

  /** The environment of the inner closure: `fac` bound to the outer one. */
  function FacEnv(): Env
  {
    ExtendedEnv(EmptyEnv, "fac", FunVal("fac", FunExpr("x", FacBody()), EmptyEnv))
  }

  /** One turn of the factorial: the self-application `fac (fac)` rebuilds the same closure. */
  lemma {:induction false} FacBodyComputes(n: int32, fuel: nat)
    requires 1 <= n <= 12 && fuel >= 10 * n as int + 5
    ensures Interp(FacBody(), ExtendedEnv(FacEnv(), "x", NumVal(n)), fuel) == Ok(NumVal(FactorialInt32(n)))
    decreases n
  {
    var env := ExtendedEnv(FacEnv(), "x", NumVal(n));
    assert Interp(CompareExpr(V("x"), N(1)), env, fuel - 1) == Ok(BoolVal(n == 1));
    if n != 1 {
      var inner := FunVal("x", FacBody(), FacEnv());
      SelfApplication(FacEnv(), env, fuel - 3);
      assert Interp(AddExpr(V("x"), N(-1)), env, fuel - 3) == Ok(NumVal(n - 1));
      FacBodyComputes(n - 1, fuel - 3);
      var recur := CallExpr(CallExpr(V("fac"), V("fac")), AddExpr(V("x"), N(-1)));
      assert Interp(recur, env, fuel - 2) == Ok(NumVal(FactorialInt32(n - 1)));
      assert Interp(V("x"), env, fuel - 2) == Ok(NumVal(n));
      assert Factorial(n as nat) == n as int * Factorial(n as nat - 1);
      assert MultWith(NumVal(n), NumVal(FactorialInt32(n - 1)), fuel - 2) == Ok(NumVal(FactorialInt32(n)));
      assert Interp(MultExpr(V("x"), recur), env, fuel - 1) == Ok(NumVal(FactorialInt32(n)));
    }
  }

  /** The recursive factorial of the tests computes n! for every n up to 12, the largest that fits in `int`. */
  lemma FactorialProgram(n: int32, fuel: nat)
    requires 1 <= n <= 12 && fuel >= 10 * n as int + 10
    ensures Interp(FacProgram(n), EmptyEnv, fuel) == Ok(NumVal(FactorialInt32(n)))
  {
    var inner := FunVal("x", FacBody(), FacEnv());
    assert Interp(FacCode(), EmptyEnv, fuel - 1) == Ok(FacEnv().val);
    SelfApplication(FacEnv(), FacEnv(), fuel - 2);
    FacBodyComputes(n, fuel - 2);
    assert Call(inner, NumVal(n), fuel - 2) == Ok(NumVal(FactorialInt32(n)));
    assert Interp(CallExpr(CallExpr(V("fac"), V("fac")), N(n)), FacEnv(), fuel - 1) == Ok(NumVal(FactorialInt32(n)));
  }

  /** fac (fac) (5) is 120. */
  lemma FactorialOfFive()
    ensures Interp(FacProgram(5), EmptyEnv, 60) == Ok(NumVal(120))
  {
    FactorialProgram(5, 60);
    assert Factorial(5) == 120;
    assert FactorialInt32(5) == 120;
  }

  /** The Fibonacci numbers as the program computes them, on 32-bit sums. */
  function Fibonacci(n: nat): int32
  {
    if n <= 1 then 1 else WrapAdd(Fibonacci(n - 1), Fibonacci(n - 2))
  }

  function FibBody(): Expr
  {
    var fibfib := CallExpr(V("fib"), V("fib"));
    IfExpr(CompareExpr(V("x"), N(0)), N(1),
      IfExpr(CompareExpr(V("x"), N(1)), N(1),
        AddExpr(CallExpr(fibfib, AddExpr(V("x"), N(-1))), CallExpr(fibfib, AddExpr(V("x"), N(-2))))))
  }

  /** "_let fib = _fun (fib) _fun (x) ... _in fib(fib)(n)". */
  function FibProgram(n: int32): Expr
  {
    LetExpr("fib", FunExpr("fib", FunExpr("x", FibBody())), CallExpr(CallExpr(V("fib"), V("fib")), N(n)))
  }

  function FibEnv(): Env
  {
    ExtendedEnv(EmptyEnv, "fib", FunVal("fib", FunExpr("x", FibBody()), EmptyEnv))
  }

  function FibEnvWith(n: int32): Env { ExtendedEnv(FibEnv(), "x", NumVal(n)) }

  function FibSum(): Expr
  {
    var fibfib := CallExpr(V("fib"), V("fib"));
    AddExpr(CallExpr(fibfib, AddExpr(V("x"), N(-1))), CallExpr(fibfib, AddExpr(V("x"), N(-2))))
  }

  lemma {:induction false} FibBodyComputes(n: int32, fuel: nat)
    requires 0 <= n && fuel >= 10 * n as int + 5
    ensures Interp(FibBody(), FibEnvWith(n), fuel) == Ok(NumVal(Fibonacci(n as nat)))
    decreases n, 2
  {
    var env := FibEnvWith(n);
    var second := IfExpr(CompareExpr(V("x"), N(1)), N(1), FibSum());
    assert FibBody() == IfExpr(CompareExpr(V("x"), N(0)), N(1), second);
    assert Interp(CompareExpr(V("x"), N(0)), env, fuel - 1) == Ok(BoolVal(n == 0));
    if n != 0 {
      assert Interp(CompareExpr(V("x"), N(1)), env, fuel - 2) == Ok(BoolVal(n == 1));
      if n != 1 {
        FibSumComputes(n, fuel - 2);
      }
      assert Interp(second, env, fuel - 1) == Ok(NumVal(Fibonacci(n as nat)));
    }
  }

  /** The two recursive calls `fib(fib)(x + -1) + fib(fib)(x + -2)`. */
  lemma {:induction false} FibSumComputes(n: int32, fuel: nat)
    requires 2 <= n && fuel >= 10 * n as int + 3
    ensures Interp(FibSum(), FibEnvWith(n), fuel) == Ok(NumVal(Fibonacci(n as nat)))
    decreases n, 1
  {
    FibCallComputes(n, 1, fuel - 1);
    FibCallComputes(n, 2, fuel - 1);
  }

  /** `fib(fib)(x + -k)` computes the Fibonacci number of `x - k`. */
  lemma {:induction false} FibCallComputes(n: int32, k: int32, fuel: nat)
    requires 1 <= k <= 2 && k <= n && fuel >= 10 * n as int + 2
    ensures Interp(CallExpr(CallExpr(V("fib"), V("fib")), AddExpr(V("x"), N(-k))), FibEnvWith(n), fuel)
            == Ok(NumVal(Fibonacci((n - k) as nat)))
    decreases n, 0
  {
    var env := FibEnvWith(n);
    SelfApplication(FibEnv(), env, fuel - 1);
    assert Interp(AddExpr(V("x"), N(-k)), env, fuel - 1) == Ok(NumVal(n - k));
    FibBodyComputes(n - k, fuel - 1);
  }

  /** The Fibonacci program of the tests computes `Fibonacci(n)` for every n >= 0. */
  lemma FibonacciProgram(n: int32, fuel: nat)
    requires 0 <= n && fuel >= 10 * n as int + 10
    ensures Interp(FibProgram(n), EmptyEnv, fuel) == Ok(NumVal(Fibonacci(n as nat)))
  {
    var inner := FunVal("x", FibBody(), FibEnv());
    assert Interp(FunExpr("fib", FunExpr("x", FibBody())), EmptyEnv, fuel - 1) == Ok(FibEnv().val);
    SelfApplication(FibEnv(), FibEnv(), fuel - 2);
    FibBodyComputes(n, fuel - 2);
    assert Call(inner, NumVal(n), fuel - 2) == Ok(NumVal(Fibonacci(n as nat)));
    assert Interp(CallExpr(CallExpr(V("fib"), V("fib")), N(n)), FibEnv(), fuel - 1) == Ok(NumVal(Fibonacci(n as nat)));
  }

  /** fib(fib)(10) is 89. */
  lemma FibonacciOfTen()
    ensures Interp(FibProgram(10), EmptyEnv, 110) == Ok(NumVal(89))
  {
    FibonacciProgram(10, 110);
    assert Fibonacci(10) == 89;
  }
}
