/** The step-by-step expectations of the unit tests in parse.cpp, on the parsed trees. */
module MachineExamples {

  import opened Int32
  import opened Syntax
  import opened Outcomes
  import opened Evaluator
  import opened Machine
  import opened Agreement
  import EvaluatorExamples
  import Environment

  function V(name: string): Expr { VarExpr(name) }
  function N(n: int32): Expr { NumExpr(n) }

  /** "_let x = 2 _in x + 8" gives 10 and "_if 1 == 9 _then 1 _else 2" gives 2. */
  lemma LetAndConditional(v: Val) returns (m: nat)
    ensures forall n: nat :: n > m ==>
              Run(Initial(LetExpr("x", N(2), AddExpr(V("x"), N(8))), v), n) == Ok(NumVal(10))
              && Run(Initial(IfExpr(CompareExpr(N(1), N(9)), N(1), N(2)), v), n) == Ok(NumVal(2))
  {
    EvaluatorExamples.LetAndConditionals();
    var m1 := RunAgreesWithInterp(LetExpr("x", N(2), AddExpr(V("x"), N(8))), v, 4);
    var m2 := RunAgreesWithInterp(IfExpr(CompareExpr(N(1), N(9)), N(1), N(2)), v, 4);
    m := Max(m1, m2);
  }

  /** "(_fun (x) x + 1)(10)" and "_let f = _fun (x) x + 1 _in f (10)" give 11. */
  lemma CallsOfIncrement(v: Val) returns (m: nat)
    ensures forall n: nat :: n > m ==>
              Run(Initial(CallExpr(FunExpr("x", AddExpr(V("x"), N(1))), N(10)), v), n) == Ok(NumVal(11))
              && Run(Initial(LetExpr("f", FunExpr("x", AddExpr(V("x"), N(1))), CallExpr(V("f"), N(10))), v), n)
                 == Ok(NumVal(11))
  {
    EvaluatorExamples.CallsOfIncrement();
    var m1 := RunAgreesWithInterp(CallExpr(FunExpr("x", AddExpr(V("x"), N(1))), N(10)), v, 4);
    var m2 := RunAgreesWithInterp(LetExpr("f", FunExpr("x", AddExpr(V("x"), N(1))), CallExpr(V("f"), N(10))), v, 5);
    m := Max(m1, m2);
  }

  /** "_let y = 8 _in _let f = _fun (x) x * y _in f (2)" gives 16. */
  lemma Closure(v: Val) returns (m: nat)
    ensures forall n: nat :: n > m ==>
              Run(Initial(LetExpr("y", N(8), LetExpr("f", FunExpr("x", MultExpr(V("x"), V("y"))), CallExpr(V("f"), N(2)))), v), n)
              == Ok(NumVal(16))
  {
    EvaluatorExamples.Closures();
    m := RunAgreesWithInterp(LetExpr("y", N(8), LetExpr("f", FunExpr("x", MultExpr(V("x"), V("y"))), CallExpr(V("f"), N(2)))), v, 6);
  }

  /** The factorial program gives 120 for 5. */
  lemma FactorialOfFive(v: Val) returns (m: nat)
    ensures forall n: nat :: n > m ==> Run(Initial(EvaluatorExamples.FacProgram(5), v), n) == Ok(NumVal(120))
  {
    EvaluatorExamples.FactorialOfFive();
    FactorialIsSafe();
    m := RunAgreesWithInterp(EvaluatorExamples.FacProgram(5), v, 60);
  }

  lemma FactorialIsSafe()
    ensures Safe(EvaluatorExamples.FacProgram(5))
  {
  }

  // ---------------------------------------------------------------- self-recursive loops

  /** "_let f = _fun (f) _fun (p) body _in f (f) (arg)": the recursion idiom of the tests. */
  function Recursive(name: string, param: string, body: Expr, arg: int32): Expr
  {
    LetExpr(name, FunExpr(name, FunExpr(param, body)), CallExpr(CallExpr(V(name), V(name)), N(arg)))
  }

  /** The environment of the inner closure: the name bound to the outer one. */
  function SelfEnv(name: string, param: string, body: Expr): Env
  {
    ExtendedEnv(EmptyEnv, name, FunVal(name, FunExpr(param, body), EmptyEnv))
  }

  /** `_if n == 0 _then 0 _else countdown (countdown) (n + -1)`: a call in tail position. */
  function CountdownBody(): Expr
  {
    IfExpr(CompareExpr(V("n"), N(0)), N(0),
      CallExpr(CallExpr(V("countdown"), V("countdown")), AddExpr(V("n"), N(-1))))
  }

  /** `_if n == 0 _then 0 _else 1 + count (count) (n + -1)`: the call is the right operand of `+`. */
  function CountBody(): Expr
  {
    IfExpr(CompareExpr(V("n"), N(0)), N(0),
      AddExpr(N(1), CallExpr(CallExpr(V("count"), V("count")), AddExpr(V("n"), N(-1)))))
  }

  function CountdownEnv(n: int32): Env { ExtendedEnv(SelfEnv("countdown", "n", CountdownBody()), "n", NumVal(n)) }

  function CountEnv(n: int32): Env { ExtendedEnv(SelfEnv("count", "n", CountBody()), "n", NumVal(n)) }

  lemma {:induction false} CountdownBodyComputes(n: int32, fuel: nat)
    requires 0 <= n && fuel >= 10 * n as int + 5
    ensures Interp(CountdownBody(), CountdownEnv(n), fuel) == Ok(NumVal(0))
    decreases n
  {
    var env := CountdownEnv(n);
    assert Interp(CompareExpr(V("n"), N(0)), env, fuel - 1) == Ok(BoolVal(n == 0));
    if n != 0 {
      EvaluatorExamples.SelfApplication(SelfEnv("countdown", "n", CountdownBody()), env, fuel - 2);
      assert Interp(AddExpr(V("n"), N(-1)), env, fuel - 2) == Ok(NumVal(n - 1));
      CountdownBodyComputes(n - 1, fuel - 2);
      var inner := FunVal("n", CountdownBody(), SelfEnv("countdown", "n", CountdownBody()));
      assert Call(inner, NumVal(n - 1), fuel - 2) == Ok(NumVal(0));
      var recur := CallExpr(CallExpr(V("countdown"), V("countdown")), AddExpr(V("n"), N(-1)));
      assert Interp(recur, env, fuel - 1) == Ok(NumVal(0));
    }
  }

  lemma {:induction false} CountBodyComputes(n: int32, fuel: nat)
    requires 0 <= n && fuel >= 10 * n as int + 5
    ensures Interp(CountBody(), CountEnv(n), fuel) == Ok(NumVal(n))
    decreases n
  {
    var env := CountEnv(n);
    assert Interp(CompareExpr(V("n"), N(0)), env, fuel - 1) == Ok(BoolVal(n == 0));
    if n != 0 {
      var recur := CallExpr(CallExpr(V("count"), V("count")), AddExpr(V("n"), N(-1)));
      EvaluatorExamples.SelfApplication(SelfEnv("count", "n", CountBody()), env, fuel - 3);
      assert Interp(AddExpr(V("n"), N(-1)), env, fuel - 3) == Ok(NumVal(n - 1));
      CountBodyComputes(n - 1, fuel - 3);
      var inner := FunVal("n", CountBody(), SelfEnv("count", "n", CountBody()));
      assert Call(inner, NumVal(n - 1), fuel - 3) == Ok(NumVal(n - 1));
      assert Interp(recur, env, fuel - 2) == Ok(NumVal(n - 1));
      assert AddTo(NumVal(1), NumVal(n - 1), fuel - 2) == Ok(NumVal(n));
      assert Interp(AddExpr(N(1), recur), env, fuel - 1) == Ok(NumVal(n));
    }
  }

  /** The direct evaluation of a recursion-idiom program, given what one turn of its body computes. */
  lemma RecursiveProgram(name: string, body: Expr, arg: int32, fuel: nat, w: Val)
    requires fuel >= 4
    requires Interp(body, ExtendedEnv(SelfEnv(name, "n", body), "n", NumVal(arg)), fuel - 2) == Ok(w)
    ensures Interp(Recursive(name, "n", body, arg), EmptyEnv, fuel) == Ok(w)
  {
    var selfEnv := SelfEnv(name, "n", body);
    assert Interp(FunExpr(name, FunExpr("n", body)), EmptyEnv, fuel - 1) == Ok(selfEnv.val);
    EvaluatorExamples.SelfApplication(selfEnv, selfEnv, fuel - 2);
    var inner := FunVal("n", body, selfEnv);
    assert Call(inner, NumVal(arg), fuel - 2) == Ok(w);
    assert Interp(CallExpr(CallExpr(V(name), V(name)), N(arg)), selfEnv, fuel - 1) == Ok(w);
  }

  /** The countdown from 1,000,000 gives 0. */
  lemma CountdownFromAMillion(v: Val) returns (m: nat)
    ensures forall n: nat :: n > m ==> Run(Initial(Recursive("countdown", "n", CountdownBody(), 1000000), v), n) == Ok(NumVal(0))
  {
    CountdownInterprets();
    CountdownIsSafe();
    m := RunAgreesWithInterp(Recursive("countdown", "n", CountdownBody(), 1000000), v, 10000007);
  }

  lemma CountdownInterprets()
    ensures Interp(Recursive("countdown", "n", CountdownBody(), 1000000), EmptyEnv, 10000007) == Ok(NumVal(0))
  {
    CountdownBodyComputes(1000000, 10000005);
    RecursiveProgram("countdown", CountdownBody(), 1000000, 10000007, NumVal(0));
  }

  lemma CountdownIsSafe()
    ensures Safe(Recursive("countdown", "n", CountdownBody(), 1000000))
  {
  }

  /** The count to 10000 gives 10000. */
  lemma CountToTenThousand(v: Val) returns (m: nat)
    ensures forall n: nat :: n > m ==> Run(Initial(Recursive("count", "n", CountBody(), 10000), v), n) == Ok(NumVal(10000))
  {
    CountInterprets();
    CountIsSafe();
    m := RunAgreesWithInterp(Recursive("count", "n", CountBody(), 10000), v, 100007);
  }

  lemma CountInterprets()
    ensures Interp(Recursive("count", "n", CountBody(), 10000), EmptyEnv, 100007) == Ok(NumVal(10000))
  {
    CountBodyComputes(10000, 100005);
    RecursiveProgram("count", CountBody(), 10000, 100007, NumVal(10000));
  }

  lemma CountIsSafe()
    ensures Safe(Recursive("count", "n", CountBody(), 10000))
  {
  }

  // ---------------------------------------------------------------- the countdown's stack

  /** The machine at the top of a countdown turn: the body about to run for `n`, on the empty stack. */
  function CountdownTurnStart(n: int32, v: Val): State
  {
    State(InterpMode, CountdownBody(), CountdownEnv(n), v, DoneCont)
  }

  /** The 22 states of one countdown turn for `n >= 1`, from the top of the body for `n` to the top for `n - 1`. */
  function CountdownTurnTrace(n: int32, v: Val): seq<State>
    requires n >= 1
  {
    var env := CountdownEnv(n);
    var selfEnv := SelfEnv("countdown", "n", CountdownBody());
    var outer := selfEnv.val;
    var inner := FunVal("n", CountdownBody(), selfEnv);
    var test := CompareExpr(V("n"), N(0));
    var selfApp := CallExpr(V("countdown"), V("countdown"));
    var dec := AddExpr(V("n"), N(-1));
    var recur := CallExpr(selfApp, dec);
    var k1 := IfBranchCont(N(0), recur, env, DoneCont);
    var k8 := ArgThenCallCont(dec, env, DoneCont);
    var k15 := CallCont(inner, DoneCont);
    [
      CountdownTurnStart(n, v),
      State(InterpMode, test, env, v, k1),
      State(InterpMode, V("n"), env, v, RightThenCompCont(N(0), env, k1)),
      State(ContinueMode, V("n"), env, NumVal(n), RightThenCompCont(N(0), env, k1)),
      State(InterpMode, N(0), env, NumVal(n), CompCont(NumVal(n), k1)),
      State(ContinueMode, N(0), env, NumVal(0), CompCont(NumVal(n), k1)),
      State(ContinueMode, N(0), env, BoolVal(false), k1),
      State(InterpMode, recur, env, BoolVal(false), DoneCont),
      State(InterpMode, selfApp, env, BoolVal(false), k8),
      State(InterpMode, V("countdown"), env, BoolVal(false), ArgThenCallCont(V("countdown"), env, k8)),
      State(ContinueMode, V("countdown"), env, outer, ArgThenCallCont(V("countdown"), env, k8)),
      State(InterpMode, V("countdown"), env, outer, CallCont(outer, k8)),
      State(ContinueMode, V("countdown"), env, outer, CallCont(outer, k8)),
      State(InterpMode, FunExpr("n", CountdownBody()), selfEnv, outer, k8),
      State(ContinueMode, FunExpr("n", CountdownBody()), selfEnv, inner, k8),
      State(InterpMode, dec, env, inner, k15),
      State(InterpMode, V("n"), env, inner, RightThenAddCont(N(-1), env, k15)),
      State(ContinueMode, V("n"), env, NumVal(n), RightThenAddCont(N(-1), env, k15)),
      State(InterpMode, N(-1), env, NumVal(n), AddCont(NumVal(n), k15)),
      State(ContinueMode, N(-1), env, NumVal(-1), AddCont(NumVal(n), k15)),
      State(ContinueMode, N(-1), env, NumVal(n - 1), k15),
      CountdownTurnStart(n - 1, NumVal(n - 1))
    ]
  }

  /** The test of a countdown turn for `n >= 1`: it fails. */
  lemma CountdownTurnTests(n: int32, v: Val)
    requires n >= 1
    ensures Walks(Next, CountdownTurnTrace(n, v), 0, 7)
  {
    var tr := CountdownTurnTrace(n, v);
    forall i, f: nat | 0 <= i < 7
      ensures !Final(tr[i]) && Next(tr[i], f) == Ok(tr[i + 1])
    {
      if i == 0 {
      } else if i == 1 {
      } else if i == 2 {
      } else if i == 3 {
      } else if i == 4 {
      } else if i == 5 {
      } else if i == 6 {
      }
    }
  }

  /** The self-application of a countdown turn gives the inner closure. */
  lemma CountdownTurnApplies(n: int32, v: Val)
    requires n >= 1
    ensures Walks(Next, CountdownTurnTrace(n, v), 7, 15)
  {
    var tr := CountdownTurnTrace(n, v);
    var selfEnv := SelfEnv("countdown", "n", CountdownBody());
    assert Environment.Lookup(CountdownEnv(n), "countdown") == Ok(selfEnv.val);
    forall i, f: nat | 7 <= i < 15
      ensures !Final(tr[i]) && Next(tr[i], f) == Ok(tr[i + 1])
    {
      if i == 7 {
      } else if i == 8 {
      } else if i == 9 {
      } else if i == 10 {
      } else if i == 11 {
      } else if i == 12 {
      } else if i == 13 {
      } else if i == 14 {
      }
    }
  }

  /** The decrement of a countdown turn and the call with it. */
  lemma CountdownTurnDecrements(n: int32, v: Val)
    requires n >= 1
    ensures Walks(Next, CountdownTurnTrace(n, v), 15, 21)
  {
    var tr := CountdownTurnTrace(n, v);
    assert WrapAdd(n, -1) == n - 1;
    forall i, f: nat | 15 <= i < 21
      ensures !Final(tr[i]) && Next(tr[i], f) == Ok(tr[i + 1])
    {
      if i == 15 {
      } else if i == 16 {
      } else if i == 17 {
      } else if i == 18 {
      } else if i == 19 {
      } else if i == 20 {
      }
    }
  }

  lemma CountdownTurnSteps(n: int32, v: Val)
    requires n >= 1
    ensures |CountdownTurnTrace(n, v)| == 22
    ensures Walks(Next, CountdownTurnTrace(n, v), 0, 21)
  {
    CountdownTurnTests(n, v);
    CountdownTurnApplies(n, v);
    CountdownTurnDecrements(n, v);
    JoinWalks(Next, CountdownTurnTrace(n, v), 0, 7, 15);
    JoinWalks(Next, CountdownTurnTrace(n, v), 0, 15, 21);
  }

  lemma CountdownTurnDepth(n: int32, v: Val)
    requires n >= 1
    ensures forall i :: 0 <= i < |CountdownTurnTrace(n, v)| ==> Depth(CountdownTurnTrace(n, v)[i].cont) <= 3
  {
    var tr := CountdownTurnTrace(n, v);
    var env := CountdownEnv(n);
    var dec := AddExpr(V("n"), N(-1));
    var k1 := IfBranchCont(N(0), CallExpr(CallExpr(V("countdown"), V("countdown")), dec), env, DoneCont);
    var k8 := ArgThenCallCont(dec, env, DoneCont);
    var k15 := CallCont(FunVal("n", CountdownBody(), SelfEnv("countdown", "n", CountdownBody())), DoneCont);
    assert Depth(k1) == Depth(k8) == Depth(k15) == 2;
    forall i | 0 <= i < 22
      ensures Depth(tr[i].cont) <= 3
    {
      if i == 0 {
      } else if i == 1 {
      } else if i == 2 {
      } else if i == 3 {
      } else if i == 4 {
      } else if i == 5 {
      } else if i == 6 {
      } else if i == 7 {
      } else if i == 8 {
      } else if i == 9 {
      } else if i == 10 {
      } else if i == 11 {
      } else if i == 12 {
      } else if i == 13 {
      } else if i == 14 {
      } else if i == 15 {
      } else if i == 16 {
      } else if i == 17 {
      } else if i == 18 {
      } else if i == 19 {
      } else if i == 20 {
      } else if i == 21 {
      }
    }
  }

  /**
   * One turn of the countdown for `n >= 1`: 21 steps, never more than three
   * frames deep, back to the top of the body for `n - 1` on the same stack.
   */
  lemma CountdownTurn(n: int32, v: Val, fuel: nat)
    requires n >= 1
    ensures fuel < 22 ==> Deepest(CountdownTurnStart(n, v), fuel) <= 3
    ensures fuel >= 21 ==>
              Deepest(CountdownTurnStart(n, v), fuel) <= Max(3, Deepest(CountdownTurnStart(n - 1, NumVal(n - 1)), fuel - 21))
  {
    CountdownTurnSteps(n, v);
    CountdownTurnDepth(n, v);
    DeepestAlong(CountdownTurnTrace(n, v), fuel, 3);
  }

  /** The 9 states of the last turn, for 0: the test succeeds and the body's value 0 ends the run. */
  function CountdownLastTrace(v: Val): seq<State>
  {
    var env := CountdownEnv(0);
    var recur := CallExpr(CallExpr(V("countdown"), V("countdown")), AddExpr(V("n"), N(-1)));
    var k1 := IfBranchCont(N(0), recur, env, DoneCont);
    [
      CountdownTurnStart(0, v),
      State(InterpMode, CompareExpr(V("n"), N(0)), env, v, k1),
      State(InterpMode, V("n"), env, v, RightThenCompCont(N(0), env, k1)),
      State(ContinueMode, V("n"), env, NumVal(0), RightThenCompCont(N(0), env, k1)),
      State(InterpMode, N(0), env, NumVal(0), CompCont(NumVal(0), k1)),
      State(ContinueMode, N(0), env, NumVal(0), CompCont(NumVal(0), k1)),
      State(ContinueMode, N(0), env, BoolVal(true), k1),
      State(InterpMode, N(0), env, BoolVal(true), DoneCont),
      State(ContinueMode, N(0), env, NumVal(0), DoneCont)
    ]
  }

  lemma CountdownLastSteps(v: Val)
    ensures Walks(Next, CountdownLastTrace(v), 0, 8)
  {
    var tr := CountdownLastTrace(v);
    forall i, f: nat | 0 <= i < 8
      ensures !Final(tr[i]) && Next(tr[i], f) == Ok(tr[i + 1])
    {
      if i == 0 {
      } else if i == 1 {
      } else if i == 2 {
      } else if i == 3 {
      } else if i == 4 {
      } else if i == 5 {
      } else if i == 6 {
      } else if i == 7 {
      }
    }
  }

  lemma CountdownLastDepth(v: Val)
    ensures forall i :: 0 <= i < |CountdownLastTrace(v)| ==> Depth(CountdownLastTrace(v)[i].cont) <= 3
  {
    var tr := CountdownLastTrace(v);
    var k1 := tr[1].cont;
    assert Depth(k1) == 2;
    forall i | 0 <= i < 9
      ensures Depth(tr[i].cont) <= 3
    {
      if i == 0 {
      } else if i == 1 {
      } else if i == 2 {
      } else if i == 3 {
      } else if i == 4 {
      } else if i == 5 {
      } else if i == 6 {
      } else if i == 7 {
      } else if i == 8 {
      }
    }
  }

  /** The last turn stays within three frames. */
  lemma CountdownLastTurn(v: Val, fuel: nat)
    ensures Deepest(CountdownTurnStart(0, v), fuel) <= 3
  {
    var tr := CountdownLastTrace(v);
    CountdownLastSteps(v);
    CountdownLastDepth(v);
    DeepestAlong(tr, fuel, 3);
    if fuel >= 8 {
      assert Final(tr[8]);
      assert Deepest(tr[8], fuel - 8) == 1;
    }
  }

  /** From the top of the body for any `n >= 0`, the countdown never holds more than three frames. */
  lemma {:induction false} CountdownDepth(n: int32, v: Val, fuel: nat)
    requires n >= 0
    ensures Deepest(CountdownTurnStart(n, v), fuel) <= 3
    decreases n
  {
    if n == 0 {
      CountdownLastTurn(v, fuel);
    } else {
      CountdownTurn(n, v, fuel);
      if fuel >= 21 {
        CountdownDepth(n - 1, NumVal(n - 1), fuel - 21);
      }
    }
  }

  /** The 14 states from the start of the program to the top of the body for `arg`. */
  function CountdownEntryTrace(arg: int32, v: Val): seq<State>
  {
    var selfEnv := SelfEnv("countdown", "n", CountdownBody());
    var outer := selfEnv.val;
    var inner := FunVal("n", CountdownBody(), selfEnv);
    var selfApp := CallExpr(V("countdown"), V("countdown"));
    var k1 := LetBodyCont("countdown", CallExpr(selfApp, N(arg)), EmptyEnv, DoneCont);
    var k4 := ArgThenCallCont(N(arg), selfEnv, DoneCont);
    [
      Initial(Recursive("countdown", "n", CountdownBody(), arg), v),
      State(InterpMode, FunExpr("countdown", FunExpr("n", CountdownBody())), EmptyEnv, v, k1),
      State(ContinueMode, FunExpr("countdown", FunExpr("n", CountdownBody())), EmptyEnv, outer, k1),
      State(InterpMode, CallExpr(selfApp, N(arg)), selfEnv, outer, DoneCont),
      State(InterpMode, selfApp, selfEnv, outer, k4),
      State(InterpMode, V("countdown"), selfEnv, outer, ArgThenCallCont(V("countdown"), selfEnv, k4)),
      State(ContinueMode, V("countdown"), selfEnv, outer, ArgThenCallCont(V("countdown"), selfEnv, k4)),
      State(InterpMode, V("countdown"), selfEnv, outer, CallCont(outer, k4)),
      State(ContinueMode, V("countdown"), selfEnv, outer, CallCont(outer, k4)),
      State(InterpMode, FunExpr("n", CountdownBody()), selfEnv, outer, k4),
      State(ContinueMode, FunExpr("n", CountdownBody()), selfEnv, inner, k4),
      State(InterpMode, N(arg), selfEnv, inner, CallCont(inner, DoneCont)),
      State(ContinueMode, N(arg), selfEnv, NumVal(arg), CallCont(inner, DoneCont)),
      CountdownTurnStart(arg, NumVal(arg))
    ]
  }

  /** The entry binds the outer closure and applies it to itself. */
  lemma CountdownEntryApplies(arg: int32, v: Val)
    ensures Walks(Next, CountdownEntryTrace(arg, v), 0, 7)
  {
    var tr := CountdownEntryTrace(arg, v);
    var selfEnv := SelfEnv("countdown", "n", CountdownBody());
    assert Environment.Lookup(selfEnv, "countdown") == Ok(selfEnv.val);
    forall i, f: nat | 0 <= i < 7
      ensures !Final(tr[i]) && Next(tr[i], f) == Ok(tr[i + 1])
    {
      if i == 0 {
      } else if i == 1 {
      } else if i == 2 {
      } else if i == 3 {
      } else if i == 4 {
      } else if i == 5 {
      } else if i == 6 {
      }
    }
  }

  /** The entry then calls the inner closure with the argument. */
  lemma CountdownEntryCalls(arg: int32, v: Val)
    ensures Walks(Next, CountdownEntryTrace(arg, v), 7, 13)
  {
    var tr := CountdownEntryTrace(arg, v);
    forall i, f: nat | 7 <= i < 13
      ensures !Final(tr[i]) && Next(tr[i], f) == Ok(tr[i + 1])
    {
      if i == 7 {
      } else if i == 8 {
      } else if i == 9 {
      } else if i == 10 {
      } else if i == 11 {
      } else if i == 12 {
      }
    }
  }

  lemma CountdownEntrySteps(arg: int32, v: Val)
    ensures Walks(Next, CountdownEntryTrace(arg, v), 0, 13)
  {
    CountdownEntryApplies(arg, v);
    CountdownEntryCalls(arg, v);
    JoinWalks(Next, CountdownEntryTrace(arg, v), 0, 7, 13);
  }

  lemma CountdownEntryDepth(arg: int32, v: Val)
    ensures forall i :: 0 <= i < |CountdownEntryTrace(arg, v)| ==> Depth(CountdownEntryTrace(arg, v)[i].cont) <= 3
  {
    var tr := CountdownEntryTrace(arg, v);
    var selfEnv := SelfEnv("countdown", "n", CountdownBody());
    var k1 := LetBodyCont("countdown", CallExpr(CallExpr(V("countdown"), V("countdown")), N(arg)), EmptyEnv, DoneCont);
    var k4 := ArgThenCallCont(N(arg), selfEnv, DoneCont);
    assert Depth(DoneCont) == 1;
    assert Depth(k4) == 2 && Depth(k1) == 2;
    forall i | 0 <= i < 14
      ensures Depth(tr[i].cont) <= 3
    {
      if i == 0 {
      } else if i == 1 {
      } else if i == 2 {
      } else if i == 3 {
      } else if i == 4 {
      } else if i == 5 {
      } else if i == 6 {
      } else if i == 7 {
      } else if i == 8 {
      } else if i == 9 {
      } else if i == 10 {
      } else if i == 11 {
      } else if i == 12 {
      } else if i == 13 {
      }
    }
  }

  /**
   * The countdown of the tests runs in constant stack: whatever its start,
   * every state of the run holds at most three frames, `DoneCont` included.
   */
  lemma CountdownStaysShallow(arg: int32, v: Val, fuel: nat)
    requires arg >= 0
    ensures Deepest(Initial(Recursive("countdown", "n", CountdownBody(), arg), v), fuel) <= 3
  {
    var tr := CountdownEntryTrace(arg, v);
    CountdownEntrySteps(arg, v);
    CountdownEntryDepth(arg, v);
    DeepestAlong(tr, fuel, 3);
    if fuel >= 13 {
      CountdownDepth(arg, NumVal(arg), fuel - 13);
    }
  }
}
