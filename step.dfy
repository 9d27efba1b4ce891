/**
 * The continuation machine: the shared state of step.hpp, each expression's
 * `step_interp` (expr.cpp), each frame's `step_continue` (cont.cpp), the
 * values' `call_step` (value.cpp) and the `interp_by_steps` driver.
 *
 * The source keeps the state in static fields that every step overwrites; here
 * it is one `Step` object. Each step is specified by a function from the old
 * state to the new one (or to the exception the step throws), and the driver
 * by `Run`, which applies those functions until the frame stack is `DoneCont`.
 */
module Machine {

  import opened Syntax
  import opened Outcomes
  import opened Environment
  import Values
  import Evaluator

  /** `Step::mode_t`. */
  datatype Mode = InterpMode | ContinueMode

  /** The five fields of `Step`: `expr` and `env` matter in interp mode, `val` in continue mode, `cont` in both. */
  datatype State = State(mode: Mode, expr: Expr, env: Env, val: Val, cont: Cont)

  const CantContinueDone := "can't continue done"

  /** `Expr::step_interp`: a leaf yields its value, any other node starts on its first part and pushes one frame. */
  function StepInterpSpec(s: State): (r: Result<State>)
  {
    match s.expr
    case NumExpr(rep) => Ok(s.(mode := ContinueMode, val := NumVal(rep)))
    case AddExpr(lhs, rhs) => Ok(s.(mode := InterpMode, expr := lhs, cont := RightThenAddCont(rhs, s.env, s.cont)))
    case MultExpr(lhs, rhs) => Ok(s.(mode := InterpMode, expr := lhs, cont := RightThenMultCont(rhs, s.env, s.cont)))
    case VarExpr(name) =>
      var v :- Lookup(s.env, name);
      Ok(s.(mode := ContinueMode, val := v))
    case BoolExpr(truth) => Ok(s.(mode := ContinueMode, val := BoolVal(truth)))
    case LetExpr(varStr, rhs, body) =>
      Ok(s.(mode := InterpMode, expr := rhs, cont := LetBodyCont(varStr, body, s.env, s.cont)))
    case IfExpr(condition, thenPart, elsePart) =>
      Ok(s.(mode := InterpMode, expr := condition, cont := IfBranchCont(thenPart, elsePart, s.env, s.cont)))
    case CompareExpr(lhs, rhs) => Ok(s.(mode := InterpMode, expr := lhs, cont := RightThenCompCont(rhs, s.env, s.cont)))
    case FunExpr(formalArg, body) => Ok(s.(mode := ContinueMode, val := FunVal(formalArg, body, s.env)))
    case CallExpr(toBeCalled, actualArg) =>
      Ok(s.(mode := InterpMode, expr := toBeCalled, cont := ArgThenCallCont(actualArg, s.env, s.cont)))
  }

  /**
   * `Cont::step_continue` on the top frame, with the resumed value in `s.val`.
   * Adding or multiplying a closure evaluates its body directly, within `fuel`.
   * The right operand of `+` and `*` runs in the current environment, not the
   * saved one.
   */
  function StepContinueSpec(s: State, fuel: nat): (r: Result<State>)
  {
    match s.cont
    case DoneCont => Fail(CantContinueDone)
    case RightThenAddCont(rhs, _, rest) => Ok(s.(mode := InterpMode, expr := rhs, cont := AddCont(s.val, rest)))
    case AddCont(lhsVal, rest) =>
      var v :- Evaluator.AddTo(lhsVal, s.val, fuel);
      Ok(s.(mode := ContinueMode, val := v, cont := rest))
    case RightThenMultCont(rhs, _, rest) => Ok(s.(mode := InterpMode, expr := rhs, cont := MultCont(s.val, rest)))
    case MultCont(lhsVal, rest) =>
      var v :- Evaluator.MultWith(lhsVal, s.val, fuel);
      Ok(s.(mode := ContinueMode, val := v, cont := rest))
    case LetBodyCont(varStr, body, env, rest) =>
      Ok(s.(mode := InterpMode, expr := body, env := ExtendedEnv(env, varStr, s.val), cont := rest))
    case IfBranchCont(thenPart, elsePart, env, rest) =>
      Ok(s.(mode := InterpMode, expr := if Values.IsTrue(s.val) then thenPart else elsePart, env := env, cont := rest))
    case ArgThenCallCont(actualArg, env, rest) =>
      Ok(s.(mode := InterpMode, expr := actualArg, env := env, cont := CallCont(s.val, rest)))
    case CallCont(toBeCalledVal, rest) => Ok(CallStepSpec(toBeCalledVal, s.val, rest, s))
    case RightThenCompCont(rhs, env, rest) =>
      Ok(s.(mode := InterpMode, expr := rhs, env := env, cont := CompCont(s.val, rest)))
    case CompCont(lhsVal, rest) =>
      Ok(s.(mode := ContinueMode, val := BoolVal(Values.Equals(lhsVal, s.val)), cont := rest))
  }

  /** `Val::call_step`: a closure continues with its body and `rest`; a number or boolean changes nothing. */
  function CallStepSpec(f: Val, actualArg: Val, rest: Cont, s: State): (r: State)
  {
    match f
    case FunVal(formalArg, body, env) =>
      s.(mode := InterpMode, expr := body, env := ExtendedEnv(env, formalArg, actualArg), cont := rest)
    case NumVal(_) => s
    case BoolVal(_) => s
  }

  /** The state `interp_by_steps` starts from; `val` keeps whatever it held. */
  function Initial(e: Expr, val: Val): State
  {
    State(InterpMode, e, Environment.Empty, val, DoneCont)
  }

  /**
   * The driver loop, at most `fuel` steps: step in interp mode; in continue
   * mode stop with `val` once the stack is `DoneCont`, otherwise continue the
   * top frame. An exception of any step ends the run with that exception.
   */
  function Run(s: State, fuel: nat): (r: Result<Val>)
    decreases fuel
  {
    if fuel == 0 then OutOfFuel
    else if s.mode == InterpMode then
      var t :- StepInterpSpec(s);
      Run(t, fuel - 1)
    else if s.cont == DoneCont then Ok(s.val)
    else
      var t :- StepContinueSpec(s, fuel - 1);
      Run(t, fuel - 1)
  }

  /** The static fields of `Step`, as one object. */
  class Step {
    var mode: Mode
    var expr: Expr
    var env: Env
    var val: Val
    var cont: Cont

    constructor (mode0: Mode, expr0: Expr, env0: Env, val0: Val, cont0: Cont)
      ensures mode == mode0 && expr == expr0 && env == env0 && val == val0 && cont == cont0
    {
      mode := mode0;
      expr := expr0;
      env := env0;
      val := val0;
      cont := cont0;
    }

    function Snapshot(): State
      reads this
    {
      State(mode, expr, env, val, cont)
    }

    /**
     * `expr->step_interp()`. Only a variable can throw, and `VarExpr::step_interp`
     * has entered continue mode before `lookup` throws.
     */
    method StepInterp() returns (r: Result<State>)
      modifies this
      ensures r == StepInterpSpec(old(Snapshot()))
      ensures r.Ok? ==> Snapshot() == r.value
      ensures r.Fail? ==> Snapshot() == old(Snapshot()).(mode := ContinueMode)
    {
      match expr {
      case NumExpr(rep) =>
        mode := ContinueMode;
        val := NumVal(rep);
      case AddExpr(lhs, rhs) =>
        mode := InterpMode;
        expr := lhs;
        cont := RightThenAddCont(rhs, env, cont);
      case MultExpr(lhs, rhs) =>
        mode := InterpMode;
        expr := lhs;
        cont := RightThenMultCont(rhs, env, cont);
      case VarExpr(name) =>
        mode := ContinueMode;
        var v := Lookup(env, name);
        if !v.Ok? {
          return v.PropagateFailure();
        }
        val := v.value;
      case BoolExpr(truth) =>
        mode := ContinueMode;
        val := BoolVal(truth);
      case LetExpr(varStr, rhs, body) =>
        mode := InterpMode;
        expr := rhs;
        cont := LetBodyCont(varStr, body, env, cont);
      case IfExpr(condition, thenPart, elsePart) =>
        mode := InterpMode;
        expr := condition;
        cont := IfBranchCont(thenPart, elsePart, env, cont);
      case CompareExpr(lhs, rhs) =>
        mode := InterpMode;
        expr := lhs;
        cont := RightThenCompCont(rhs, env, cont);
      case FunExpr(formalArg, body) =>
        mode := ContinueMode;
        val := FunVal(formalArg, body, env);
      case CallExpr(toBeCalled, actualArg) =>
        mode := InterpMode;
        expr := toBeCalled;
        cont := ArgThenCallCont(actualArg, env, cont);
      }
      r := Ok(Snapshot());
    }

    /**
     * `cont->step_continue()`. `DoneCont` throws before touching a field; the `+`
     * and `*` frames have entered continue mode before `add_to` or `mult_with`
     * throws.
     */
    method StepContinue(fuel: nat) returns (r: Result<State>)
      modifies this
      ensures r == StepContinueSpec(old(Snapshot()), fuel)
      ensures r.Ok? ==> Snapshot() == r.value
      ensures r.Fail? ==> Snapshot() == if old(cont) == DoneCont then old(Snapshot()) else old(Snapshot()).(mode := ContinueMode)
    {
      match cont {
      case DoneCont =>
        return Fail(CantContinueDone);
      case RightThenAddCont(rhs, _, rest) =>
        var lhsVal := val;
        mode := InterpMode;
        expr := rhs;
        cont := AddCont(lhsVal, rest);
      case AddCont(lhsVal, rest) =>
        var rhsVal := val;
        mode := ContinueMode;
        var sum := Evaluator.AddTo(lhsVal, rhsVal, fuel);
        if !sum.Ok? {
          return sum.PropagateFailure();
        }
        val := sum.value;
        cont := rest;
      case RightThenMultCont(rhs, _, rest) =>
        var lhsVal := val;
        mode := InterpMode;
        expr := rhs;
        cont := MultCont(lhsVal, rest);
      case MultCont(lhsVal, rest) =>
        var rhsVal := val;
        mode := ContinueMode;
        var product := Evaluator.MultWith(lhsVal, rhsVal, fuel);
        if !product.Ok? {
          return product.PropagateFailure();
        }
        val := product.value;
        cont := rest;
      case LetBodyCont(varStr, body, savedEnv, rest) =>
        mode := InterpMode;
        expr := body;
        env := ExtendedEnv(savedEnv, varStr, val);
        cont := rest;
      case IfBranchCont(thenPart, elsePart, savedEnv, rest) =>
        var conditionVal := val;
        mode := InterpMode;
        if Values.IsTrue(conditionVal) {
          expr := thenPart;
        } else {
          expr := elsePart;
        }
        env := savedEnv;
        cont := rest;
      case ArgThenCallCont(actualArg, savedEnv, rest) =>
        mode := InterpMode;
        expr := actualArg;
        env := savedEnv;
        cont := CallCont(val, rest);
      case CallCont(toBeCalledVal, rest) =>
        CallStep(toBeCalledVal, val, rest);
      case RightThenCompCont(rhs, savedEnv, rest) =>
        var lhsVal := val;
        mode := InterpMode;
        expr := rhs;
        env := savedEnv;
        cont := CompCont(lhsVal, rest);
      case CompCont(lhsVal, rest) =>
        var rhsVal := val;
        mode := ContinueMode;
        if Values.Equals(lhsVal, rhsVal) {
          val := BoolVal(true);
        } else {
          val := BoolVal(false);
        }
        cont := rest;
      }
      r := Ok(Snapshot());
    }

    /** `f->call_step(actualArg, rest)`. */
    method CallStep(f: Val, actualArg: Val, rest: Cont)
      modifies this
      ensures Snapshot() == CallStepSpec(f, actualArg, rest, old(Snapshot()))
    {
      match f
      case FunVal(formalArg, body, savedEnv) =>
        mode := InterpMode;
        expr := body;
        env := ExtendedEnv(savedEnv, formalArg, actualArg);
        cont := rest;
      case NumVal(_) =>
      case BoolVal(_) =>
    }

    /** `Step::interp_by_steps(e)`, with at most `fuel` steps. */
    method InterpBySteps(e: Expr, fuel: nat) returns (r: Result<Val>)
      modifies this
      ensures r == Run(Initial(e, old(val)), fuel)
    {
      mode := InterpMode;
      expr := e;
      env := Environment.Empty;
      cont := DoneCont;
      var n := fuel;
      while n > 0
        invariant Run(Snapshot(), n) == Run(Initial(e, old(val)), fuel)
        decreases n
      {
        if mode == InterpMode {
          var o := StepInterp();
          if !o.Ok? {
            return o.PropagateFailure();
          }
        } else if cont == DoneCont {
          return Ok(val);
        } else {
          var o := StepContinue(n - 1);
          if !o.Ok? {
            return o.PropagateFailure();
          }
        }
        n := n - 1;
      }
      return OutOfFuel;
    }
  }

  /** The first part of a compound expression: what `step_interp` evaluates first. */
  predicate IsLeaf(e: Expr)
  {
    e.NumExpr? || e.BoolExpr? || e.VarExpr? || e.FunExpr?
  }

  /**
   * `step_interp` on a leaf switches to continue mode with the leaf's value and
   * keeps the stack; on any other node it stays in interp mode on a smaller
   * part, keeps the environment and pushes exactly one frame on the old stack.
   */
  lemma StepInterpShape(s: State)
    ensures IsLeaf(s.expr) && !s.expr.VarExpr? ==>
              StepInterpSpec(s).Ok? && StepInterpSpec(s).value.mode == ContinueMode
              && StepInterpSpec(s).value.cont == s.cont
              && StepInterpSpec(s).value.val == Evaluator.Interp(s.expr, s.env, 1).value
    ensures s.expr.VarExpr? ==>
              StepInterpSpec(s) == (var v :- Lookup(s.env, s.expr.name); Ok(s.(mode := ContinueMode, val := v)))
    ensures !IsLeaf(s.expr) ==>
              StepInterpSpec(s).Ok? && StepInterpSpec(s).value.mode == InterpMode
              && StepInterpSpec(s).value.env == s.env
              && Size(StepInterpSpec(s).value.expr) < Size(s.expr)
              && !StepInterpSpec(s).value.cont.DoneCont?
              && StepInterpSpec(s).value.cont.rest == s.cont
              && Depth(StepInterpSpec(s).value.cont) == Depth(s.cont) + 1
  {
  }

  /** Resuming the empty stack is an error. */
  lemma ContinueDone(s: State, fuel: nat)
    requires s.cont == DoneCont
    ensures StepContinueSpec(s, fuel) == Fail("can't continue done")
  {
  }

  /**
   * The right operand of `+` and `*` is evaluated in the environment in force
   * when the left one finished; that of `==` in the environment saved with the frame.
   */
  lemma RightOperandEnvironment(s: State, fuel: nat)
    ensures s.cont.RightThenAddCont? || s.cont.RightThenMultCont? ==>
              StepContinueSpec(s, fuel).Ok? && StepContinueSpec(s, fuel).value.env == s.env
              && StepContinueSpec(s, fuel).value.mode == InterpMode
              && StepContinueSpec(s, fuel).value.expr == s.cont.rhs
              && Depth(StepContinueSpec(s, fuel).value.cont) == Depth(s.cont)
    ensures s.cont.RightThenCompCont? ==>
              StepContinueSpec(s, fuel).Ok? && StepContinueSpec(s, fuel).value.env == s.cont.env
              && StepContinueSpec(s, fuel).value.mode == InterpMode
              && StepContinueSpec(s, fuel).value.expr == s.cont.rhs
              && StepContinueSpec(s, fuel).value.cont == CompCont(s.val, s.cont.rest)
  {
  }

  /** A frame that finishes an operation pops itself and leaves the result in `val`. */
  lemma OperatorFramesPop(s: State, fuel: nat)
    ensures s.cont.AddCont? ==>
              StepContinueSpec(s, fuel)
              == (var v :- Evaluator.AddTo(s.cont.lhsVal, s.val, fuel); Ok(State(ContinueMode, s.expr, s.env, v, s.cont.rest)))
    ensures s.cont.MultCont? ==>
              StepContinueSpec(s, fuel)
              == (var v :- Evaluator.MultWith(s.cont.lhsVal, s.val, fuel); Ok(State(ContinueMode, s.expr, s.env, v, s.cont.rest)))
    ensures s.cont.CompCont? ==>
              StepContinueSpec(s, fuel)
              == Ok(State(ContinueMode, s.expr, s.env, BoolVal(Values.Equals(s.cont.lhsVal, s.val)), s.cont.rest))
  {
  }

  /** A let body runs in the saved environment extended with the resumed value; a conditional picks its branch by `is_true`. */
  lemma BindingFramesReplace(s: State, fuel: nat)
    ensures s.cont.LetBodyCont? ==>
              StepContinueSpec(s, fuel)
              == Ok(State(InterpMode, s.cont.body, ExtendedEnv(s.cont.env, s.cont.varStr, s.val), s.val, s.cont.rest))
    ensures s.cont.IfBranchCont? ==>
              StepContinueSpec(s, fuel)
              == Ok(State(InterpMode, if Values.IsTrue(s.val) then s.cont.thenPart else s.cont.elsePart,
                          s.cont.env, s.val, s.cont.rest))
    ensures s.cont.ArgThenCallCont? ==>
              StepContinueSpec(s, fuel)
              == Ok(State(InterpMode, s.cont.actualArg, s.cont.env, s.val, CallCont(s.val, s.cont.rest)))
  {
  }

  /**
   * Calling a closure replaces the call frame by nothing: the body runs on
   * `rest` itself, so a call in tail position does not grow the stack.
   */
  lemma TailCallAddsNoFrame(s: State, fuel: nat)
    requires s.cont.CallCont? && s.cont.toBeCalledVal.FunVal?
    ensures var f := s.cont.toBeCalledVal;
            StepContinueSpec(s, fuel)
            == Ok(State(InterpMode, f.body, ExtendedEnv(f.env, f.formalArg, s.val), s.val, s.cont.rest))
    ensures Depth(StepContinueSpec(s, fuel).value.cont) + 1 == Depth(s.cont)
  {
  }

  /**
   * Calling a number or a boolean leaves the state as it was, so the driver
   * resumes the same call frame forever.
   */
  lemma {:induction false} NonFunctionCallLoops(s: State, fuel: nat)
    requires s.mode == ContinueMode && s.cont.CallCont? && !s.cont.toBeCalledVal.FunVal?
    ensures Run(s, fuel) == OutOfFuel
  {
    if fuel > 0 {
      assert StepContinueSpec(s, fuel - 1) == Ok(s);
      NonFunctionCallLoops(s, fuel - 1);
    }
  }

  /** Whatever `val` held before, a run started in interp mode does not read it. */
  lemma {:induction false} RunIgnoresVal(e: Expr, env: Env, v1: Val, v2: Val, k: Cont, fuel: nat)
    ensures Run(State(InterpMode, e, env, v1, k), fuel) == Run(State(InterpMode, e, env, v2, k), fuel)
    decreases fuel
  {
    if fuel > 0 {
      var s1 := State(InterpMode, e, env, v1, k);
      var s2 := State(InterpMode, e, env, v2, k);
      if !IsLeaf(e) {
        var t1 := StepInterpSpec(s1).value;
        RunIgnoresVal(t1.expr, t1.env, v1, v2, t1.cont, fuel - 1);
      }
    }
  }

  /** One step of the driver: `step_interp` in interp mode, `step_continue` in continue mode. */
  function Next(s: State, fuel: nat): Result<State>
  {
    if s.mode == InterpMode then StepInterpSpec(s) else StepContinueSpec(s, fuel)
  }

  /** The state the driver stops in. */
  predicate Final(s: State)
  {
    s.mode == ContinueMode && s.cont == DoneCont
  }

  /** Each driver step is `Next`, until a `Final` state. */
  lemma RunByNext(s: State, fuel: nat)
    requires fuel > 0
    ensures Run(s, fuel) == if Final(s) then Ok(s.val) else (var t :- Next(s, fuel - 1); Run(t, fuel - 1))
  {
  }

  function Max(a: nat, b: nat): nat
  {
    if a < b then b else a
  }

  /**
   * The deepest stack among the states a driver with step function `next`
   * passes through in at most `fuel` steps. The lemmas below hold for any
   * step function; `Deepest` is this for the driver of step.hpp.
   */
  function DeepestUnder(next: (State, nat) -> Result<State>, s: State, fuel: nat): (r: nat)
    ensures r >= Depth(s.cont)
    decreases fuel
  {
    if fuel == 0 || Final(s) then Depth(s.cont)
    else
      match next(s, fuel - 1)
      case Ok(t) => Max(Depth(s.cont), DeepestUnder(next, t, fuel - 1))
      case _ => Depth(s.cont)
  }

  /** The deepest stack among the states the driver passes through in at most `fuel` steps. */
  function Deepest(s: State, fuel: nat): nat
  {
    DeepestUnder(Next, s, fuel)
  }

  /** The driver goes on from `s` and steps to `t`, whatever the fuel. */
  ghost predicate Steps(next: (State, nat) -> Result<State>, s: State, t: State)
  {
    !Final(s) && forall f: nat :: next(s, f) == Ok(t)
  }

  /** The driver steps from each of the states `lo` to `hi - 1` of a trace to the next. */
  ghost predicate Walks(next: (State, nat) -> Result<State>, tr: seq<State>, lo: nat, hi: nat)
    requires lo <= hi < |tr|
  {
    forall i :: lo <= i < hi ==> Steps(next, tr[i], tr[i + 1])
  }

  /** Two walks that meet make one. */
  lemma JoinWalks(next: (State, nat) -> Result<State>, tr: seq<State>, lo: nat, mid: nat, hi: nat)
    requires lo <= mid <= hi < |tr|
    requires Walks(next, tr, lo, mid) && Walks(next, tr, mid, hi)
    ensures Walks(next, tr, lo, hi)
  {
    forall i | lo <= i < hi
      ensures Steps(next, tr[i], tr[i + 1])
    {
      if i < mid {
        assert Walks(next, tr, lo, mid);
      } else {
        assert Walks(next, tr, mid, hi);
      }
    }
  }

  /** A step to `t` adds the depth of `s` to the deepest stack met from `t` on. */
  lemma DeepestStep(next: (State, nat) -> Result<State>, s: State, t: State, fuel: nat)
    requires fuel > 0 && Steps(next, s, t)
    ensures DeepestUnder(next, s, fuel) == Max(Depth(s.cont), DeepestUnder(next, t, fuel - 1))
  {
    assert next(s, fuel - 1) == Ok(t);
  }

  /**
   * Along a run that passes through the states `tr` from the `k`-th on, each
   * at most `bound` frames deep, the deepest stack stays within `bound` until
   * the last of them is reached.
   */
  lemma {:induction false} DeepestWithin(next: (State, nat) -> Result<State>, tr: seq<State>, k: nat, fuel: nat, bound: nat)
    requires k < |tr| && fuel < |tr| - k
    requires Walks(next, tr, k, |tr| - 1)
    requires forall i :: k <= i < |tr| ==> Depth(tr[i].cont) <= bound
    ensures DeepestUnder(next, tr[k], fuel) <= bound
    decreases |tr| - k
  {
    if fuel > 0 {
      DeepestStep(next, tr[k], tr[k + 1], fuel);
      DeepestWithin(next, tr, k + 1, fuel - 1, bound);
    }
  }

  /**
   * Along the same run, with `rest` more steps after the last of the states
   * `tr`, the deepest stack is `bound` or one met from that last state on.
   */
  lemma {:induction false} DeepestFrom(next: (State, nat) -> Result<State>, tr: seq<State>, k: nat, rest: nat, bound: nat)
    requires k < |tr|
    requires Walks(next, tr, k, |tr| - 1)
    requires forall i :: k <= i < |tr| ==> Depth(tr[i].cont) <= bound
    ensures DeepestUnder(next, tr[k], rest + (|tr| - 1 - k)) <= Max(bound, DeepestUnder(next, tr[|tr| - 1], rest))
    decreases |tr| - k
  {
    if k < |tr| - 1 {
      DeepestStep(next, tr[k], tr[k + 1], rest + (|tr| - 1 - k));
      DeepestFrom(next, tr, k + 1, rest, bound);
    }
  }

  /**
   * Along a run of the driver that passes through the states `tr`, each at
   * most `bound` frames deep, the deepest stack is `bound` or one met after
   * the last of them.
   */
  lemma DeepestAlong(tr: seq<State>, fuel: nat, bound: nat)
    requires |tr| >= 1
    requires Walks(Next, tr, 0, |tr| - 1)
    requires forall i :: 0 <= i < |tr| ==> Depth(tr[i].cont) <= bound
    ensures fuel < |tr| ==> Deepest(tr[0], fuel) <= bound
    ensures fuel >= |tr| - 1 ==> Deepest(tr[0], fuel) <= Max(bound, Deepest(tr[|tr| - 1], fuel - (|tr| - 1)))
  {
    if fuel < |tr| {
      DeepestWithin(Next, tr, 0, fuel, bound);
    }
    if fuel >= |tr| - 1 {
      DeepestFrom(Next, tr, 0, fuel - (|tr| - 1), bound);
    }
  }
}
