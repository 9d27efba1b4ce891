/**
 * How the continuation machine of step.hpp relates to the direct evaluator.
 *
 * The two agree except for one thing: the frames of `+` and `*` run their
 * right operand in the environment the machine holds when the left operand
 * has finished (cont.cpp:39, cont.cpp:73 assign `Step::env` to itself), not
 * in the environment saved with the frame. A left operand that binds names
 * (a `_let` or a call) leaves its own environment behind, and the right
 * operand then sees those bindings.
 *
 * The proofs are done once for the machine as written and for the machine
 * with those two frames restoring their saved environment: the first agrees
 * with `interp` on `Safe` programs, the second on every program.
 */
module Agreement {

  import opened Syntax
  import opened Outcomes
  import opened Environment
  import Values
  import opened Evaluator
  import opened Machine

  /** `step_continue`, where `restoring` makes `+` and `*` resume in the environment saved with the frame. */
  function Resume(s: State, fuel: nat, restoring: bool): (r: Result<State>)
    ensures !restoring ==> r == StepContinueSpec(s, fuel)
    ensures restoring && (s.cont.RightThenAddCont? || s.cont.RightThenMultCont?) ==>
              r.Ok? && r.value.env == s.cont.env && r.value.expr == s.cont.rhs && r.value.mode == InterpMode
  {
    if restoring && (s.cont.RightThenAddCont? || s.cont.RightThenMultCont?) then
      StepContinueSpec(s.(env := s.cont.env), fuel)
    else StepContinueSpec(s, fuel)
  }

  /** The driver loop of `Run` over `Resume`. */
  function RunWith(s: State, fuel: nat, restoring: bool): Result<Val>
    decreases fuel
  {
    if fuel == 0 then OutOfFuel
    else if s.mode == InterpMode then
      var t :- StepInterpSpec(s);
      RunWith(t, fuel - 1, restoring)
    else if s.cont == DoneCont then Ok(s.val)
    else
      var t :- Resume(s, fuel - 1, restoring);
      RunWith(t, fuel - 1, restoring)
  }

  /** Without restoring, `RunWith` is the driver of step.hpp. */
  lemma {:induction false} RunWithIsRun(s: State, fuel: nat)
    ensures RunWith(s, fuel, false) == Run(s, fuel)
    decreases fuel
  {
    if fuel > 0 {
      if s.mode == InterpMode {
        if StepInterpSpec(s).Ok? {
          RunWithIsRun(StepInterpSpec(s).value, fuel - 1);
        }
      } else if s.cont != DoneCont && StepContinueSpec(s, fuel - 1).Ok? {
        RunWithIsRun(StepContinueSpec(s, fuel - 1).value, fuel - 1);
      }
    }
  }

  /** Evaluating `e` on the machine ends in the environment it started in. */
  predicate Neutral(e: Expr)
  {
    match e
    case NumExpr(_) => true
    case VarExpr(_) => true
    case BoolExpr(_) => true
    case FunExpr(_, _) => true
    case AddExpr(_, rhs) => Neutral(rhs)
    case MultExpr(_, rhs) => Neutral(rhs)
    case CompareExpr(_, rhs) => Neutral(rhs)
    case IfExpr(_, thenPart, elsePart) => Neutral(thenPart) && Neutral(elsePart)
    case LetExpr(_, _, _) => false
    case CallExpr(_, _) => false
  }

  /** Every left operand of `+` and `*` in `e`, closure bodies included, is `Neutral`. */
  predicate Safe(e: Expr)
  {
    match e
    case NumExpr(_) => true
    case VarExpr(_) => true
    case BoolExpr(_) => true
    case FunExpr(_, body) => Safe(body)
    case AddExpr(lhs, rhs) => Neutral(lhs) && Safe(lhs) && Safe(rhs)
    case MultExpr(lhs, rhs) => Neutral(lhs) && Safe(lhs) && Safe(rhs)
    case CompareExpr(lhs, rhs) => Safe(lhs) && Safe(rhs)
    case IfExpr(c, thenPart, elsePart) => Safe(c) && Safe(thenPart) && Safe(elsePart)
    case LetExpr(_, rhs, body) => Safe(rhs) && Safe(body)
    case CallExpr(f, a) => Safe(f) && Safe(a)
  }

  /** Every closure reachable from the value has a `Safe` body. */
  predicate SafeVal(v: Val)
  {
    match v
    case NumVal(_) => true
    case BoolVal(_) => true
    case FunVal(_, body, env) => Safe(body) && SafeEnv(env)
  }

  predicate SafeEnv(env: Env)
  {
    match env
    case EmptyEnv => true
    case ExtendedEnv(rest, _, val) => SafeEnv(rest) && SafeVal(val)
  }

  lemma {:induction false} LookupKeepsSafe(env: Env, name: string)
    requires SafeEnv(env) && Lookup(env, name).Ok?
    ensures SafeVal(Lookup(env, name).value)
  {
    if env.name != name {
      LookupKeepsSafe(env.rest, name);
    }
  }

  /** What the proofs below ask of a program: nothing when restoring, `Safe` code and environment otherwise. */
  predicate Admissible(e: Expr, env: Env, restoring: bool)
  {
    restoring || (Safe(e) && SafeEnv(env))
  }

  /**
   * When the direct evaluator answers `Ok(w)`, the machine started on `e`
   * with stack `k` reaches continue mode with `w` on the same stack within
   * `m` steps, and from then on behaves as from that state. As written, a
   * `Neutral` expression also ends in the environment it started with.
   */
  lemma {:induction false} RunFollowsInterp(e: Expr, env: Env, v: Val, k: Cont, fuel: nat, restoring: bool)
    returns (t: State, m: nat)
    requires Admissible(e, env, restoring) && Interp(e, env, fuel).Ok?
    ensures t.mode == ContinueMode && t.val == Interp(e, env, fuel).value && t.cont == k
    ensures !restoring ==> SafeVal(t.val) && (Neutral(e) ==> t.env == env)
    ensures forall n: nat :: n >= m + fuel ==>
              RunWith(State(InterpMode, e, env, v, k), n, restoring) == RunWith(t, n - m, restoring)
    decreases fuel
  {
    var s := State(InterpMode, e, env, v, k);
    match e
    case NumExpr(_) =>
      t, m := StepInterpSpec(s).value, 1;
    case BoolExpr(_) =>
      t, m := StepInterpSpec(s).value, 1;
    case FunExpr(_, _) =>
      t, m := StepInterpSpec(s).value, 1;
    case VarExpr(name) =>
      if !restoring {
        LookupKeepsSafe(env, name);
      }
      t, m := StepInterpSpec(s).value, 1;
    case AddExpr(lhs, rhs) =>
      t, m := BinaryFollows(s, fuel, restoring);
    case MultExpr(lhs, rhs) =>
      t, m := BinaryFollows(s, fuel, restoring);
    case CompareExpr(lhs, rhs) =>
      t, m := BinaryFollows(s, fuel, restoring);
    case LetExpr(x, rhs, body) =>
      t, m := LetFollows(s, fuel, restoring);
    case IfExpr(c, thenPart, elsePart) =>
      t, m := IfFollows(s, fuel, restoring);
    case CallExpr(f, a) =>
      t, m := CallFollows(s, fuel, restoring);
  }

  /** `RunFollowsInterp` for `+`, `*` and `==`: left operand, right operand, then the operation. */
  lemma {:induction false} BinaryFollows(s: State, fuel: nat, restoring: bool) returns (t: State, m: nat)
    requires s.mode == InterpMode && (s.expr.AddExpr? || s.expr.MultExpr? || s.expr.CompareExpr?)
    requires Admissible(s.expr, s.env, restoring) && Interp(s.expr, s.env, fuel).Ok?
    ensures t.mode == ContinueMode && t.val == Interp(s.expr, s.env, fuel).value && t.cont == s.cont
    ensures !restoring ==> SafeVal(t.val) && (Neutral(s.expr) ==> t.env == s.env)
    ensures forall n: nat :: n >= m + fuel ==> RunWith(s, n, restoring) == RunWith(t, n - m, restoring)
    decreases fuel, 0
  {
    var e, env, k := s.expr, s.env, s.cont;
    var w1 := Interp(e.lhs, env, fuel - 1).value;
    var w2 := Interp(e.rhs, env, fuel - 1).value;
    var s1 := StepInterpSpec(s).value;
    var t1, m1 := RunFollowsInterp(e.lhs, env, s.val, s1.cont, fuel - 1, restoring);
    var u := Resume(t1, 0, restoring).value;
    assert u.mode == InterpMode && u.expr == e.rhs && u.env == env && u.val == w1 && u.cont == OperatorFrame(e, w1, k);
    var t2, m2 := RunFollowsInterp(e.rhs, env, w1, u.cont, fuel - 1, restoring);
    var w := Interp(e, env, fuel).value;
    t, m := t2.(val := w, cont := k), m1 + m2 + 3;
    forall n: nat | n >= m + fuel
      ensures RunWith(s, n, restoring) == RunWith(t, n - m, restoring)
    {
      var rest := n - 3 - m1 - m2;
      assert RunWith(s, n, restoring) == RunWith(s1, n - 1, restoring);
      assert RunWith(s1, n - 1, restoring) == RunWith(t1, n - 1 - m1, restoring);
      assert RunWith(t1, n - 1 - m1, restoring) == RunWith(u, n - 2 - m1, restoring);
      assert RunWith(u, n - 2 - m1, restoring) == RunWith(t2, n - 2 - m1 - m2, restoring);
      OperatorResumes(e, env, fuel, t2, k, rest, restoring);
    }
  }

  /** The frame `+`, `*` or `==` leaves for the value of its right operand. */
  function OperatorFrame(e: Expr, lhsVal: Val, k: Cont): Cont
    requires e.AddExpr? || e.MultExpr? || e.CompareExpr?
  {
    if e.AddExpr? then AddCont(lhsVal, k) else if e.MultExpr? then MultCont(lhsVal, k) else CompCont(lhsVal, k)
  }

  /** With the right operand's value, the operator's frame gives what `interp` gives, with any fuel left. */
  lemma OperatorResumes(e: Expr, env: Env, fuel: nat, t: State, k: Cont, rest: nat, restoring: bool)
    requires e.AddExpr? || e.MultExpr? || e.CompareExpr?
    requires 1 <= fuel <= rest + 1 && Interp(e, env, fuel).Ok?
    requires t.mode == ContinueMode && t.val == Interp(e.rhs, env, fuel - 1).value
    requires t.cont == OperatorFrame(e, Interp(e.lhs, env, fuel - 1).value, k)
    ensures Resume(t, rest, restoring) == Ok(t.(val := Interp(e, env, fuel).value, cont := k))
  {
    var w1, w2 := Interp(e.lhs, env, fuel - 1).value, Interp(e.rhs, env, fuel - 1).value;
    if e.AddExpr? {
      AddToMonotone(w1, w2, fuel - 1, rest);
    } else if e.MultExpr? {
      MultWithMonotone(w1, w2, fuel - 1, rest);
    }
  }

  /** `RunFollowsInterp` for `_let`: the right-hand side, then the body in the extended environment. */
  lemma {:induction false} LetFollows(s: State, fuel: nat, restoring: bool) returns (t: State, m: nat)
    requires s.mode == InterpMode && s.expr.LetExpr?
    requires Admissible(s.expr, s.env, restoring) && Interp(s.expr, s.env, fuel).Ok?
    ensures t.mode == ContinueMode && t.val == Interp(s.expr, s.env, fuel).value && t.cont == s.cont
    ensures !restoring ==> SafeVal(t.val)
    ensures forall n: nat :: n >= m + fuel ==> RunWith(s, n, restoring) == RunWith(t, n - m, restoring)
    decreases fuel, 0
  {
    var e, env, k := s.expr, s.env, s.cont;
    var w1 := Interp(e.rhs, env, fuel - 1).value;
    var s1 := StepInterpSpec(s).value;
    var t1, m1 := RunFollowsInterp(e.rhs, env, s.val, s1.cont, fuel - 1, restoring);
    var u := Resume(t1, 0, restoring).value;
    assert u == State(InterpMode, e.body, ExtendedEnv(env, e.varStr, w1), w1, k);
    var t2, m2 := RunFollowsInterp(e.body, u.env, w1, k, fuel - 1, restoring);
    t, m := t2, m1 + m2 + 2;
    forall n: nat | n >= m + fuel
      ensures RunWith(s, n, restoring) == RunWith(t, n - m, restoring)
    {
      assert RunWith(s, n, restoring) == RunWith(s1, n - 1, restoring);
      assert RunWith(s1, n - 1, restoring) == RunWith(t1, n - 1 - m1, restoring);
      assert RunWith(t1, n - 1 - m1, restoring) == RunWith(u, n - 2 - m1, restoring);
    }
  }

  /** `RunFollowsInterp` for `_if`: the condition, then the branch `is_true` picks, in the saved environment. */
  lemma {:induction false} IfFollows(s: State, fuel: nat, restoring: bool) returns (t: State, m: nat)
    requires s.mode == InterpMode && s.expr.IfExpr?
    requires Admissible(s.expr, s.env, restoring) && Interp(s.expr, s.env, fuel).Ok?
    ensures t.mode == ContinueMode && t.val == Interp(s.expr, s.env, fuel).value && t.cont == s.cont
    ensures !restoring ==> SafeVal(t.val) && (Neutral(s.expr) ==> t.env == s.env)
    ensures forall n: nat :: n >= m + fuel ==> RunWith(s, n, restoring) == RunWith(t, n - m, restoring)
    decreases fuel, 0
  {
    var e, env, k := s.expr, s.env, s.cont;
    var w1 := Interp(e.condition, env, fuel - 1).value;
    var s1 := StepInterpSpec(s).value;
    var t1, m1 := RunFollowsInterp(e.condition, env, s.val, s1.cont, fuel - 1, restoring);
    var u := Resume(t1, 0, restoring).value;
    var branch := if Values.IsTrue(w1) then e.thenPart else e.elsePart;
    assert u == State(InterpMode, branch, env, w1, k);
    var t2, m2 := RunFollowsInterp(branch, env, w1, k, fuel - 1, restoring);
    t, m := t2, m1 + m2 + 2;
    forall n: nat | n >= m + fuel
      ensures RunWith(s, n, restoring) == RunWith(t, n - m, restoring)
    {
      assert RunWith(s, n, restoring) == RunWith(s1, n - 1, restoring);
      assert RunWith(s1, n - 1, restoring) == RunWith(t1, n - 1 - m1, restoring);
      assert RunWith(t1, n - 1 - m1, restoring) == RunWith(u, n - 2 - m1, restoring);
    }
  }

  /** `RunFollowsInterp` for a call: the callee, the argument, then the body on the caller's stack. */
  lemma {:induction false} CallFollows(s: State, fuel: nat, restoring: bool) returns (t: State, m: nat)
    requires s.mode == InterpMode && s.expr.CallExpr?
    requires Admissible(s.expr, s.env, restoring) && Interp(s.expr, s.env, fuel).Ok?
    ensures t.mode == ContinueMode && t.val == Interp(s.expr, s.env, fuel).value && t.cont == s.cont
    ensures !restoring ==> SafeVal(t.val)
    ensures forall n: nat :: n >= m + fuel ==> RunWith(s, n, restoring) == RunWith(t, n - m, restoring)
    decreases fuel, 0
  {
    var e, env, k := s.expr, s.env, s.cont;
    var f := Interp(e.toBeCalled, env, fuel - 1).value;
    var a := Interp(e.actualArg, env, fuel - 1).value;
    var s1 := StepInterpSpec(s).value;
    var t1, m1 := RunFollowsInterp(e.toBeCalled, env, s.val, s1.cont, fuel - 1, restoring);
    var u1 := Resume(t1, 0, restoring).value;
    assert u1 == State(InterpMode, e.actualArg, env, f, CallCont(f, k));
    var t2, m2 := RunFollowsInterp(e.actualArg, env, f, u1.cont, fuel - 1, restoring);
    var u2 := Resume(t2, 0, restoring).value;
    assert u2 == State(InterpMode, f.body, ExtendedEnv(f.env, f.formalArg, a), a, k);
    var t3, m3 := RunFollowsInterp(f.body, u2.env, a, k, fuel - 1, restoring);
    t, m := t3, m1 + m2 + m3 + 3;
    forall n: nat | n >= m + fuel
      ensures RunWith(s, n, restoring) == RunWith(t, n - m, restoring)
    {
      assert RunWith(s, n, restoring) == RunWith(s1, n - 1, restoring);
      assert RunWith(s1, n - 1, restoring) == RunWith(t1, n - 1 - m1, restoring);
      assert RunWith(t1, n - 1 - m1, restoring) == RunWith(u1, n - 2 - m1, restoring);
      assert RunWith(u1, n - 2 - m1, restoring) == RunWith(t2, n - 2 - m1 - m2, restoring);
      assert RunWith(t2, n - 2 - m1 - m2, restoring) == RunWith(u2, n - 3 - m1 - m2, restoring);
    }
  }

  /**
   * When the direct evaluator throws, the machine started on `e` with stack
   * `k` throws the same exception within `m` steps and `fuel` more, whatever
   * is beneath on the stack.
   */
  lemma {:induction false} RunFailsLikeInterp(e: Expr, env: Env, v: Val, k: Cont, fuel: nat, restoring: bool)
    returns (m: nat)
    requires Admissible(e, env, restoring) && Interp(e, env, fuel).Fail?
    ensures forall n: nat :: n >= m + fuel ==>
              RunWith(State(InterpMode, e, env, v, k), n, restoring) == Interp(e, env, fuel)
    decreases fuel
  {
    var s := State(InterpMode, e, env, v, k);
    if e.VarExpr? {
      m := 0;
    } else if e.AddExpr? || e.MultExpr? || e.CompareExpr? {
      m := BinaryFails(s, fuel, restoring);
    } else if e.LetExpr? {
      m := LetFails(s, fuel, restoring);
    } else if e.IfExpr? {
      m := IfFails(s, fuel, restoring);
    } else {
      m := CallFails(s, fuel, restoring);
    }
  }

  /** `RunFailsLikeInterp` for `+`, `*` and `==`: the left operand throws, or the right one, or the operation. */
  lemma {:induction false} BinaryFails(s: State, fuel: nat, restoring: bool) returns (m: nat)
    requires s.mode == InterpMode && (s.expr.AddExpr? || s.expr.MultExpr? || s.expr.CompareExpr?)
    requires Admissible(s.expr, s.env, restoring) && Interp(s.expr, s.env, fuel).Fail?
    ensures forall n: nat :: n >= m + fuel ==> RunWith(s, n, restoring) == Interp(s.expr, s.env, fuel)
    decreases fuel, 0
  {
    var e, env, k := s.expr, s.env, s.cont;
    var s1 := StepInterpSpec(s).value;
    if Interp(e.lhs, env, fuel - 1).Fail? {
      var m1 := RunFailsLikeInterp(e.lhs, env, s.val, s1.cont, fuel - 1, restoring);
      m := m1 + 1;
      forall n: nat | n >= m + fuel
        ensures RunWith(s, n, restoring) == Interp(e, env, fuel)
      {
        assert RunWith(s, n, restoring) == RunWith(s1, n - 1, restoring);
      }
    } else {
      var w1 := Interp(e.lhs, env, fuel - 1).value;
      var t1, m1 := RunFollowsInterp(e.lhs, env, s.val, s1.cont, fuel - 1, restoring);
      var u := Resume(t1, 0, restoring).value;
      assert u.mode == InterpMode && u.expr == e.rhs && u.env == env && u.val == w1 && u.cont == OperatorFrame(e, w1, k);
      if Interp(e.rhs, env, fuel - 1).Fail? {
        var m2 := RunFailsLikeInterp(e.rhs, env, w1, u.cont, fuel - 1, restoring);
        m := m1 + m2 + 2;
        forall n: nat | n >= m + fuel
          ensures RunWith(s, n, restoring) == Interp(e, env, fuel)
        {
          assert RunWith(s, n, restoring) == RunWith(s1, n - 1, restoring);
          assert RunWith(s1, n - 1, restoring) == RunWith(t1, n - 1 - m1, restoring);
          assert RunWith(t1, n - 1 - m1, restoring) == RunWith(u, n - 2 - m1, restoring);
        }
      } else {
        var t2, m2 := RunFollowsInterp(e.rhs, env, w1, u.cont, fuel - 1, restoring);
        m := m1 + m2 + 2;
        forall n: nat | n >= m + fuel
          ensures RunWith(s, n, restoring) == Interp(e, env, fuel)
        {
          assert RunWith(s, n, restoring) == RunWith(s1, n - 1, restoring);
          assert RunWith(s1, n - 1, restoring) == RunWith(t1, n - 1 - m1, restoring);
          assert RunWith(t1, n - 1 - m1, restoring) == RunWith(u, n - 2 - m1, restoring);
          assert RunWith(u, n - 2 - m1, restoring) == RunWith(t2, n - 2 - m1 - m2, restoring);
          OperatorFails(e, env, fuel, t2, k, n - 3 - m1 - m2, restoring);
        }
      }
    }
  }

  /** With the right operand's value, a `+` or `*` frame whose operation throws ends the run with that exception. */
  lemma OperatorFails(e: Expr, env: Env, fuel: nat, t: State, k: Cont, rest: nat, restoring: bool)
    requires e.AddExpr? || e.MultExpr?
    requires 1 <= fuel <= rest + 1 && Interp(e, env, fuel).Fail?
    requires Interp(e.lhs, env, fuel - 1).Ok? && Interp(e.rhs, env, fuel - 1).Ok?
    requires t.mode == ContinueMode && t.val == Interp(e.rhs, env, fuel - 1).value
    requires t.cont == OperatorFrame(e, Interp(e.lhs, env, fuel - 1).value, k)
    ensures RunWith(t, rest + 1, restoring) == Interp(e, env, fuel)
  {
    var w1, w2 := Interp(e.lhs, env, fuel - 1).value, Interp(e.rhs, env, fuel - 1).value;
    if e.AddExpr? {
      AddToMonotone(w1, w2, fuel - 1, rest);
    } else {
      MultWithMonotone(w1, w2, fuel - 1, rest);
    }
  }

  /** `RunFailsLikeInterp` for `_let`: the right-hand side throws, or the body. */
  lemma {:induction false} LetFails(s: State, fuel: nat, restoring: bool) returns (m: nat)
    requires s.mode == InterpMode && s.expr.LetExpr?
    requires Admissible(s.expr, s.env, restoring) && Interp(s.expr, s.env, fuel).Fail?
    ensures forall n: nat :: n >= m + fuel ==> RunWith(s, n, restoring) == Interp(s.expr, s.env, fuel)
    decreases fuel, 0
  {
    var e, env, k := s.expr, s.env, s.cont;
    var s1 := StepInterpSpec(s).value;
    if Interp(e.rhs, env, fuel - 1).Fail? {
      var m1 := RunFailsLikeInterp(e.rhs, env, s.val, s1.cont, fuel - 1, restoring);
      m := m1 + 1;
      forall n: nat | n >= m + fuel
        ensures RunWith(s, n, restoring) == Interp(e, env, fuel)
      {
        assert RunWith(s, n, restoring) == RunWith(s1, n - 1, restoring);
      }
    } else {
      var w1 := Interp(e.rhs, env, fuel - 1).value;
      var t1, m1 := RunFollowsInterp(e.rhs, env, s.val, s1.cont, fuel - 1, restoring);
      var u := Resume(t1, 0, restoring).value;
      assert u == State(InterpMode, e.body, ExtendedEnv(env, e.varStr, w1), w1, k);
      var m2 := RunFailsLikeInterp(e.body, u.env, w1, k, fuel - 1, restoring);
      m := m1 + m2 + 2;
      forall n: nat | n >= m + fuel
        ensures RunWith(s, n, restoring) == Interp(e, env, fuel)
      {
        assert RunWith(s, n, restoring) == RunWith(s1, n - 1, restoring);
        assert RunWith(s1, n - 1, restoring) == RunWith(t1, n - 1 - m1, restoring);
        assert RunWith(t1, n - 1 - m1, restoring) == RunWith(u, n - 2 - m1, restoring);
      }
    }
  }

  /** `RunFailsLikeInterp` for `_if`: the condition throws, or the branch it picks. */
  lemma {:induction false} IfFails(s: State, fuel: nat, restoring: bool) returns (m: nat)
    requires s.mode == InterpMode && s.expr.IfExpr?
    requires Admissible(s.expr, s.env, restoring) && Interp(s.expr, s.env, fuel).Fail?
    ensures forall n: nat :: n >= m + fuel ==> RunWith(s, n, restoring) == Interp(s.expr, s.env, fuel)
    decreases fuel, 0
  {
    var e, env, k := s.expr, s.env, s.cont;
    var s1 := StepInterpSpec(s).value;
    if Interp(e.condition, env, fuel - 1).Fail? {
      var m1 := RunFailsLikeInterp(e.condition, env, s.val, s1.cont, fuel - 1, restoring);
      m := m1 + 1;
      forall n: nat | n >= m + fuel
        ensures RunWith(s, n, restoring) == Interp(e, env, fuel)
      {
        assert RunWith(s, n, restoring) == RunWith(s1, n - 1, restoring);
      }
    } else {
      var w1 := Interp(e.condition, env, fuel - 1).value;
      var t1, m1 := RunFollowsInterp(e.condition, env, s.val, s1.cont, fuel - 1, restoring);
      var u := Resume(t1, 0, restoring).value;
      var branch := if Values.IsTrue(w1) then e.thenPart else e.elsePart;
      assert u == State(InterpMode, branch, env, w1, k);
      var m2 := RunFailsLikeInterp(branch, env, w1, k, fuel - 1, restoring);
      m := m1 + m2 + 2;
      forall n: nat | n >= m + fuel
        ensures RunWith(s, n, restoring) == Interp(e, env, fuel)
      {
        assert RunWith(s, n, restoring) == RunWith(s1, n - 1, restoring);
        assert RunWith(s1, n - 1, restoring) == RunWith(t1, n - 1 - m1, restoring);
        assert RunWith(t1, n - 1 - m1, restoring) == RunWith(u, n - 2 - m1, restoring);
      }
    }
  }

  /** `RunFailsLikeInterp` for a call: the callee throws, or the argument, or the closure's body. */
  lemma {:induction false} CallFails(s: State, fuel: nat, restoring: bool) returns (m: nat)
    requires s.mode == InterpMode && s.expr.CallExpr?
    requires Admissible(s.expr, s.env, restoring) && Interp(s.expr, s.env, fuel).Fail?
    ensures forall n: nat :: n >= m + fuel ==> RunWith(s, n, restoring) == Interp(s.expr, s.env, fuel)
    decreases fuel, 0
  {
    var e, env, k := s.expr, s.env, s.cont;
    var s1 := StepInterpSpec(s).value;
    if Interp(e.toBeCalled, env, fuel - 1).Fail? {
      var m1 := RunFailsLikeInterp(e.toBeCalled, env, s.val, s1.cont, fuel - 1, restoring);
      m := m1 + 1;
      forall n: nat | n >= m + fuel
        ensures RunWith(s, n, restoring) == Interp(e, env, fuel)
      {
        assert RunWith(s, n, restoring) == RunWith(s1, n - 1, restoring);
      }
    } else {
      var f := Interp(e.toBeCalled, env, fuel - 1).value;
      var t1, m1 := RunFollowsInterp(e.toBeCalled, env, s.val, s1.cont, fuel - 1, restoring);
      var u1 := Resume(t1, 0, restoring).value;
      assert u1 == State(InterpMode, e.actualArg, env, f, CallCont(f, k));
      if Interp(e.actualArg, env, fuel - 1).Fail? {
        var m2 := RunFailsLikeInterp(e.actualArg, env, f, u1.cont, fuel - 1, restoring);
        m := m1 + m2 + 2;
        forall n: nat | n >= m + fuel
          ensures RunWith(s, n, restoring) == Interp(e, env, fuel)
        {
          assert RunWith(s, n, restoring) == RunWith(s1, n - 1, restoring);
          assert RunWith(s1, n - 1, restoring) == RunWith(t1, n - 1 - m1, restoring);
          assert RunWith(t1, n - 1 - m1, restoring) == RunWith(u1, n - 2 - m1, restoring);
        }
      } else {
        var a := Interp(e.actualArg, env, fuel - 1).value;
        var t2, m2 := RunFollowsInterp(e.actualArg, env, f, u1.cont, fuel - 1, restoring);
        var u2 := Resume(t2, 0, restoring).value;
        assert u2 == State(InterpMode, f.body, ExtendedEnv(f.env, f.formalArg, a), a, k);
        var m3 := RunFailsLikeInterp(f.body, u2.env, a, k, fuel - 1, restoring);
        m := m1 + m2 + m3 + 3;
        forall n: nat | n >= m + fuel
          ensures RunWith(s, n, restoring) == Interp(e, env, fuel)
        {
          assert RunWith(s, n, restoring) == RunWith(s1, n - 1, restoring);
          assert RunWith(s1, n - 1, restoring) == RunWith(t1, n - 1 - m1, restoring);
          assert RunWith(t1, n - 1 - m1, restoring) == RunWith(u1, n - 2 - m1, restoring);
          assert RunWith(u1, n - 2 - m1, restoring) == RunWith(t2, n - 2 - m1 - m2, restoring);
          assert RunWith(t2, n - 2 - m1 - m2, restoring) == RunWith(u2, n - 3 - m1 - m2, restoring);
        }
      }
    }
  }

  /**
   * `interp_by_steps` gives what `interp` gives on every `Safe` program the
   * direct evaluator finishes, with a value or with an exception: some
   * number of steps `m` suffices.
   */
  lemma RunAgreesWithInterp(e: Expr, v: Val, fuel: nat) returns (m: nat)
    requires Safe(e) && (Interp(e, Empty, fuel).Ok? || Interp(e, Empty, fuel).Fail?)
    ensures forall n: nat :: n > m ==> Run(Initial(e, v), n) == Interp(e, Empty, fuel)
  {
    if Interp(e, Empty, fuel).Ok? {
      var t, m1 := RunFollowsInterp(e, Empty, v, DoneCont, fuel, false);
      m := m1 + fuel;
      forall n: nat | n > m
        ensures Run(Initial(e, v), n) == Interp(e, Empty, fuel)
      {
        RunWithIsRun(Initial(e, v), n);
        assert RunWith(Initial(e, v), n, false) == RunWith(t, n - m1, false);
      }
    } else {
      var m1 := RunFailsLikeInterp(e, Empty, v, DoneCont, fuel, false);
      m := m1 + fuel;
      forall n: nat | n > m
        ensures Run(Initial(e, v), n) == Interp(e, Empty, fuel)
      {
        RunWithIsRun(Initial(e, v), n);
      }
    }
  }

  /**
   * With `+` and `*` resuming in their saved environment, the machine gives
   * what `interp` gives on every program the direct evaluator finishes, with
   * a value or with an exception.
   */
  lemma RestoringRunAgreesWithInterp(e: Expr, v: Val, fuel: nat) returns (m: nat)
    requires Interp(e, Empty, fuel).Ok? || Interp(e, Empty, fuel).Fail?
    ensures forall n: nat :: n > m ==> RunWith(Initial(e, v), n, true) == Interp(e, Empty, fuel)
  {
    if Interp(e, Empty, fuel).Ok? {
      var t, m1 := RunFollowsInterp(e, Empty, v, DoneCont, fuel, true);
      m := m1 + fuel;
      forall n: nat | n > m
        ensures RunWith(Initial(e, v), n, true) == Interp(e, Empty, fuel)
      {
        assert RunWith(Initial(e, v), n, true) == RunWith(t, n - m1, true);
      }
    } else {
      var m1 := RunFailsLikeInterp(e, Empty, v, DoneCont, fuel, true);
      m := m1 + fuel;
    }
  }

  /** An answer that ends the run: a value or an exception. */
  predicate Finished(r: Result<Val>)
  {
    r.Ok? || r.Fail?
  }

  /**
   * What the top frame `k` of the restoring machine does with the value `v`
   * it resumes with, computed as `interp` computes that part of the program.
   */
  function FrameResult(k: Cont, v: Val, fuel: nat): Result<Val>
    requires k != DoneCont
  {
    match k
    case RightThenAddCont(rhs, env, _) =>
      var rhsVal :- Interp(rhs, env, fuel);
      AddTo(v, rhsVal, fuel)
    case AddCont(lhsVal, _) => AddTo(lhsVal, v, fuel)
    case RightThenMultCont(rhs, env, _) =>
      var rhsVal :- Interp(rhs, env, fuel);
      MultWith(v, rhsVal, fuel)
    case MultCont(lhsVal, _) => MultWith(lhsVal, v, fuel)
    case LetBodyCont(varStr, body, env, _) => Interp(body, ExtendedEnv(env, varStr, v), fuel)
    case IfBranchCont(thenPart, elsePart, env, _) =>
      if Values.IsTrue(v) then Interp(thenPart, env, fuel) else Interp(elsePart, env, fuel)
    case ArgThenCallCont(actualArg, env, _) =>
      var a :- Interp(actualArg, env, fuel);
      Call(v, a, fuel)
    case CallCont(toBeCalledVal, _) => Call(toBeCalledVal, v, fuel)
    case RightThenCompCont(rhs, env, _) =>
      var rhsVal :- Interp(rhs, env, fuel);
      Ok(BoolVal(Values.Equals(v, rhsVal)))
    case CompCont(lhsVal, _) => Ok(BoolVal(Values.Equals(lhsVal, v)))
  }

  /** The answer `r` carried through the frames `k`; an answer that is not a value passes them unchanged. */
  function Pending(k: Cont, r: Result<Val>, fuel: nat): Result<Val>
  {
    if !r.Ok? || k == DoneCont then r
    else Pending(k.rest, FrameResult(k, r.value, fuel), fuel)
  }

  /** What the direct evaluator makes of a state of the restoring machine. */
  function Denotation(s: State, fuel: nat): Result<Val>
  {
    if s.mode == InterpMode then Pending(s.cont, Interp(s.expr, s.env, fuel), fuel)
    else Pending(s.cont, Ok(s.val), fuel)
  }

  lemma FrameResultMonotone(k: Cont, v: Val, fuel: nat, more: nat)
    requires k != DoneCont && fuel <= more && Finished(FrameResult(k, v, fuel))
    ensures FrameResult(k, v, more) == FrameResult(k, v, fuel)
  {
    match k
    case RightThenAddCont(rhs, env, _) =>
      InterpMonotone(rhs, env, fuel, more);
      if Interp(rhs, env, fuel).Ok? {
        AddToMonotone(v, Interp(rhs, env, fuel).value, fuel, more);
      }
    case AddCont(lhsVal, _) => AddToMonotone(lhsVal, v, fuel, more);
    case RightThenMultCont(rhs, env, _) =>
      InterpMonotone(rhs, env, fuel, more);
      if Interp(rhs, env, fuel).Ok? {
        MultWithMonotone(v, Interp(rhs, env, fuel).value, fuel, more);
      }
    case MultCont(lhsVal, _) => MultWithMonotone(lhsVal, v, fuel, more);
    case LetBodyCont(varStr, body, env, _) => InterpMonotone(body, ExtendedEnv(env, varStr, v), fuel, more);
    case IfBranchCont(thenPart, elsePart, env, _) =>
      if Values.IsTrue(v) {
        InterpMonotone(thenPart, env, fuel, more);
      } else {
        InterpMonotone(elsePart, env, fuel, more);
      }
    case ArgThenCallCont(actualArg, env, _) =>
      InterpMonotone(actualArg, env, fuel, more);
      if Interp(actualArg, env, fuel).Ok? {
        CallMonotone(v, Interp(actualArg, env, fuel).value, fuel, more);
      }
    case CallCont(toBeCalledVal, _) => CallMonotone(toBeCalledVal, v, fuel, more);
    case RightThenCompCont(rhs, env, _) => InterpMonotone(rhs, env, fuel, more);
    case CompCont(_, _) =>
  }

  /** An answer the frames finish with stays the same with more fuel. */
  lemma {:induction false} PendingMonotone(k: Cont, r: Result<Val>, fuel: nat, more: nat)
    requires fuel <= more && Finished(Pending(k, r, fuel))
    ensures Pending(k, r, more) == Pending(k, r, fuel)
    decreases k
  {
    if r.Ok? && k != DoneCont {
      var next := FrameResult(k, r.value, fuel);
      assert Finished(next) by {
        if !next.Ok? {
          assert Pending(k.rest, next, fuel) == next;
        }
      }
      FrameResultMonotone(k, r.value, fuel, more);
      PendingMonotone(k.rest, next, fuel, more);
    }
  }

  /** A step in interp mode keeps the denotation, at the cost of one unit of fuel. */
  lemma InterpStepKeepsDenotation(s: State, fuel: nat)
    requires s.mode == InterpMode && StepInterpSpec(s).Ok?
    requires Finished(Denotation(StepInterpSpec(s).value, fuel))
    ensures Denotation(s, fuel + 1) == Denotation(StepInterpSpec(s).value, fuel)
  {
    var t := StepInterpSpec(s).value;
    var whole := Interp(s.expr, s.env, fuel + 1);
    if IsLeaf(s.expr) {
      assert Denotation(t, fuel) == Pending(s.cont, whole, fuel);
    } else {
      var part := Interp(t.expr, t.env, fuel);
      if part.Ok? {
        assert whole == FrameResult(t.cont, part.value, fuel);
      } else {
        assert whole == part;
      }
      assert Denotation(t, fuel) == Pending(s.cont, whole, fuel);
    }
    PendingMonotone(s.cont, whole, fuel, fuel + 1);
  }

  /** A step of the restoring machine in continue mode keeps the denotation, at the cost of one unit of fuel. */
  lemma ContinueStepKeepsDenotation(s: State, fuel: nat)
    requires s.mode == ContinueMode && s.cont != DoneCont && Resume(s, fuel, true).Ok?
    requires Finished(Denotation(Resume(s, fuel, true).value, fuel))
    ensures Denotation(s, fuel + 1) == Denotation(Resume(s, fuel, true).value, fuel)
  {
    var t := Resume(s, fuel, true).value;
    var next := FrameResult(s.cont, s.val, fuel);
    assert Denotation(t, fuel) == Pending(s.cont.rest, next, fuel) by {
      if s.cont.ArgThenCallCont? || s.cont.RightThenAddCont? || s.cont.RightThenMultCont?
        || s.cont.RightThenCompCont? {
        var operand := Interp(t.expr, t.env, fuel);
        if operand.Ok? {
          assert next == FrameResult(t.cont, operand.value, fuel);
        } else {
          assert next == operand;
        }
      }
    }
    assert Finished(next) by {
      if !next.Ok? {
        assert Pending(s.cont.rest, next, fuel) == next;
      }
    }
    FrameResultMonotone(s.cont, s.val, fuel, fuel + 1);
    PendingMonotone(s.cont.rest, next, fuel, fuel + 1);
  }

  /** A step that throws: the denotation throws the same exception. */
  lemma FailingStepIsDenotation(s: State, fuel: nat)
    requires s.mode == InterpMode ==> StepInterpSpec(s).Fail?
    requires s.mode == ContinueMode ==> s.cont != DoneCont && Resume(s, fuel, true).Fail?
    ensures s.mode == InterpMode ==> Denotation(s, fuel + 1) == Fail(StepInterpSpec(s).msg)
    ensures s.mode == ContinueMode ==> Denotation(s, fuel + 1) == Fail(Resume(s, fuel, true).msg)
  {
    if s.mode == ContinueMode {
      var next := FrameResult(s.cont, s.val, fuel);
      assert next == Fail(Resume(s, fuel, true).msg);
      FrameResultMonotone(s.cont, s.val, fuel, fuel + 1);
      assert Denotation(s, fuel + 1) == Pending(s.cont.rest, next, fuel + 1);
    }
  }

  /**
   * Whatever the restoring machine finishes with, a value or an exception,
   * is the denotation of the state it started from, within as much fuel as
   * it took steps.
   */
  lemma {:induction false} RestoringRunIsDenotation(s: State, n: nat)
    requires Finished(RunWith(s, n, true))
    ensures Denotation(s, n) == RunWith(s, n, true)
    decreases n
  {
    if s.mode == InterpMode {
      var step := StepInterpSpec(s);
      if step.Ok? {
        RestoringRunIsDenotation(step.value, n - 1);
        InterpStepKeepsDenotation(s, n - 1);
      } else {
        FailingStepIsDenotation(s, n - 1);
      }
    } else if s.cont != DoneCont {
      var step := Resume(s, n - 1, true);
      if step.Ok? {
        RestoringRunIsDenotation(step.value, n - 1);
        ContinueStepKeepsDenotation(s, n - 1);
      } else {
        FailingStepIsDenotation(s, n - 1);
      }
    }
  }

  /**
   * The converse of `RestoringRunAgreesWithInterp`: when the restoring machine
   * finishes in `n` steps, with a value or with an exception, `interp` finishes
   * within fuel `n` with the same answer.
   */
  lemma RestoringRunFinishesOnlyWithInterp(e: Expr, v: Val, n: nat)
    requires Finished(RunWith(Initial(e, v), n, true))
    ensures Interp(e, Empty, n) == RunWith(Initial(e, v), n, true)
  {
    RestoringRunIsDenotation(Initial(e, v), n);
  }

  /**
   * With `+` and `*` resuming in their saved environment, the machine
   * finishes exactly when `interp` does, and then with the same answer.
   */
  lemma RestoringRunTerminatesIffInterp(e: Expr, v: Val)
    ensures (exists fuel: nat :: Finished(Interp(e, Empty, fuel)))
        <==> (exists n: nat :: Finished(RunWith(Initial(e, v), n, true)))
  {
    if fuel: nat :| Finished(Interp(e, Empty, fuel)) {
      var m := RestoringRunAgreesWithInterp(e, v, fuel);
      assert Finished(RunWith(Initial(e, v), m + 1, true));
    }
    if n: nat :| Finished(RunWith(Initial(e, v), n, true)) {
      RestoringRunFinishesOnlyWithInterp(e, v, n);
      assert Finished(Interp(e, Empty, n));
    }
  }

  /**
   * `_let y = 5 _in (_let y = 1 _in y) + y`: `interp` gives 6, but the
   * machine as written evaluates the right `y` among the inner bindings and
   * gives 2; restoring the saved environment gives 6.
   */
  lemma LeftBindingsLeakIntoRightOperand(v: Val)
    ensures Interp(LeakProgram(), Empty, 4) == Ok(NumVal(6))
    ensures Run(Initial(LeakProgram(), v), 14) == Ok(NumVal(2))
    ensures RunWith(Initial(LeakProgram(), v), 14, true) == Ok(NumVal(6))
  {
    LeakAsWritten(v);
    LeakRestored(v);
  }

  /** `_let y = 5 _in (_let y = 1 _in y) + y`. */
  function LeakProgram(): Expr
  {
    LetExpr("y", NumExpr(5), AddExpr(LetExpr("y", NumExpr(1), VarExpr("y")), VarExpr("y")))
  }

  lemma LeakAsWritten(v: Val)
    ensures Run(Initial(LeakProgram(), v), 14) == Ok(NumVal(2))
  {
    var outer := ExtendedEnv(Empty, "y", NumVal(5));
    var inner := ExtendedEnv(outer, "y", NumVal(1));
    var frame := RightThenAddCont(VarExpr("y"), outer, DoneCont);
    var leftOperand := State(InterpMode, LetExpr("y", NumExpr(1), VarExpr("y")), outer, NumVal(5), frame);
    var leftDone := State(ContinueMode, VarExpr("y"), inner, NumVal(1), frame);
    assert Run(Initial(LeakProgram(), v), 14) == Run(leftOperand, 10);
    assert Run(leftOperand, 10) == Run(leftDone, 6);
  }

  lemma LeakRestored(v: Val)
    ensures RunWith(Initial(LeakProgram(), v), 14, true) == Ok(NumVal(6))
  {
    var outer := ExtendedEnv(Empty, "y", NumVal(5));
    var inner := ExtendedEnv(outer, "y", NumVal(1));
    var frame := RightThenAddCont(VarExpr("y"), outer, DoneCont);
    var leftOperand := State(InterpMode, LetExpr("y", NumExpr(1), VarExpr("y")), outer, NumVal(5), frame);
    var leftDone := State(ContinueMode, VarExpr("y"), inner, NumVal(1), frame);
    assert RunWith(Initial(LeakProgram(), v), 14, true) == RunWith(leftOperand, 10, true);
    assert RunWith(leftOperand, 10, true) == RunWith(leftDone, 6, true);
  }

  /**
   * `1(2)`: `interp` stops at the null pointer `NumVal::call` returns
   * (value.cpp:52-54), while the machine resumes the call frame forever,
   * because `NumVal::call_step` changes nothing (value.cpp:56-58).
   */
  lemma CallOfNumberLoopsOnMachine(v: Val, n: nat)
    ensures forall fuel: nat :: fuel >= 2 ==> Interp(CallExpr(NumExpr(1), NumExpr(2)), Empty, fuel) == Undefined
    ensures Run(Initial(CallExpr(NumExpr(1), NumExpr(2)), v), n) == OutOfFuel
  {
    var stuck := State(ContinueMode, NumExpr(2), Empty, NumVal(2), CallCont(NumVal(1), DoneCont));
    var init := Initial(CallExpr(NumExpr(1), NumExpr(2)), v);
    var callee := State(InterpMode, NumExpr(1), Empty, v, ArgThenCallCont(NumExpr(2), Empty, DoneCont));
    var arg := State(InterpMode, NumExpr(2), Empty, NumVal(1), CallCont(NumVal(1), DoneCont));
    if n >= 4 {
      NonFunctionCallLoops(stuck, n - 4);
      assert Run(init, n) == Run(callee, n - 1);
      assert Run(callee, n - 1) == Run(arg, n - 3);
      assert Run(arg, n - 3) == Run(stuck, n - 4);
    }
  }

  /** `g(g)`, the body of the self-application closure. */
  function SelfApply(): Expr
  {
    CallExpr(VarExpr("g"), VarExpr("g"))
  }

  /** `_let f = _fun (g) g(g) _in (_let f = _fun (x) 5 _in 0) + f(f)`. */
  function LeakDivergenceProgram(): Expr
  {
    LetExpr("f", FunExpr("g", SelfApply()),
      AddExpr(LetExpr("f", FunExpr("x", NumExpr(5)), NumExpr(0)), CallExpr(VarExpr("f"), VarExpr("f"))))
  }

  /** `g(g)` with `g` bound to `_fun (g) g(g)` never finishes on `interp`. */
  lemma {:induction false} SelfApplicationDiverges(fuel: nat)
    ensures Interp(SelfApply(), ExtendedEnv(Empty, "g", FunVal("g", SelfApply(), Empty)), fuel) == OutOfFuel
  {
    if fuel > 0 {
      SelfApplicationDiverges(fuel - 1);
    }
  }

  /**
   * `interp` never finishes `LeakDivergenceProgram()`: the right operand
   * calls the outer `f`, `_fun (g) g(g)`, on itself.
   */
  lemma LeakDivergenceProgramDiverges(n: nat)
    ensures Interp(LeakDivergenceProgram(), Empty, n) == OutOfFuel
  {
    var w := FunVal("g", SelfApply(), Empty);
    var outer := ExtendedEnv(Empty, "f", w);
    var five := FunVal("x", NumExpr(5), outer);
    var inner := ExtendedEnv(outer, "f", five);
    var sum := AddExpr(LetExpr("f", FunExpr("x", NumExpr(5)), NumExpr(0)), CallExpr(VarExpr("f"), VarExpr("f")));
    if n >= 3 {
      SelfApplicationDiverges(n - 3);
      assert Interp(CallExpr(VarExpr("f"), VarExpr("f")), outer, n - 2) == OutOfFuel;
      var left := Interp(LetExpr("f", FunExpr("x", NumExpr(5)), NumExpr(0)), outer, n - 2);
      assert Interp(FunExpr("x", NumExpr(5)), outer, n - 3).Ok? ==> Interp(NumExpr(0), inner, n - 3).Ok?;
      assert left.Ok? || left.OutOfFuel?;
      assert Interp(sum, outer, n - 1) == OutOfFuel;
    }
  }

  /** The closure `_fun (x) 5` the left operand of `LeakDivergenceProgram()` binds to `f`. */
  function FiveClosure(): Val
  {
    FunVal("x", NumExpr(5), ExtendedEnv(Empty, "f", FunVal("g", SelfApply(), Empty)))
  }

  /**
   * Once the left operand of `LeakDivergenceProgram()` is done, the machine
   * as written runs `f(f)` in the left operand's environment and gives 5.
   */
  lemma LeakedRightOperandGivesFive()
    ensures Run(State(ContinueMode, NumExpr(0), ExtendedEnv(FiveClosure().env, "f", FiveClosure()), NumVal(0),
                      RightThenAddCont(CallExpr(VarExpr("f"), VarExpr("f")), FiveClosure().env, DoneCont)), 9)
            == Ok(NumVal(5))
  {
    var five := FiveClosure();
    var inner := ExtendedEnv(five.env, "f", five);
    var leftDone := State(ContinueMode, NumExpr(0), inner, NumVal(0), RightThenAddCont(CallExpr(VarExpr("f"), VarExpr("f")), five.env, DoneCont));
    var call := State(InterpMode, CallExpr(VarExpr("f"), VarExpr("f")), inner, NumVal(0), AddCont(NumVal(0), DoneCont));
    var arg := State(InterpMode, VarExpr("f"), inner, five, CallCont(five, AddCont(NumVal(0), DoneCont)));
    assert Run(leftDone, 9) == Run(call, 8);
    var callee := State(ContinueMode, VarExpr("f"), inner, five, ArgThenCallCont(VarExpr("f"), inner, AddCont(NumVal(0), DoneCont)));
    var argDone := State(ContinueMode, VarExpr("f"), inner, five, CallCont(five, AddCont(NumVal(0), DoneCont)));
    assert Run(call, 8) == Run(callee, 6);
    assert Run(callee, 6) == Run(arg, 5);
    assert Run(arg, 5) == Run(argDone, 4);
    FiveClosureCallGivesFive();
  }

  /** Calling `_fun (x) 5` under a pending `0 + _` gives 5. */
  lemma FiveClosureCallGivesFive()
    ensures Run(State(ContinueMode, VarExpr("f"), ExtendedEnv(FiveClosure().env, "f", FiveClosure()), FiveClosure(),
                      CallCont(FiveClosure(), AddCont(NumVal(0), DoneCont))), 4)
            == Ok(NumVal(5))
  {
    var five := FiveClosure();
    var argDone := State(ContinueMode, VarExpr("f"), ExtendedEnv(five.env, "f", five), five, CallCont(five, AddCont(NumVal(0), DoneCont)));
    var called := State(ContinueMode, NumExpr(5), ExtendedEnv(five.env, "x", five), NumVal(5), AddCont(NumVal(0), DoneCont));
    assert Run(argDone, 4) == Run(called, 2);
  }

  /**
   * The machine as written finishes `LeakDivergenceProgram()` with 5: the
   * right operand `f(f)` sees the inner `f`, `_fun (x) 5`, that the left
   * operand bound (cont.cpp:39).
   */
  lemma LeakMakesDivergentProgramFinish(v: Val)
    ensures Run(Initial(LeakDivergenceProgram(), v), 17) == Ok(NumVal(5))
  {
    var w := FunVal("g", SelfApply(), Empty);
    var outer := ExtendedEnv(Empty, "f", w);
    var five := FiveClosure();
    var inner := ExtendedEnv(outer, "f", five);
    var frame := RightThenAddCont(CallExpr(VarExpr("f"), VarExpr("f")), outer, DoneCont);
    var sum := State(InterpMode, LeakDivergenceProgram().body, outer, w, DoneCont);
    var left := State(InterpMode, LetExpr("f", FunExpr("x", NumExpr(5)), NumExpr(0)), outer, w, frame);
    var leftDone := State(ContinueMode, NumExpr(0), inner, NumVal(0), frame);
    assert Run(Initial(LeakDivergenceProgram(), v), 17) == Run(sum, 14);
    assert Run(sum, 14) == Run(left, 13);
    assert Run(left, 13) == Run(leftDone, 9);
    LeakedRightOperandGivesFive();
  }

  /** The restoring machine, like `interp`, never finishes `LeakDivergenceProgram()`. */
  lemma RestoringRunDivergesOnLeakDivergenceProgram(v: Val, n: nat)
    ensures !Finished(RunWith(Initial(LeakDivergenceProgram(), v), n, true))
  {
    if Finished(RunWith(Initial(LeakDivergenceProgram(), v), n, true)) {
      RestoringRunFinishesOnlyWithInterp(LeakDivergenceProgram(), v, n);
      LeakDivergenceProgramDiverges(n);
    }
  }
}
