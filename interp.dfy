/**
 * The direct recursive evaluator: `Expr::interp` (expr.cpp) together with the
 * value operations it relies on, `Val::add_to`, `Val::mult_with` and
 * `Val::call` (value.cpp). They are mutually recursive because a closure's
 * `add_to`, `mult_with` and `call` evaluate its body.
 *
 * An evaluation may diverge, so every function takes `fuel`, one unit per
 * nested evaluation; `OutOfFuel` is the answer when it runs out. A call of a
 * number or a boolean returns a null pointer in the source; the model stops
 * there with `Undefined`.
 */
module Evaluator {

  import opened Int32
  import opened Syntax
  import opened Outcomes
  import opened Environment
  import Values

  const NotANumber := "not a number"
  const NoAddingBooleans := "no adding booleans"
  const NoMultiplyingBooleans := "no multiplying booleans"

  /** The messages of the exceptions an evaluation can end with. */
  ghost predicate IsRuntimeError(msg: string)
  {
    msg == NotANumber || msg == NoAddingBooleans || msg == NoMultiplyingBooleans
    || exists name :: msg == FreeVariable(name)
  }

  /** `Expr::interp`. Operands are evaluated left to right, the callee before the argument. */
  function Interp(e: Expr, env: Env, fuel: nat): (r: Result<Val>)
    ensures r.Fail? ==> IsRuntimeError(r.msg)
    decreases fuel, 1
  {
    if fuel == 0 then OutOfFuel
    else
      match e
      case NumExpr(rep) => Ok(NumVal(rep))
      case AddExpr(lhs, rhs) =>
        var lhsVal :- Interp(lhs, env, fuel - 1);
        var rhsVal :- Interp(rhs, env, fuel - 1);
        AddTo(lhsVal, rhsVal, fuel - 1)
      case MultExpr(lhs, rhs) =>
        var lhsVal :- Interp(lhs, env, fuel - 1);
        var rhsVal :- Interp(rhs, env, fuel - 1);
        MultWith(lhsVal, rhsVal, fuel - 1)
      case VarExpr(name) => Lookup(env, name)
      case BoolExpr(truth) => Ok(BoolVal(truth))
      case LetExpr(varStr, rhs, body) =>
        var rhsVal :- Interp(rhs, env, fuel - 1);
        Interp(body, ExtendedEnv(env, varStr, rhsVal), fuel - 1)
      case IfExpr(condition, thenPart, elsePart) =>
        var c :- Interp(condition, env, fuel - 1);
        if Values.IsTrue(c) then Interp(thenPart, env, fuel - 1) else Interp(elsePart, env, fuel - 1)
      case CompareExpr(lhs, rhs) =>
        var lhsVal :- Interp(lhs, env, fuel - 1);
        var rhsVal :- Interp(rhs, env, fuel - 1);
        Ok(BoolVal(Values.Equals(lhsVal, rhsVal)))
      case FunExpr(formalArg, body) => Ok(FunVal(formalArg, body, env))
      case CallExpr(toBeCalled, actualArg) =>
        var f :- Interp(toBeCalled, env, fuel - 1);
        var a :- Interp(actualArg, env, fuel - 1);
        Call(f, a, fuel - 1)
  }

  /**
   * `Val::add_to`. Numbers add modulo 2^32 (the sum is taken on `unsigned`);
   * a closure first evaluates its body in its own environment, with the
   * parameter unbound, and adds that.
   */
  function AddTo(v: Val, other: Val, fuel: nat): (r: Result<Val>)
    ensures r.Ok? ==> r.value.NumVal?
    ensures r.Fail? ==> IsRuntimeError(r.msg)
    decreases fuel, 0
  {
    match v
    case NumVal(rep) =>
      if other.NumVal? then Ok(NumVal(WrapAdd(rep, other.rep))) else Fail(NotANumber)
    case BoolVal(_) => Fail(NoAddingBooleans)
    case FunVal(_, body, env) =>
      if fuel == 0 then OutOfFuel
      else
        var b :- Interp(body, env, fuel - 1);
        AddTo(b, other, fuel - 1)
  }

  /** `Val::mult_with`: as `AddTo`, but the product is a signed `int` product, undefined on overflow. */
  function MultWith(v: Val, other: Val, fuel: nat): (r: Result<Val>)
    ensures r.Ok? ==> r.value.NumVal?
    ensures r.Fail? ==> IsRuntimeError(r.msg)
    decreases fuel, 0
  {
    match v
    case NumVal(rep) =>
      if !other.NumVal? then Fail(NotANumber)
      else if !InRange(rep as int * other.rep as int) then Undefined
      else Ok(NumVal((rep as int * other.rep as int) as int32))
    case BoolVal(_) => Fail(NoMultiplyingBooleans)
    case FunVal(_, body, env) =>
      if fuel == 0 then OutOfFuel
      else
        var b :- Interp(body, env, fuel - 1);
        MultWith(b, other, fuel - 1)
  }

  /** `Val::call`: a closure runs its body with the parameter bound in front of its own environment. */
  function Call(f: Val, actualArg: Val, fuel: nat): (r: Result<Val>)
    ensures r.Fail? ==> IsRuntimeError(r.msg)
    ensures !f.FunVal? ==> r == Undefined
    decreases fuel, 2
  {
    match f
    case FunVal(formalArg, body, env) => Interp(body, ExtendedEnv(env, formalArg, actualArg), fuel)
    case NumVal(_) => Undefined
    case BoolVal(_) => Undefined
  }

  /** The arithmetic of numbers, by itself: wrapping sums, products when they fit, and the error cases. */
  lemma ArithmeticOnValues(a: Val, b: Val, fuel: nat)
    ensures a.NumVal? && b.NumVal? ==> AddTo(a, b, fuel) == Ok(NumVal(WrapAdd(a.rep, b.rep)))
    ensures a.NumVal? && b.NumVal? && InRange(a.rep as int * b.rep as int) ==>
              MultWith(a, b, fuel) == Ok(NumVal((a.rep as int * b.rep as int) as int32))
    ensures a.NumVal? && !b.NumVal? ==> AddTo(a, b, fuel) == Fail("not a number") && MultWith(a, b, fuel) == Fail("not a number")
    ensures a.BoolVal? ==> AddTo(a, b, fuel) == Fail("no adding booleans") && MultWith(a, b, fuel) == Fail("no multiplying booleans")
  {
  }

  /**
   * Adding to or multiplying a closure: its body is evaluated in the captured
   * environment, without the parameter bound, and the value it gives is added
   * or multiplied in its place.
   */
  lemma ClosureArithmetic(f: Val, other: Val, fuel: nat)
    requires f.FunVal? && fuel >= 1 && Interp(f.body, f.env, fuel - 1).Ok?
    ensures AddTo(f, other, fuel) == AddTo(Interp(f.body, f.env, fuel - 1).value, other, fuel - 1)
    ensures MultWith(f, other, fuel) == MultWith(Interp(f.body, f.env, fuel - 1).value, other, fuel - 1)
  {
  }

  /** More fuel never changes an answer that was reached. */
  lemma {:induction false} InterpMonotone(e: Expr, env: Env, fuel: nat, more: nat)
    requires fuel <= more && !Interp(e, env, fuel).OutOfFuel?
    ensures Interp(e, env, more) == Interp(e, env, fuel)
    decreases fuel, 1
  {
    match e
    case NumExpr(_) =>
    case VarExpr(_) =>
    case BoolExpr(_) =>
    case FunExpr(_, _) =>
    case AddExpr(_, _) => OperandsMonotone(e, env, fuel, more);
    case MultExpr(_, _) => OperandsMonotone(e, env, fuel, more);
    case CompareExpr(_, _) => OperandsMonotone(e, env, fuel, more);
    case LetExpr(varStr, rhs, body) =>
      InterpMonotone(rhs, env, fuel - 1, more - 1);
      if Interp(rhs, env, fuel - 1).Ok? {
        InterpMonotone(body, ExtendedEnv(env, varStr, Interp(rhs, env, fuel - 1).value), fuel - 1, more - 1);
      }
    case IfExpr(condition, thenPart, elsePart) =>
      InterpMonotone(condition, env, fuel - 1, more - 1);
      if Interp(condition, env, fuel - 1).Ok? {
        if Values.IsTrue(Interp(condition, env, fuel - 1).value) {
          InterpMonotone(thenPart, env, fuel - 1, more - 1);
        } else {
          InterpMonotone(elsePart, env, fuel - 1, more - 1);
        }
      }
    case CallExpr(toBeCalled, actualArg) =>
      InterpMonotone(toBeCalled, env, fuel - 1, more - 1);
      if Interp(toBeCalled, env, fuel - 1).Ok? {
        InterpMonotone(actualArg, env, fuel - 1, more - 1);
        if Interp(actualArg, env, fuel - 1).Ok? {
          CallMonotone(Interp(toBeCalled, env, fuel - 1).value, Interp(actualArg, env, fuel - 1).value, fuel - 1, more - 1);
        }
      }
  }

  /** `InterpMonotone` for `+`, `*` and `==`: both operands, then the operation. */
  lemma {:induction false} OperandsMonotone(e: Expr, env: Env, fuel: nat, more: nat)
    requires e.AddExpr? || e.MultExpr? || e.CompareExpr?
    requires fuel <= more && !Interp(e, env, fuel).OutOfFuel?
    ensures Interp(e, env, more) == Interp(e, env, fuel)
    decreases fuel, 0
  {
    InterpMonotone(e.lhs, env, fuel - 1, more - 1);
    if Interp(e.lhs, env, fuel - 1).Ok? {
      InterpMonotone(e.rhs, env, fuel - 1, more - 1);
      if Interp(e.rhs, env, fuel - 1).Ok? {
        var a, b := Interp(e.lhs, env, fuel - 1).value, Interp(e.rhs, env, fuel - 1).value;
        if e.AddExpr? {
          AddToMonotone(a, b, fuel - 1, more - 1);
        } else if e.MultExpr? {
          MultWithMonotone(a, b, fuel - 1, more - 1);
        }
      }
    }
  }

  lemma {:induction false} AddToMonotone(v: Val, other: Val, fuel: nat, more: nat)
    requires fuel <= more && !AddTo(v, other, fuel).OutOfFuel?
    ensures AddTo(v, other, more) == AddTo(v, other, fuel)
    decreases fuel, 0
  {
    if v.FunVal? {
      InterpMonotone(v.body, v.env, fuel - 1, more - 1);
      if Interp(v.body, v.env, fuel - 1).Ok? {
        AddToMonotone(Interp(v.body, v.env, fuel - 1).value, other, fuel - 1, more - 1);
      }
    }
  }

  lemma {:induction false} MultWithMonotone(v: Val, other: Val, fuel: nat, more: nat)
    requires fuel <= more && !MultWith(v, other, fuel).OutOfFuel?
    ensures MultWith(v, other, more) == MultWith(v, other, fuel)
    decreases fuel, 0
  {
    if v.FunVal? {
      InterpMonotone(v.body, v.env, fuel - 1, more - 1);
      if Interp(v.body, v.env, fuel - 1).Ok? {
        MultWithMonotone(Interp(v.body, v.env, fuel - 1).value, other, fuel - 1, more - 1);
      }
    }
  }

  lemma {:induction false} CallMonotone(f: Val, actualArg: Val, fuel: nat, more: nat)
    requires fuel <= more && !Call(f, actualArg, fuel).OutOfFuel?
    ensures Call(f, actualArg, more) == Call(f, actualArg, fuel)
    decreases fuel, 2
  {
    if f.FunVal? {
      InterpMonotone(f.body, ExtendedEnv(f.env, f.formalArg, actualArg), fuel, more);
    }
  }

  /** Evaluating the literal of a value gives an equal value back (a closure picks up the current environment). */
  lemma ToExprEvaluatesBack(v: Val, env: Env, fuel: nat)
    requires fuel >= 1
    ensures Interp(Values.ToExpr(v), env, fuel).Ok?
    ensures Values.Equals(Interp(Values.ToExpr(v), env, fuel).value, v)
  {
    if v.FunVal? {
      Values.EqualsIgnoresEnv(v.formalArg, v.body, env, v.env);
      Values.EqualsIsEquivalence(FunVal(v.formalArg, v.body, v.env), FunVal(v.formalArg, v.body, env), v);
    }
  }

  /** A call of a closure is lexically scoped: the body sees the captured environment and the argument, nothing else. */
  lemma CallIsLexical(formalArg: string, body: Expr, captured: Env, actualArg: Val, fuel: nat)
    ensures Call(FunVal(formalArg, body, captured), actualArg, fuel)
            == Interp(body, ExtendedEnv(captured, formalArg, actualArg), fuel)
  {
  }
}
