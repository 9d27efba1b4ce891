/**
 * The entities of the interpreter, with the fields of expr.hpp, value.hpp, env.hpp
 * and cont.hpp. The C++ objects are shared through reference-counted pointers
 * and, with one exception, never changed once built, so each hierarchy becomes
 * a datatype whose constructors are the subclasses; the dynamic casts of the
 * source become pattern matching. The exception is `FunExpr::optimize`
 * (expr.cpp:453-456), which overwrites the body of the closure it is called
 * on; module InPlaceRewrite models that on a heap of shared nodes.
 */
module Syntax {

  import opened Int32

  /** expr.hpp: the ten expression nodes. */
  datatype Expr =
    | NumExpr(rep: int32)
    | AddExpr(lhs: Expr, rhs: Expr)
    | MultExpr(lhs: Expr, rhs: Expr)
    | VarExpr(name: string)
    | BoolExpr(truth: bool)
    | LetExpr(varStr: string, rhs: Expr, body: Expr)
    | IfExpr(condition: Expr, thenPart: Expr, elsePart: Expr)
    | CompareExpr(lhs: Expr, rhs: Expr)
    | FunExpr(formalArg: string, body: Expr)
    | CallExpr(toBeCalled: Expr, actualArg: Expr)

  /** value.hpp: a closure keeps the environment it was built in. */
  datatype Val =
    | NumVal(rep: int32)
    | BoolVal(truth: bool)
    | FunVal(formalArg: string, body: Expr, env: Env)

  /** env.hpp: an immutable chain; `ExtendedEnv` shares the `rest` it extends. */
  datatype Env =
    | EmptyEnv
    | ExtendedEnv(rest: Env, name: string, val: Val)

  /** cont.hpp: the frames of pending work; every frame but `DoneCont` owns the rest. */
  datatype Cont =
    | DoneCont
    | RightThenAddCont(rhs: Expr, env: Env, rest: Cont)
    | AddCont(lhsVal: Val, rest: Cont)
    | RightThenMultCont(rhs: Expr, env: Env, rest: Cont)
    | MultCont(lhsVal: Val, rest: Cont)
    | LetBodyCont(varStr: string, body: Expr, env: Env, rest: Cont)
    | IfBranchCont(thenPart: Expr, elsePart: Expr, env: Env, rest: Cont)
    | ArgThenCallCont(actualArg: Expr, env: Env, rest: Cont)
    | CallCont(toBeCalledVal: Val, rest: Cont)
    | RightThenCompCont(rhs: Expr, env: Env, rest: Cont)
    | CompCont(lhsVal: Val, rest: Cont)

  /** The number of nodes of an expression tree. */
  function Size(e: Expr): nat
  {
    match e
    case NumExpr(_) => 1
    case VarExpr(_) => 1
    case BoolExpr(_) => 1
    case AddExpr(l, r) => 1 + Size(l) + Size(r)
    case MultExpr(l, r) => 1 + Size(l) + Size(r)
    case CompareExpr(l, r) => 1 + Size(l) + Size(r)
    case LetExpr(_, r, b) => 1 + Size(r) + Size(b)
    case IfExpr(c, t, f) => 1 + Size(c) + Size(t) + Size(f)
    case FunExpr(_, b) => 1 + Size(b)
    case CallExpr(f, a) => 1 + Size(f) + Size(a)
  }

  /** The number of frames of a continuation, `DoneCont` included. */
  function Depth(k: Cont): nat
  {
    if k.DoneCont? then 1 else 1 + Depth(k.rest)
  }
}
