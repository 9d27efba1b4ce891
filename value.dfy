/**
 * value.cpp: the parts of the value classes that only compute (`equals`,
 * `to_expr`, `to_string`, `is_true`). Arithmetic and calls live in the
 * evaluator, because `FunVal` reaches back into `Expr::interp` for them.
 */
module Values {

  import opened Syntax
  import Exprs
  import Int32

  /**
   * `Val::equals`: numbers and booleans by payload, closures by formal argument
   * and structurally equal body, never across classes. The captured environment
   * takes no part: two values are equal exactly when their literals are the same tree.
   */
  function Equals(self: Val, other: Val): (r: bool)
    ensures r <==> ToExpr(self) == ToExpr(other)
  {
    match self
    case NumVal(rep) => other.NumVal? && rep == other.rep
    case BoolVal(truth) => other.BoolVal? && truth == other.truth
    case FunVal(formalArg, body, _) =>
      other.FunVal? && other.formalArg == formalArg && Exprs.Equals(other.body, body)
  }

  /** `Val::to_expr`: the literal that stands for the value; a closure loses its environment. */
  function ToExpr(v: Val): (e: Expr)
    ensures Size(e) == if v.FunVal? then 1 + Size(v.body) else 1
  {
    match v
    case NumVal(rep) => NumExpr(rep)
    case BoolVal(truth) => BoolExpr(truth)
    case FunVal(formalArg, body, _) => FunExpr(formalArg, body)
  }

  /** `Val::to_string`: a value prints as its literal prints. */
  function ToString(v: Val): (s: string)
    ensures s == Exprs.ToString(ToExpr(v))
  {
    match v
    case NumVal(rep) => Int32.ToString(rep)
    case BoolVal(truth) => if truth then "_true" else "_false"
    case FunVal(formalArg, body, _) => "_fun (" + formalArg + ") " + Exprs.ToString(body)
  }

  /** `Val::is_true`. */
  function IsTrue(v: Val): bool
  {
    match v
    case NumVal(rep) => rep != 0
    case BoolVal(truth) => truth
    case FunVal(_, _, _) => false
  }

  /** `equals` is an equivalence. */
  lemma EqualsIsEquivalence(a: Val, b: Val, c: Val)
    ensures Equals(a, a)
    ensures Equals(a, b) ==> Equals(b, a)
    ensures Equals(a, b) && Equals(b, c) ==> Equals(a, c)
  {
  }

  /** Closures built from the same code in different environments are equal. */
  lemma EqualsIgnoresEnv(formalArg: string, body: Expr, env1: Env, env2: Env)
    ensures Equals(FunVal(formalArg, body, env1), FunVal(formalArg, body, env2))
  {
  }

  /** `is_true`: a number iff it is not zero, a boolean is itself, a closure never. */
  lemma IsTrueCases(v: Val)
    ensures IsTrue(v) <==> v == BoolVal(true) || (v.NumVal? && v.rep != 0)
  {
  }
}
