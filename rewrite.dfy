/**
 * expr.cpp: substitution, the `containsVar` test and the optimizer (constant
 * folding and elimination of lets whose right-hand side folds to a number).
 *
 * The optimizer casts a subtree to `NumExpr` whenever `containsVar` says it has
 * no variable, and it adds and multiplies C++ `int`s without wrap-around. A
 * failed cast (a null dereference) and a signed overflow are undefined
 * behaviour in C++; `Optimize` and `ContainsVar` return `None` there.
 */
module Rewrite {

  import opened Int32
  import opened Syntax
  import opened Outcomes
  import Exprs
  import Values

  /**
   * `Expr::subst(var, new_val)`: every `VarExpr(var)` becomes `new_val.to_expr()`.
   * A function whose parameter is `var` is left alone, and so is a let that binds
   * `var` — its right-hand side included, although that is outside the binding.
   */
  function Subst(e: Expr, x: string, v: Val): (r: Expr)
    ensures !v.FunVal? ==> Size(r) == Size(e)
  {
    match e
    case NumExpr(rep) => NumExpr(rep)
    case AddExpr(lhs, rhs) => AddExpr(Subst(lhs, x, v), Subst(rhs, x, v))
    case MultExpr(lhs, rhs) => MultExpr(Subst(lhs, x, v), Subst(rhs, x, v))
    case VarExpr(name) => if name == x then Values.ToExpr(v) else VarExpr(name)
    case BoolExpr(truth) => BoolExpr(truth)
    case LetExpr(varStr, rhs, body) =>
      if x == varStr then LetExpr(x, rhs, body)
      else LetExpr(varStr, Subst(rhs, x, v), Subst(body, x, v))
    case IfExpr(c, t, f) => IfExpr(Subst(c, x, v), Subst(t, x, v), Subst(f, x, v))
    case CompareExpr(lhs, rhs) => CompareExpr(Subst(lhs, x, v), Subst(rhs, x, v))
    case FunExpr(formalArg, body) =>
      if x == formalArg then FunExpr(formalArg, body) else FunExpr(formalArg, Subst(body, x, v))
    case CallExpr(f, a) => CallExpr(Subst(f, x, v), Subst(a, x, v))
  }

  /** The names that occur free, with the usual scoping of `_let` and `_fun`. */
  function FreeVars(e: Expr): set<string>
  {
    match e
    case NumExpr(_) => {}
    case BoolExpr(_) => {}
    case VarExpr(name) => {name}
    case AddExpr(l, r) => FreeVars(l) + FreeVars(r)
    case MultExpr(l, r) => FreeVars(l) + FreeVars(r)
    case CompareExpr(l, r) => FreeVars(l) + FreeVars(r)
    case LetExpr(x, r, b) => FreeVars(r) + (FreeVars(b) - {x})
    case IfExpr(c, t, f) => FreeVars(c) + FreeVars(t) + FreeVars(f)
    case FunExpr(x, b) => FreeVars(b) - {x}
    case CallExpr(f, a) => FreeVars(f) + FreeVars(a)
  }

  /** Substituting for a name that does not occur free changes nothing. */
  lemma {:induction false} SubstNotFree(e: Expr, x: string, v: Val)
    requires x !in FreeVars(e)
    ensures Subst(e, x, v) == e
  {
    match e
    case NumExpr(_) =>
    case BoolExpr(_) =>
    case VarExpr(_) =>
    case AddExpr(l, r) => SubstNotFree(l, x, v); SubstNotFree(r, x, v);
    case MultExpr(l, r) => SubstNotFree(l, x, v); SubstNotFree(r, x, v);
    case CompareExpr(l, r) => SubstNotFree(l, x, v); SubstNotFree(r, x, v);
    case LetExpr(y, r, b) =>
      if x != y { SubstNotFree(r, x, v); SubstNotFree(b, x, v); }
    case IfExpr(c, t, f) => SubstNotFree(c, x, v); SubstNotFree(t, x, v); SubstNotFree(f, x, v);
    case FunExpr(y, b) =>
      if x != y { SubstNotFree(b, x, v); }
    case CallExpr(f, a) => SubstNotFree(f, x, v); SubstNotFree(a, x, v);
  }

  /**
   * Substituting a number or a boolean removes every free occurrence, except
   * those in the right-hand side of a let that rebinds the name.
   */
  lemma {:induction false} SubstRemovesFree(e: Expr, x: string, v: Val)
    requires !v.FunVal?
    ensures FreeVars(Subst(e, x, v)) == FreeVars(e) - {x} + KeptByLets(e, x)
  {
    match e
    case NumExpr(_) =>
    case BoolExpr(_) =>
    case VarExpr(_) =>
    case AddExpr(l, r) => SubstRemovesFree(l, x, v); SubstRemovesFree(r, x, v);
    case MultExpr(l, r) => SubstRemovesFree(l, x, v); SubstRemovesFree(r, x, v);
    case CompareExpr(l, r) => SubstRemovesFree(l, x, v); SubstRemovesFree(r, x, v);
    case LetExpr(y, r, b) =>
      if x != y { SubstRemovesFree(r, x, v); SubstRemovesFree(b, x, v); }
    case IfExpr(c, t, f) =>
      SubstRemovesFree(c, x, v); SubstRemovesFree(t, x, v); SubstRemovesFree(f, x, v);
    case FunExpr(y, b) =>
      if x != y { SubstRemovesFree(b, x, v); }
    case CallExpr(f, a) => SubstRemovesFree(f, x, v); SubstRemovesFree(a, x, v);
  }

  /** `{x}` when a let reachable by substitution binds `x` and has `x` free in its right-hand side. */
  function KeptByLets(e: Expr, x: string): (r: set<string>)
    ensures r <= {x}
  {
    match e
    case NumExpr(_) => {}
    case BoolExpr(_) => {}
    case VarExpr(_) => {}
    case AddExpr(l, r) => KeptByLets(l, x) + KeptByLets(r, x)
    case MultExpr(l, r) => KeptByLets(l, x) + KeptByLets(r, x)
    case CompareExpr(l, r) => KeptByLets(l, x) + KeptByLets(r, x)
    case LetExpr(y, r, b) =>
      if x == y then FreeVars(r) * {x} else KeptByLets(r, x) + KeptByLets(b, x)
    case IfExpr(c, t, f) => KeptByLets(c, x) + KeptByLets(t, x) + KeptByLets(f, x)
    case FunExpr(y, b) => if x == y then {} else KeptByLets(b, x)
    case CallExpr(f, a) => KeptByLets(f, x) + KeptByLets(a, x)
  }

  /**
   * `Expr::containsVar`. Despite the name it is false only for trees the
   * optimizer may fold to a number: a number, a sum or product of such trees, a
   * call whose callee is such a tree, and a let whose optimized form is one.
   * Booleans, conditionals, comparisons and functions always answer true.
   *
   * The let case is the corrected one: the source recurses into the optimized
   * copy of the let even when that copy is again a let, and then never returns
   * (see `ContainsVarAsWritten`); here a let that survives optimization answers true.
   */
  function ContainsVar(e: Expr): (r: Option<bool>)
    decreases Size(e), if e.LetExpr? then 1 else 0
  {
    match e
    case NumExpr(_) => Some(false)
    case AddExpr(lhs, rhs) => EitherContainsVar(lhs, rhs)
    case MultExpr(lhs, rhs) => EitherContainsVar(lhs, rhs)
    case VarExpr(_) => Some(true)
    case BoolExpr(_) => Some(true)
    case LetExpr(_, _, _) =>
      var o :- Optimize(e);
      if o.LetExpr? then Some(true) else ContainsVar(o)
    case IfExpr(_, _, _) => Some(true)
    case CompareExpr(_, _) => Some(true)
    case FunExpr(_, _) => Some(true)
    case CallExpr(toBeCalled, _) => ContainsVar(toBeCalled)
  }

  /** `a->containsVar() || b->containsVar()`, short-circuiting as C++ does. */
  function EitherContainsVar(a: Expr, b: Expr): (r: Option<bool>)
    decreases Size(a) + Size(b), 2
  {
    var ca :- ContainsVar(a);
    if ca then Some(true) else ContainsVar(b)
  }

  /**
   * `Expr::optimize`. Undefined (`None`) where the source casts a tree that is
   * not a `NumExpr` to one, or where folding overflows `int`.
   */
  function Optimize(e: Expr): (r: Option<Expr>)
    ensures r.Some? ==> Size(r.value) <= Size(e)
    decreases Size(e), 0
  {
    match e
    case NumExpr(rep) => Some(NumExpr(rep))
    case AddExpr(lhs, rhs) =>
      var tl :- Optimize(lhs);
      var tr :- Optimize(rhs);
      var anyVar :- EitherContainsVar(tl, tr);
      if anyVar then Some(AddExpr(tl, tr))
      else if !tl.NumExpr? || !tr.NumExpr? || !InRange(tl.rep as int + tr.rep as int) then None
      else Some(NumExpr((tl.rep as int + tr.rep as int) as int32))
    case MultExpr(lhs, rhs) =>
      var tl :- Optimize(lhs);
      var tr :- Optimize(rhs);
      var anyVar :- EitherContainsVar(tl, tr);
      if anyVar then Some(MultExpr(tl, tr))
      else if !tl.NumExpr? || !tr.NumExpr? || !InRange(tl.rep as int * tr.rep as int) then None
      else Some(NumExpr((tl.rep as int * tr.rep as int) as int32))
    case VarExpr(name) => Some(VarExpr(name))
    case BoolExpr(truth) => Some(BoolExpr(truth))
    case LetExpr(varStr, rhs, body) =>
      var tr :- Optimize(rhs);
      var tb :- Optimize(body);
      var rhsVar :- ContainsVar(tr);
      if rhsVar then Some(LetExpr(varStr, tr, tb))
      else if !tr.NumExpr? then None
      else Optimize(Subst(tb, varStr, NumVal(tr.rep)))
    case IfExpr(condition, thenPart, elsePart) =>
      var tc :- Optimize(condition);
      if !tc.BoolExpr? then Some(IfExpr(condition, thenPart, elsePart))
      else if tc.truth then Optimize(thenPart)
      else Optimize(elsePart)
    case CompareExpr(lhs, rhs) =>
      var tl :- Optimize(lhs);
      var tr :- Optimize(rhs);
      var anyVar :- EitherContainsVar(tl, tr);
      if anyVar then Some(CompareExpr(tl, tr)) else Some(BoolExpr(Exprs.Equals(tl, tr)))
    case FunExpr(formalArg, body) =>
      var tb :- Optimize(body);
      Some(FunExpr(formalArg, tb))
    case CallExpr(toBeCalled, actualArg) => Some(CallExpr(toBeCalled, actualArg))
  }

  /** Optimizing an optimized tree changes nothing. */
  lemma {:induction false} OptimizeIdempotent(e: Expr)
    requires Optimize(e).Some?
    ensures Optimize(Optimize(e).value) == Optimize(e)
    decreases Size(e)
  {
    match e
    case NumExpr(_) =>
    case VarExpr(_) =>
    case BoolExpr(_) =>
    case AddExpr(lhs, rhs) => OptimizeIdempotent(lhs); OptimizeIdempotent(rhs);
    case MultExpr(lhs, rhs) => OptimizeIdempotent(lhs); OptimizeIdempotent(rhs);
    case CompareExpr(lhs, rhs) => OptimizeIdempotent(lhs); OptimizeIdempotent(rhs);
    case LetExpr(varStr, rhs, body) =>
      OptimizeIdempotent(rhs);
      OptimizeIdempotent(body);
      var tr := Optimize(rhs).value;
      var tb := Optimize(body).value;
      if ContainsVar(tr) == Some(false) && tr.NumExpr? {
        OptimizeIdempotent(Subst(tb, varStr, NumVal(tr.rep)));
      }
    case IfExpr(condition, thenPart, elsePart) =>
      var tc := Optimize(condition).value;
      if tc.BoolExpr? {
        if tc.truth { OptimizeIdempotent(thenPart); } else { OptimizeIdempotent(elsePart); }
      }
    case FunExpr(_, body) => OptimizeIdempotent(body);
    case CallExpr(_, _) =>
  }

  /**
   * `Expr::optimize` exactly as written: every `containsVar` it asks is the
   * source's own, `ContainsVarAsWritten`. The answer is `Undefined` where the
   * source's behaviour is undefined, and `OutOfFuel` when it does not come
   * within `fuel` nested calls.
   */
  function OptimizeAsWritten(e: Expr, fuel: nat): Result<Expr>
    decreases fuel, 2
  {
    if fuel == 0 then OutOfFuel
    else
      match e
      case NumExpr(rep) => Ok(NumExpr(rep))
      case AddExpr(lhs, rhs) =>
        var tl :- OptimizeAsWritten(lhs, fuel - 1);
        var tr :- OptimizeAsWritten(rhs, fuel - 1);
        var anyVar :- EitherContainsVarAsWritten(tl, tr, fuel - 1);
        if anyVar then Ok(AddExpr(tl, tr))
        else if !tl.NumExpr? || !tr.NumExpr? || !InRange(tl.rep as int + tr.rep as int) then Undefined
        else Ok(NumExpr((tl.rep as int + tr.rep as int) as int32))
      case MultExpr(lhs, rhs) =>
        var tl :- OptimizeAsWritten(lhs, fuel - 1);
        var tr :- OptimizeAsWritten(rhs, fuel - 1);
        var anyVar :- EitherContainsVarAsWritten(tl, tr, fuel - 1);
        if anyVar then Ok(MultExpr(tl, tr))
        else if !tl.NumExpr? || !tr.NumExpr? || !InRange(tl.rep as int * tr.rep as int) then Undefined
        else Ok(NumExpr((tl.rep as int * tr.rep as int) as int32))
      case VarExpr(name) => Ok(VarExpr(name))
      case BoolExpr(truth) => Ok(BoolExpr(truth))
      case LetExpr(varStr, rhs, body) =>
        var tr :- OptimizeAsWritten(rhs, fuel - 1);
        var tb :- OptimizeAsWritten(body, fuel - 1);
        var rhsVar :- ContainsVarAsWritten(tr, fuel - 1);
        if rhsVar then Ok(LetExpr(varStr, tr, tb))
        else if !tr.NumExpr? then Undefined
        else OptimizeAsWritten(Subst(tb, varStr, NumVal(tr.rep)), fuel - 1)
      case IfExpr(condition, thenPart, elsePart) =>
        var tc :- OptimizeAsWritten(condition, fuel - 1);
        if !tc.BoolExpr? then Ok(IfExpr(condition, thenPart, elsePart))
        else if tc.truth then OptimizeAsWritten(thenPart, fuel - 1)
        else OptimizeAsWritten(elsePart, fuel - 1)
      case CompareExpr(lhs, rhs) =>
        var tl :- OptimizeAsWritten(lhs, fuel - 1);
        var tr :- OptimizeAsWritten(rhs, fuel - 1);
        var anyVar :- EitherContainsVarAsWritten(tl, tr, fuel - 1);
        if anyVar then Ok(CompareExpr(tl, tr)) else Ok(BoolExpr(Exprs.Equals(tl, tr)))
      case FunExpr(formalArg, body) =>
        var tb :- OptimizeAsWritten(body, fuel - 1);
        Ok(FunExpr(formalArg, tb))
      case CallExpr(toBeCalled, actualArg) => Ok(CallExpr(toBeCalled, actualArg))
  }

  /**
   * `Expr::containsVar` exactly as written: a let asks the same question of
   * its copy optimized by `OptimizeAsWritten`, whatever that copy is.
   */
  function ContainsVarAsWritten(e: Expr, fuel: nat): Result<bool>
    decreases fuel, 0
  {
    if fuel == 0 then OutOfFuel
    else
      match e
      case NumExpr(_) => Ok(false)
      case AddExpr(lhs, rhs) => EitherContainsVarAsWritten(lhs, rhs, fuel - 1)
      case MultExpr(lhs, rhs) => EitherContainsVarAsWritten(lhs, rhs, fuel - 1)
      case VarExpr(_) => Ok(true)
      case BoolExpr(_) => Ok(true)
      case LetExpr(_, _, _) =>
        var o :- OptimizeAsWritten(e, fuel - 1);
        ContainsVarAsWritten(o, fuel - 1)
      case IfExpr(_, _, _) => Ok(true)
      case CompareExpr(_, _) => Ok(true)
      case FunExpr(_, _) => Ok(true)
      case CallExpr(toBeCalled, _) => ContainsVarAsWritten(toBeCalled, fuel - 1)
  }

  /** `a->containsVar() || b->containsVar()` with the source's `containsVar`. */
  function EitherContainsVarAsWritten(a: Expr, b: Expr, fuel: nat): Result<bool>
    decreases fuel, 1
  {
    var ca :- ContainsVarAsWritten(a, fuel);
    if ca then Ok(true) else ContainsVarAsWritten(b, fuel)
  }

  /** What an answer of the source's rewriting says once it has come: the tree, or undefined behaviour. */
  function Answer<T>(r: Result<T>): (o: Option<T>)
    ensures o.Some? <==> r.Ok?
    ensures r.Ok? ==> o.value == r.value
  {
    if r.Ok? then Some(r.value) else None
  }

  /**
   * Wherever the source's `optimize` returns, the corrected one returns the
   * same tree, or is undefined where it is; the source never throws.
   */
  lemma {:induction false} OptimizeAgreesWithAsWritten(e: Expr, fuel: nat)
    requires !OptimizeAsWritten(e, fuel).OutOfFuel?
    ensures !OptimizeAsWritten(e, fuel).Fail?
    ensures Optimize(e) == Answer(OptimizeAsWritten(e, fuel))
    decreases fuel, 2
  {
    match e
    case NumExpr(_) =>
    case VarExpr(_) =>
    case BoolExpr(_) =>
    case AddExpr(lhs, rhs) => OperandsAgreeWithAsWritten(lhs, rhs, fuel - 1);
    case MultExpr(lhs, rhs) => OperandsAgreeWithAsWritten(lhs, rhs, fuel - 1);
    case CompareExpr(lhs, rhs) => OperandsAgreeWithAsWritten(lhs, rhs, fuel - 1);
    case LetExpr(varStr, rhs, body) =>
      OptimizeAgreesWithAsWritten(rhs, fuel - 1);
      if OptimizeAsWritten(rhs, fuel - 1).Ok? {
        OptimizeAgreesWithAsWritten(body, fuel - 1);
        if OptimizeAsWritten(body, fuel - 1).Ok? {
          var tr, tb := OptimizeAsWritten(rhs, fuel - 1).value, OptimizeAsWritten(body, fuel - 1).value;
          ContainsVarAgreesWithAsWritten(tr, fuel - 1);
          if ContainsVarAsWritten(tr, fuel - 1) == Ok(false) && tr.NumExpr? {
            OptimizeAgreesWithAsWritten(Subst(tb, varStr, NumVal(tr.rep)), fuel - 1);
          }
        }
      }
    case IfExpr(condition, thenPart, elsePart) =>
      OptimizeAgreesWithAsWritten(condition, fuel - 1);
      if OptimizeAsWritten(condition, fuel - 1).Ok? && OptimizeAsWritten(condition, fuel - 1).value.BoolExpr? {
        if OptimizeAsWritten(condition, fuel - 1).value.truth {
          OptimizeAgreesWithAsWritten(thenPart, fuel - 1);
        } else {
          OptimizeAgreesWithAsWritten(elsePart, fuel - 1);
        }
      }
    case FunExpr(_, body) => OptimizeAgreesWithAsWritten(body, fuel - 1);
    case CallExpr(_, _) =>
  }

  /** `OptimizeAgreesWithAsWritten` for the two operands of `+`, `*` and `==`, and the `containsVar` asked of them. */
  lemma {:induction false} OperandsAgreeWithAsWritten(lhs: Expr, rhs: Expr, fuel: nat)
    requires !OptimizeAsWritten(lhs, fuel).OutOfFuel?
    ensures !OptimizeAsWritten(lhs, fuel).Fail? && Optimize(lhs) == Answer(OptimizeAsWritten(lhs, fuel))
    ensures OptimizeAsWritten(lhs, fuel).Ok? && !OptimizeAsWritten(rhs, fuel).OutOfFuel? ==>
              !OptimizeAsWritten(rhs, fuel).Fail? && Optimize(rhs) == Answer(OptimizeAsWritten(rhs, fuel))
    ensures OptimizeAsWritten(lhs, fuel).Ok? && OptimizeAsWritten(rhs, fuel).Ok? ==>
              var tl, tr := OptimizeAsWritten(lhs, fuel).value, OptimizeAsWritten(rhs, fuel).value;
              !EitherContainsVarAsWritten(tl, tr, fuel).OutOfFuel? ==>
                !EitherContainsVarAsWritten(tl, tr, fuel).Fail? &&
                EitherContainsVar(tl, tr) == Answer(EitherContainsVarAsWritten(tl, tr, fuel))
    decreases fuel, 3
  {
    OptimizeAgreesWithAsWritten(lhs, fuel);
    if OptimizeAsWritten(lhs, fuel).Ok? && !OptimizeAsWritten(rhs, fuel).OutOfFuel? {
      OptimizeAgreesWithAsWritten(rhs, fuel);
      if OptimizeAsWritten(rhs, fuel).Ok? {
        var tl, tr := OptimizeAsWritten(lhs, fuel).value, OptimizeAsWritten(rhs, fuel).value;
        if !EitherContainsVarAsWritten(tl, tr, fuel).OutOfFuel? {
          EitherAgreesWithAsWritten(tl, tr, fuel);
        }
      }
    }
  }

  /** Wherever the source's `containsVar` returns, the corrected one returns the same answer. */
  lemma {:induction false} ContainsVarAgreesWithAsWritten(e: Expr, fuel: nat)
    requires !ContainsVarAsWritten(e, fuel).OutOfFuel?
    ensures !ContainsVarAsWritten(e, fuel).Fail?
    ensures ContainsVar(e) == Answer(ContainsVarAsWritten(e, fuel))
    decreases fuel, 0, 1
  {
    match e
    case NumExpr(_) =>
    case AddExpr(lhs, rhs) => EitherAgreesWithAsWritten(lhs, rhs, fuel - 1);
    case MultExpr(lhs, rhs) => EitherAgreesWithAsWritten(lhs, rhs, fuel - 1);
    case VarExpr(_) =>
    case BoolExpr(_) =>
    case LetExpr(_, _, _) => LetContainsVarAgreesWithAsWritten(e, fuel);
    case IfExpr(_, _, _) =>
    case CompareExpr(_, _) =>
    case FunExpr(_, _) =>
    case CallExpr(toBeCalled, _) => ContainsVarAgreesWithAsWritten(toBeCalled, fuel - 1);
  }

  /** `ContainsVarAgreesWithAsWritten` for a let: the source's answer is that of the optimized copy, which is no let. */
  lemma {:induction false} LetContainsVarAgreesWithAsWritten(e: Expr, fuel: nat)
    requires e.LetExpr? && !ContainsVarAsWritten(e, fuel).OutOfFuel?
    ensures !ContainsVarAsWritten(e, fuel).Fail?
    ensures ContainsVar(e) == Answer(ContainsVarAsWritten(e, fuel))
    decreases fuel, 0, 0
  {
    OptimizeAgreesWithAsWritten(e, fuel - 1);
    if OptimizeAsWritten(e, fuel - 1).Ok? {
      var o := OptimizeAsWritten(e, fuel - 1).value;
      if o.LetExpr? {
        OptimizeIdempotent(e);
        AsWrittenDivergesOnSurvivingLet(o, fuel - 1);
        assert false;
      }
      ContainsVarAgreesWithAsWritten(o, fuel - 1);
    }
  }

  lemma {:induction false} EitherAgreesWithAsWritten(a: Expr, b: Expr, fuel: nat)
    requires !EitherContainsVarAsWritten(a, b, fuel).OutOfFuel?
    ensures !EitherContainsVarAsWritten(a, b, fuel).Fail?
    ensures EitherContainsVar(a, b) == Answer(EitherContainsVarAsWritten(a, b, fuel))
    decreases fuel, 1
  {
    ContainsVarAgreesWithAsWritten(a, fuel);
    if ContainsVarAsWritten(a, fuel) == Ok(false) {
      ContainsVarAgreesWithAsWritten(b, fuel);
    }
  }

  /**
   * As written, `containsVar` on a let that survives optimization never
   * returns: the optimized copy is a let whose optimization is itself.
   */
  lemma {:induction false} AsWrittenDivergesOnSurvivingLet(e: Expr, fuel: nat)
    requires e.LetExpr? && Optimize(e).Some? && Optimize(e).value.LetExpr?
    ensures ContainsVarAsWritten(e, fuel) == OutOfFuel
    decreases fuel, 4
  {
    if fuel > 0 && !OptimizeAsWritten(e, fuel - 1).OutOfFuel? {
      OptimizeAgreesWithAsWritten(e, fuel - 1);
      var o := Optimize(e).value;
      OptimizeIdempotent(e);
      AsWrittenDivergesOnSurvivingLet(o, fuel - 1);
    }
  }

  /** `_let x = y _in x`: the source's `containsVar` never answers; the corrected one says true. */
  lemma LetOfFreeVariable(fuel: nat)
    ensures Optimize(LetExpr("x", VarExpr("y"), VarExpr("x"))) == Some(LetExpr("x", VarExpr("y"), VarExpr("x")))
    ensures ContainsVarAsWritten(LetExpr("x", VarExpr("y"), VarExpr("x")), fuel) == OutOfFuel
    ensures ContainsVar(LetExpr("x", VarExpr("y"), VarExpr("x"))) == Some(true)
  {
    AsWrittenDivergesOnSurvivingLet(LetExpr("x", VarExpr("y"), VarExpr("x")), fuel);
  }

  /**
   * As written, `optimize` of a `+`, `*` or `==` whose left operand optimizes
   * to a let, and whose right operand optimizes, never returns: it asks
   * `containsVar` of that let.
   */
  lemma {:induction false} AsWrittenDivergesOnSurvivingLetOperand(e: Expr, fuel: nat)
    requires e.AddExpr? || e.MultExpr? || e.CompareExpr?
    requires Optimize(e.lhs).Some? && Optimize(e.lhs).value.LetExpr? && Optimize(e.rhs).Some?
    ensures OptimizeAsWritten(e, fuel) == OutOfFuel
  {
    if fuel > 0 && !OptimizeAsWritten(e.lhs, fuel - 1).OutOfFuel? {
      SurvivingLetStaysALet(e.lhs, fuel - 1);
      if !OptimizeAsWritten(e.rhs, fuel - 1).OutOfFuel? {
        OptimizeAgreesWithAsWritten(e.rhs, fuel - 1);
      }
      AsWrittenStopsAtOperands(e, Optimize(e.lhs).value, fuel);
    }
  }

  /**
   * An `optimize` of `+`, `*` or `==` whose operands optimize but which gets no
   * `containsVar` answer about its left operand gets no answer at all.
   */
  lemma AsWrittenStopsAtOperands(e: Expr, o: Expr, fuel: nat)
    requires e.AddExpr? || e.MultExpr? || e.CompareExpr?
    requires fuel > 0 && OptimizeAsWritten(e.lhs, fuel - 1) == Ok(o) && ContainsVarAsWritten(o, fuel - 1) == OutOfFuel
    requires OptimizeAsWritten(e.rhs, fuel - 1).Ok? || OptimizeAsWritten(e.rhs, fuel - 1).OutOfFuel?
    ensures OptimizeAsWritten(e, fuel) == OutOfFuel
  {
  }

  /** A tree that optimizes to a let optimizes, as written, to that same let, and `containsVar` of it never returns. */
  lemma SurvivingLetStaysALet(l: Expr, fuel: nat)
    requires Optimize(l).Some? && Optimize(l).value.LetExpr? && !OptimizeAsWritten(l, fuel).OutOfFuel?
    ensures OptimizeAsWritten(l, fuel) == Ok(Optimize(l).value)
    ensures ContainsVarAsWritten(Optimize(l).value, fuel) == OutOfFuel
  {
    OptimizeAgreesWithAsWritten(l, fuel);
    OptimizeIdempotent(l);
    AsWrittenDivergesOnSurvivingLet(Optimize(l).value, fuel);
  }

  /**
   * `(_let x = y _in x) + 1`: the source's `optimize` never returns, since
   * the sum asks `containsVar` of the let; the corrected one leaves the sum as it is.
   */
  lemma SurvivingLetInsideSum(fuel: nat)
    ensures Optimize(AddExpr(LetExpr("x", VarExpr("y"), VarExpr("x")), NumExpr(1)))
            == Some(AddExpr(LetExpr("x", VarExpr("y"), VarExpr("x")), NumExpr(1)))
    ensures OptimizeAsWritten(AddExpr(LetExpr("x", VarExpr("y"), VarExpr("x")), NumExpr(1)), fuel) == OutOfFuel
  {
    LetOfFreeVariable(0);
    AsWrittenDivergesOnSurvivingLetOperand(AddExpr(LetExpr("x", VarExpr("y"), VarExpr("x")), NumExpr(1)), fuel);
  }

  /**
   * `_let z = 1 _in (_let x = y _in x) == 2`: the source's `containsVar`
   * never returns, as optimizing the let's body never does; the corrected one says true.
   */
  lemma {:induction false} SurvivingLetInsideComparison(fuel: nat)
    ensures ContainsVarAsWritten(LetExpr("z", NumExpr(1), CompareExpr(LetExpr("x", VarExpr("y"), VarExpr("x")), NumExpr(2))), fuel)
            == OutOfFuel
    ensures ContainsVar(LetExpr("z", NumExpr(1), CompareExpr(LetExpr("x", VarExpr("y"), VarExpr("x")), NumExpr(2)))) == Some(true)
  {
    var c := CompareExpr(LetExpr("x", VarExpr("y"), VarExpr("x")), NumExpr(2));
    LetOfFreeVariable(0);
    assert Optimize(c) == Some(c);
    assert Subst(c, "z", NumVal(1)) == c;
    if fuel >= 3 {
      AsWrittenDivergesOnSurvivingLetOperand(c, fuel - 2);
      assert OptimizeAsWritten(LetExpr("z", NumExpr(1), c), fuel - 1) == OutOfFuel;
    }
  }

  /** No call anywhere in the tree. */
  predicate CallFree(e: Expr)
  {
    match e
    case NumExpr(_) => true
    case BoolExpr(_) => true
    case VarExpr(_) => true
    case AddExpr(l, r) => CallFree(l) && CallFree(r)
    case MultExpr(l, r) => CallFree(l) && CallFree(r)
    case CompareExpr(l, r) => CallFree(l) && CallFree(r)
    case LetExpr(_, r, b) => CallFree(r) && CallFree(b)
    case IfExpr(c, t, f) => CallFree(c) && CallFree(t) && CallFree(f)
    case FunExpr(_, b) => CallFree(b)
    case CallExpr(_, _) => false
  }

  lemma {:induction false} SubstNumberKeepsCallFree(e: Expr, x: string, n: int32)
    requires CallFree(e)
    ensures CallFree(Subst(e, x, NumVal(n)))
  {
    match e
    case NumExpr(_) =>
    case BoolExpr(_) =>
    case VarExpr(_) =>
    case AddExpr(l, r) => SubstNumberKeepsCallFree(l, x, n); SubstNumberKeepsCallFree(r, x, n);
    case MultExpr(l, r) => SubstNumberKeepsCallFree(l, x, n); SubstNumberKeepsCallFree(r, x, n);
    case CompareExpr(l, r) => SubstNumberKeepsCallFree(l, x, n); SubstNumberKeepsCallFree(r, x, n);
    case LetExpr(y, r, b) =>
      if x != y { SubstNumberKeepsCallFree(r, x, n); SubstNumberKeepsCallFree(b, x, n); }
    case IfExpr(c, t, f) =>
      SubstNumberKeepsCallFree(c, x, n); SubstNumberKeepsCallFree(t, x, n); SubstNumberKeepsCallFree(f, x, n);
    case FunExpr(y, b) =>
      if x != y { SubstNumberKeepsCallFree(b, x, n); }
    case CallExpr(_, _) =>
  }

  /**
   * What the optimizer's casts rely on: in a program without calls, an
   * optimized tree that `ContainsVar` reports variable-free is a number.
   */
  lemma {:induction false} VarFreeOptimizedIsNumber(e: Expr)
    requires CallFree(e) && Optimize(e).Some?
    requires ContainsVar(Optimize(e).value) == Some(false)
    ensures Optimize(e).value.NumExpr?
    decreases Size(e)
  {
    var o := Optimize(e).value;
    match e
    case NumExpr(_) =>
    case VarExpr(_) =>
    case BoolExpr(_) =>
    case AddExpr(lhs, rhs) =>
    case MultExpr(lhs, rhs) =>
    case CompareExpr(lhs, rhs) =>
    case LetExpr(varStr, rhs, body) =>
      var tr := Optimize(rhs).value;
      var tb := Optimize(body).value;
      if ContainsVar(tr) == Some(true) {
        OptimizeIdempotent(e);
        assert false;
      } else {
        OptimizeCallFree(body);
        SubstNumberKeepsCallFree(tb, varStr, tr.rep);
        VarFreeOptimizedIsNumber(Subst(tb, varStr, NumVal(tr.rep)));
      }
    case IfExpr(condition, thenPart, elsePart) =>
      var tc := Optimize(condition).value;
      if tc.BoolExpr? {
        if tc.truth { VarFreeOptimizedIsNumber(thenPart); } else { VarFreeOptimizedIsNumber(elsePart); }
      }
    case FunExpr(_, _) =>
  }

  lemma {:induction false} OptimizeCallFree(e: Expr)
    requires CallFree(e) && Optimize(e).Some?
    ensures CallFree(Optimize(e).value)
    decreases Size(e)
  {
    match e
    case NumExpr(_) =>
    case VarExpr(_) =>
    case BoolExpr(_) =>
    case AddExpr(lhs, rhs) => OptimizeCallFree(lhs); OptimizeCallFree(rhs);
    case MultExpr(lhs, rhs) => OptimizeCallFree(lhs); OptimizeCallFree(rhs);
    case CompareExpr(lhs, rhs) => OptimizeCallFree(lhs); OptimizeCallFree(rhs);
    case LetExpr(varStr, rhs, body) =>
      OptimizeCallFree(rhs);
      OptimizeCallFree(body);
      var tr := Optimize(rhs).value;
      var tb := Optimize(body).value;
      if ContainsVar(tr) == Some(false) && tr.NumExpr? {
        SubstNumberKeepsCallFree(tb, varStr, tr.rep);
        OptimizeCallFree(Subst(tb, varStr, NumVal(tr.rep)));
      }
    case IfExpr(condition, thenPart, elsePart) =>
      var tc := Optimize(condition).value;
      if tc.BoolExpr? {
        if tc.truth { OptimizeCallFree(thenPart); } else { OptimizeCallFree(elsePart); }
      }
    case FunExpr(_, body) => OptimizeCallFree(body);
  }
}
