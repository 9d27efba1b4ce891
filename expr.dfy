/**
 * expr.cpp: structural equality and rendering of expressions.
 */
module Exprs {

  import opened Syntax
  import Int32

  /**
   * `Expr::equals`, case by case: a node of another class is never equal, and
   * otherwise the fields are compared (names by string equality, children by
   * the children's own `equals`, called on the argument's child as the source does).
   * It is structural equality of the trees, so it is symmetric, reflexive and transitive.
   */
  function Equals(self: Expr, e: Expr): (r: bool)
    ensures r <==> self == e
    decreases Size(self) + Size(e)
  {
    match self
    case NumExpr(rep) => e.NumExpr? && rep == e.rep
    case AddExpr(lhs, rhs) => e.AddExpr? && Equals(lhs, e.lhs) && Equals(rhs, e.rhs)
    case MultExpr(lhs, rhs) => e.MultExpr? && Equals(lhs, e.lhs) && Equals(rhs, e.rhs)
    case VarExpr(name) => e.VarExpr? && name == e.name
    case BoolExpr(truth) => e.BoolExpr? && truth == e.truth
    case LetExpr(varStr, rhs, body) =>
      e.LetExpr? && (e.varStr == varStr && Equals(e.rhs, rhs)) && Equals(e.body, body)
    case IfExpr(condition, thenPart, elsePart) =>
      e.IfExpr? && (Equals(e.condition, condition) && Equals(e.thenPart, thenPart))
      && Equals(e.elsePart, elsePart)
    case CompareExpr(lhs, rhs) => e.CompareExpr? && Equals(lhs, e.lhs) && Equals(rhs, e.rhs)
    case FunExpr(formalArg, body) => e.FunExpr? && e.formalArg == formalArg && Equals(e.body, body)
    case CallExpr(toBeCalled, actualArg) =>
      e.CallExpr? && Equals(e.toBeCalled, toBeCalled) && Equals(e.actualArg, actualArg)
  }

  /**
   * `Expr::to_string`: the surface syntax with single spaces around the binary
   * operators and no parentheses added, so the text is not always read back as
   * the same tree.
   */
  function ToString(e: Expr): string
  {
    match e
    case NumExpr(rep) => Int32.ToString(rep)
    case AddExpr(lhs, rhs) => ToString(lhs) + " + " + ToString(rhs)
    case MultExpr(lhs, rhs) => ToString(lhs) + " * " + ToString(rhs)
    case VarExpr(name) => name
    case BoolExpr(truth) => if truth then "_true" else "_false"
    case LetExpr(varStr, rhs, body) => "_let " + varStr + " = " + ToString(rhs) + " _in " + ToString(body)
    case IfExpr(c, t, f) => "_if " + ToString(c) + " _then " + ToString(t) + " _else " + ToString(f)
    case CompareExpr(lhs, rhs) => ToString(lhs) + " == " + ToString(rhs)
    case FunExpr(formalArg, body) => "_fun (" + formalArg + ") " + ToString(body)
    case CallExpr(toBeCalled, actualArg) => ToString(toBeCalled) + "(" + ToString(actualArg) + ")"
  }

  /**
   * Printing adds no parentheses, so it does not determine the tree: a product
   * of a sum and the sum of a product print alike.
   */
  lemma ToStringLosesGrouping(a: Expr, b: Expr, c: Expr)
    ensures MultExpr(AddExpr(a, b), c) != AddExpr(a, MultExpr(b, c))
    ensures ToString(MultExpr(AddExpr(a, b), c)) == ToString(AddExpr(a, MultExpr(b, c)))
  {
    var sa, sb, sc := ToString(a), ToString(b), ToString(c);
    assert ToString(MultExpr(AddExpr(a, b), c)) == sa + " + " + sb + " * " + sc;
    assert ToString(AddExpr(a, MultExpr(b, c))) == sa + " + " + (sb + " * " + sc);
  }
}
