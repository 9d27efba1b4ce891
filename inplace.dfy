/**
 * expr.cpp's optimizer on expression nodes shared through pointers.
 *
 * `FunExpr::optimize` assigns its own `body` before it copies itself
 * (expr.cpp:453-456). `IfExpr::optimize`, when the condition does not fold,
 * and `CallExpr::optimize` return trees that share the input's own nodes
 * (expr.cpp:343-349, 498-502), and `LetExpr::containsVar` optimizes a copy that
 * shares the let's children (expr.cpp:287-289). So one node can be reachable
 * from the input and from a result at once, and an update made through one is
 * seen through the other.
 *
 * The nodes live in a heap: a sequence indexed by address, where `NEW` appends
 * a node and the update overwrites one. Ownership and freeing are not modelled;
 * an address outside the heap (a dangling pointer) is `Undefined`.
 */
module InPlaceRewrite {

  import opened Int32
  import opened Syntax
  import opened Outcomes
  import Rewrite
  import Exprs

  /** An expression node of expr.hpp whose children are addresses. */
  datatype Node =
    | NumNode(rep: int32)
    | AddNode(lhs: nat, rhs: nat)
    | MultNode(lhs: nat, rhs: nat)
    | VarNode(name: string)
    | BoolNode(truth: bool)
    | LetNode(varStr: string, rhs: nat, body: nat)
    | IfNode(condition: nat, thenPart: nat, elsePart: nat)
    | CompareNode(lhs: nat, rhs: nat)
    | FunNode(formalArg: string, body: nat)
    | CallNode(toBeCalled: nat, actualArg: nat)

  type Heap = seq<Node>

  /** The heap after a call, and the address of the node the call returns. */
  datatype Built = Built(heap: Heap, addr: nat)

  /** The heap after a `containsVar`, and its answer. */
  datatype Tested = Tested(heap: Heap, answer: bool)

  /** `NEW`: the node at a fresh address past the end of the heap. */
  function New(h: Heap, n: Node): Built
  {
    Built(h + [n], |h|)
  }

  /** The node at `a`, and everything reachable from it, spell out the tree `e`. */
  predicate Rep(h: Heap, a: nat, e: Expr)
    decreases e
  {
    a < |h| &&
    match e
    case NumExpr(rep) => h[a] == NumNode(rep)
    case AddExpr(l, r) => h[a].AddNode? && Rep(h, h[a].lhs, l) && Rep(h, h[a].rhs, r)
    case MultExpr(l, r) => h[a].MultNode? && Rep(h, h[a].lhs, l) && Rep(h, h[a].rhs, r)
    case VarExpr(name) => h[a] == VarNode(name)
    case BoolExpr(truth) => h[a] == BoolNode(truth)
    case LetExpr(x, r, b) => h[a].LetNode? && h[a].varStr == x && Rep(h, h[a].rhs, r) && Rep(h, h[a].body, b)
    case IfExpr(c, t, f) =>
      h[a].IfNode? && Rep(h, h[a].condition, c) && Rep(h, h[a].thenPart, t) && Rep(h, h[a].elsePart, f)
    case CompareExpr(l, r) => h[a].CompareNode? && Rep(h, h[a].lhs, l) && Rep(h, h[a].rhs, r)
    case FunExpr(x, b) => h[a].FunNode? && h[a].formalArg == x && Rep(h, h[a].body, b)
    case CallExpr(f, x) => h[a].CallNode? && Rep(h, h[a].toBeCalled, f) && Rep(h, h[a].actualArg, x)
  }

  /** Nodes allocated later do not change what an address spells out. */
  lemma {:induction false} RepGrows(h: Heap, more: Heap, a: nat, e: Expr)
    requires Rep(h, a, e) && h <= more
    ensures Rep(more, a, e)
    decreases e
  {
    assert more[a] == h[a];
    match e
    case NumExpr(_) =>
    case VarExpr(_) =>
    case BoolExpr(_) =>
    case AddExpr(l, r) => RepGrows(h, more, h[a].lhs, l); RepGrows(h, more, h[a].rhs, r);
    case MultExpr(l, r) => RepGrows(h, more, h[a].lhs, l); RepGrows(h, more, h[a].rhs, r);
    case CompareExpr(l, r) => RepGrows(h, more, h[a].lhs, l); RepGrows(h, more, h[a].rhs, r);
    case LetExpr(_, r, b) => RepGrows(h, more, h[a].rhs, r); RepGrows(h, more, h[a].body, b);
    case IfExpr(c, t, f) =>
      RepGrows(h, more, h[a].condition, c); RepGrows(h, more, h[a].thenPart, t); RepGrows(h, more, h[a].elsePart, f);
    case FunExpr(_, b) => RepGrows(h, more, h[a].body, b);
    case CallExpr(f, x) => RepGrows(h, more, h[a].toBeCalled, f); RepGrows(h, more, h[a].actualArg, x);
  }

  /**
   * `h2` is `h` with nodes appended and with closure nodes given new bodies:
   * no other node is ever overwritten.
   */
  predicate Updated(h: Heap, h2: Heap)
  {
    |h| <= |h2| &&
    forall i {:trigger h[i], h2[i]} :: 0 <= i < |h| ==> h2[i] == h[i] || (h[i].FunNode? && h2[i].FunNode? && h2[i].formalArg == h[i].formalArg)
  }

  lemma UpdatedTrans(h1: Heap, h2: Heap, h3: Heap)
    requires Updated(h1, h2) && Updated(h2, h3)
    ensures Updated(h1, h3)
  {
    forall i | 0 <= i < |h1|
      ensures h3[i] == h1[i] || (h1[i].FunNode? && h3[i].FunNode? && h3[i].formalArg == h1[i].formalArg)
    {
      assert h2[i] == h1[i] || (h1[i].FunNode? && h2[i].FunNode? && h2[i].formalArg == h1[i].formalArg);
      assert h3[i] == h2[i] || (h2[i].FunNode? && h3[i].FunNode? && h3[i].formalArg == h2[i].formalArg);
    }
  }

  lemma UpdatedAt(h: Heap, h2: Heap, a: nat)
    requires Updated(h, h2) && a < |h|
    ensures h2[a] == h[a] || (h[a].FunNode? && h2[a].FunNode? && h2[a].formalArg == h[a].formalArg)
  {
  }

  lemma UpdatedRefl(h: Heap)
    ensures Updated(h, h)
  {
    forall i | 0 <= i < |h| ensures h[i] == h[i] {}
  }

  lemma PrefixUpdated(h1: Heap, h2: Heap)
    requires h1 <= h2
    ensures Updated(h1, h2)
  {
  }

  /** The heap after both operands of `+`, `*` or `==` are optimized, their addresses, and whether either has a variable. */
  datatype Operands = Operands(heap: Heap, lhs: nat, rhs: nat, anyVar: bool)

  /**
   * `Expr::optimize` on the node at `a`, exactly as written: the children it
   * shares, the copies it makes, and the update of `FunExpr::optimize`, which
   * overwrites the closure node with its optimized body before copying it.
   */
  function Optimize(h: Heap, a: nat, fuel: nat): (r: Result<Built>)
    ensures r.Ok? ==> |h| < |r.value.heap| && r.value.addr < |r.value.heap|
    decreases fuel, 0
  {
    if fuel == 0 then OutOfFuel
    else if a >= |h| then Undefined
    else
      match h[a]
      case NumNode(rep) => Ok(New(h, NumNode(rep)))
      case VarNode(name) => Ok(New(h, VarNode(name)))
      case BoolNode(truth) => Ok(New(h, BoolNode(truth)))
      case AddNode(_, _) => OptimizeBinary(h, h[a], fuel - 1)
      case MultNode(_, _) => OptimizeBinary(h, h[a], fuel - 1)
      case CompareNode(_, _) => OptimizeBinary(h, h[a], fuel - 1)
      case LetNode(varStr, rhs, body) => OptimizeLet(h, varStr, rhs, body, fuel - 1)
      case IfNode(condition, thenPart, elsePart) => OptimizeIf(h, condition, thenPart, elsePart, fuel - 1)
      case FunNode(formalArg, body) => OptimizeFun(h, a, formalArg, body, fuel - 1)
      case CallNode(toBeCalled, actualArg) => Ok(New(h, CallNode(toBeCalled, actualArg)))
  }

  /**
   * `AddExpr::optimize`, `MultExpr::optimize` and `CompareExpr::optimize`: a
   * new node of the same kind over the optimized operands when either has a
   * variable, otherwise the operands folded, where both must be numbers for
   * `+` and `*` and the result must fit in `int`.
   */
  function OptimizeBinary(h: Heap, n: Node, fuel: nat): (r: Result<Built>)
    requires n.AddNode? || n.MultNode? || n.CompareNode?
    ensures r.Ok? ==> |h| < |r.value.heap| && r.value.addr < |r.value.heap|
    decreases fuel, 2
  {
    var o :- OptimizeOperands(h, n.lhs, n.rhs, fuel);
    var g := o.heap;
    if o.anyVar then
      Ok(New(g, if n.AddNode? then AddNode(o.lhs, o.rhs) else if n.MultNode? then MultNode(o.lhs, o.rhs) else CompareNode(o.lhs, o.rhs)))
    else if n.CompareNode? then
      var same :- Equal(g, o.lhs, o.rhs, fuel);
      Ok(New(g, BoolNode(same)))
    else if !g[o.lhs].NumNode? || !g[o.rhs].NumNode? then Undefined
    else
      var folded := if n.AddNode? then g[o.lhs].rep as int + g[o.rhs].rep as int else g[o.lhs].rep as int * g[o.rhs].rep as int;
      if !InRange(folded) then Undefined else Ok(New(g, NumNode(folded as int32)))
  }

  /**
   * `LetExpr::optimize`: the right-hand side, then the body, then
   * `containsVar` of the optimized right-hand side. When that is false the
   * optimized right-hand side is cast to a number and substituted into the
   * optimized body, which is optimized again.
   */
  function OptimizeLet(h: Heap, varStr: string, rhs: nat, body: nat, fuel: nat): (r: Result<Built>)
    ensures r.Ok? ==> |h| < |r.value.heap| && r.value.addr < |r.value.heap|
    decreases fuel, 2
  {
    var tr :- Optimize(h, rhs, fuel);
    var tb :- Optimize(tr.heap, body, fuel);
    var rv :- ContainsVar(tb.heap, tr.addr, fuel);
    var g := rv.heap;
    if rv.answer then Ok(New(g, LetNode(varStr, tr.addr, tb.addr)))
    else if !g[tr.addr].NumNode? then Undefined
    else
      var s :- Subst(g, tb.addr, varStr, g[tr.addr].rep, fuel);
      Optimize(s.heap, s.addr, fuel)
  }

  /**
   * `IfExpr::optimize`: when the optimized condition is no `BoolExpr`, a new
   * node over the original condition and branches, which it shares.
   */
  function OptimizeIf(h: Heap, condition: nat, thenPart: nat, elsePart: nat, fuel: nat): (r: Result<Built>)
    ensures r.Ok? ==> |h| < |r.value.heap| && r.value.addr < |r.value.heap|
    decreases fuel, 2
  {
    var tc :- Optimize(h, condition, fuel);
    var g := tc.heap;
    if !g[tc.addr].BoolNode? then Ok(New(g, IfNode(condition, thenPart, elsePart)))
    else Optimize(g, if g[tc.addr].truth then thenPart else elsePart, fuel)
  }

  /**
   * `FunExpr::optimize`: `body = body->optimize()` overwrites the node at `a`
   * with one whose body is the optimized body, then a copy of it is returned.
   */
  function OptimizeFun(h: Heap, a: nat, formalArg: string, body: nat, fuel: nat): (r: Result<Built>)
    requires a < |h|
    ensures r.Ok? ==> |h| < |r.value.heap| && r.value.addr < |r.value.heap|
    ensures r.Ok? ==> r.value.heap[a] == r.value.heap[r.value.addr] && r.value.heap[a].FunNode? && r.value.heap[a].formalArg == formalArg
    decreases fuel, 2
  {
    var tb :- Optimize(h, body, fuel);
    Ok(New(tb.heap[a := FunNode(formalArg, tb.addr)], FunNode(formalArg, tb.addr)))
  }

  /**
   * The operands of `+`, `*` and `==` optimized left then right, then
   * `tl->containsVar()` and, only when that is false, `tr->containsVar()`.
   */
  function OptimizeOperands(h: Heap, lhs: nat, rhs: nat, fuel: nat): (r: Result<Operands>)
    ensures r.Ok? ==> |h| < |r.value.heap| && r.value.lhs < |r.value.heap| && r.value.rhs < |r.value.heap|
    decreases fuel, 1
  {
    var tl :- Optimize(h, lhs, fuel);
    var tr :- Optimize(tl.heap, rhs, fuel);
    var lv :- ContainsVar(tr.heap, tl.addr, fuel);
    if lv.answer then Ok(Operands(lv.heap, tl.addr, tr.addr, true))
    else
      var rv :- ContainsVar(lv.heap, tr.addr, fuel);
      Ok(Operands(rv.heap, tl.addr, tr.addr, rv.answer))
  }

  /**
   * `Expr::containsVar` on the node at `a`, exactly as written; a let builds a
   * copy of itself that shares its children and optimizes that copy, so the
   * let's closures are updated in place.
   */
  function ContainsVar(h: Heap, a: nat, fuel: nat): (r: Result<Tested>)
    ensures r.Ok? ==> |h| <= |r.value.heap|
    decreases fuel, 0
  {
    if fuel == 0 then OutOfFuel
    else if a >= |h| then Undefined
    else
      match h[a]
      case NumNode(_) => Ok(Tested(h, false))
      case AddNode(lhs, rhs) =>
        var l :- ContainsVar(h, lhs, fuel - 1);
        if l.answer then Ok(l) else ContainsVar(l.heap, rhs, fuel - 1)
      case MultNode(lhs, rhs) =>
        var l :- ContainsVar(h, lhs, fuel - 1);
        if l.answer then Ok(l) else ContainsVar(l.heap, rhs, fuel - 1)
      case VarNode(_) => Ok(Tested(h, true))
      case BoolNode(_) => Ok(Tested(h, true))
      case LetNode(varStr, rhs, body) =>
        var copy := New(h, LetNode(varStr, rhs, body));
        var o :- Optimize(copy.heap, copy.addr, fuel - 1);
        ContainsVar(o.heap, o.addr, fuel - 1)
      case IfNode(_, _, _) => Ok(Tested(h, true))
      case CompareNode(_, _) => Ok(Tested(h, true))
      case FunNode(_, _) => Ok(Tested(h, true))
      case CallNode(toBeCalled, _) => ContainsVar(h, toBeCalled, fuel - 1)
  }

  /**
   * `Expr::subst(x, NumVal(rep))` on the node at `a`: it only allocates. A let
   * that binds `x` and a function whose parameter is `x` are copied with
   * their children shared.
   */
  function Subst(h: Heap, a: nat, x: string, rep: int32, fuel: nat): (r: Result<Built>)
    ensures r.Ok? ==> h < r.value.heap && r.value.addr < |r.value.heap|
    decreases fuel, 0
  {
    if fuel == 0 then OutOfFuel
    else if a >= |h| then Undefined
    else
      match h[a]
      case NumNode(n) => Ok(New(h, NumNode(n)))
      case AddNode(lhs, rhs) =>
        var p :- SubstTwo(h, lhs, rhs, x, rep, fuel - 1);
        Ok(New(p.heap, AddNode(p.first, p.second)))
      case MultNode(lhs, rhs) =>
        var p :- SubstTwo(h, lhs, rhs, x, rep, fuel - 1);
        Ok(New(p.heap, MultNode(p.first, p.second)))
      case VarNode(name) => if name == x then Ok(New(h, NumNode(rep))) else Ok(New(h, VarNode(name)))
      case BoolNode(truth) => Ok(New(h, BoolNode(truth)))
      case LetNode(varStr, rhs, body) =>
        if x == varStr then Ok(New(h, LetNode(varStr, rhs, body)))
        else
          var p :- SubstTwo(h, rhs, body, x, rep, fuel - 1);
          Ok(New(p.heap, LetNode(varStr, p.first, p.second)))
      case IfNode(c, t, f) =>
        var p :- SubstTwo(h, c, t, x, rep, fuel - 1);
        var sf :- Subst(p.heap, f, x, rep, fuel - 1);
        Ok(New(sf.heap, IfNode(p.first, p.second, sf.addr)))
      case CompareNode(lhs, rhs) =>
        var p :- SubstTwo(h, lhs, rhs, x, rep, fuel - 1);
        Ok(New(p.heap, CompareNode(p.first, p.second)))
      case FunNode(formalArg, body) =>
        if x == formalArg then Ok(New(h, FunNode(formalArg, body)))
        else
          var sb :- Subst(h, body, x, rep, fuel - 1);
          Ok(New(sb.heap, FunNode(formalArg, sb.addr)))
      case CallNode(f, arg) =>
        var p :- SubstTwo(h, f, arg, x, rep, fuel - 1);
        Ok(New(p.heap, CallNode(p.first, p.second)))
  }

  /** The heap after two children are substituted one after the other, and their copies. */
  datatype Pair = Pair(heap: Heap, first: nat, second: nat)

  /** `subst` of two children, the first one first. */
  function SubstTwo(h: Heap, a1: nat, a2: nat, x: string, rep: int32, fuel: nat): (r: Result<Pair>)
    ensures r.Ok? ==> h < r.value.heap && r.value.first < |r.value.heap| && r.value.second < |r.value.heap|
    decreases fuel, 1
  {
    var s1 :- Subst(h, a1, x, rep, fuel);
    var s2 :- Subst(s1.heap, a2, x, rep, fuel);
    Ok(Pair(s2.heap, s1.addr, s2.addr))
  }

  /** `Expr::equals` of the nodes at `a` and `b`: the class, then the fields. */
  function Equal(h: Heap, a: nat, b: nat, fuel: nat): Result<bool>
    decreases fuel, 0
  {
    if fuel == 0 then OutOfFuel
    else if a >= |h| || b >= |h| then Undefined
    else
      var e := h[b];
      match h[a]
      case NumNode(rep) => Ok(e.NumNode? && e.rep == rep)
      case AddNode(lhs, rhs) => if !e.AddNode? then Ok(false) else EqualPair(h, lhs, e.lhs, rhs, e.rhs, fuel - 1)
      case MultNode(lhs, rhs) => if !e.MultNode? then Ok(false) else EqualPair(h, lhs, e.lhs, rhs, e.rhs, fuel - 1)
      case VarNode(name) => Ok(e.VarNode? && e.name == name)
      case BoolNode(truth) => Ok(e.BoolNode? && e.truth == truth)
      case LetNode(varStr, rhs, body) =>
        if !e.LetNode? || e.varStr != varStr then Ok(false) else EqualPair(h, e.rhs, rhs, e.body, body, fuel - 1)
      case IfNode(c, t, f) =>
        if !e.IfNode? then Ok(false)
        else
          var ct :- EqualPair(h, e.condition, c, e.thenPart, t, fuel - 1);
          if !ct then Ok(false) else Equal(h, e.elsePart, f, fuel - 1)
      case CompareNode(lhs, rhs) => if !e.CompareNode? then Ok(false) else EqualPair(h, lhs, e.lhs, rhs, e.rhs, fuel - 1)
      case FunNode(formalArg, body) =>
        if !e.FunNode? || e.formalArg != formalArg then Ok(false) else Equal(h, e.body, body, fuel - 1)
      case CallNode(f, arg) =>
        if !e.CallNode? then Ok(false) else EqualPair(h, e.toBeCalled, f, e.actualArg, arg, fuel - 1)
  }

  /** `x1->equals(y1) && x2->equals(y2)`. */
  function EqualPair(h: Heap, x1: nat, y1: nat, x2: nat, y2: nat, fuel: nat): Result<bool>
    decreases fuel, 1
  {
    var first :- Equal(h, x1, y1, fuel);
    if !first then Ok(false) else Equal(h, x2, y2, fuel)
  }

  /**
   * `optimize` overwrites no node but closures, and those only with a new
   * body: every other node, and every node a parser built for an expression
   * without closures, is as it was.
   */
  lemma {:induction false} OptimizeUpdatesOnlyClosures(h: Heap, a: nat, fuel: nat)
    requires Optimize(h, a, fuel).Ok?
    ensures Updated(h, Optimize(h, a, fuel).value.heap)
    decreases fuel, 0
  {
    match h[a]
    case NumNode(_) => PrefixUpdated(h, Optimize(h, a, fuel).value.heap);
    case VarNode(_) => PrefixUpdated(h, Optimize(h, a, fuel).value.heap);
    case BoolNode(_) => PrefixUpdated(h, Optimize(h, a, fuel).value.heap);
    case CallNode(_, _) => PrefixUpdated(h, Optimize(h, a, fuel).value.heap);
    case AddNode(_, _) => BinaryUpdatesOnlyClosures(h, h[a], fuel - 1);
    case MultNode(_, _) => BinaryUpdatesOnlyClosures(h, h[a], fuel - 1);
    case CompareNode(_, _) => BinaryUpdatesOnlyClosures(h, h[a], fuel - 1);
    case LetNode(varStr, rhs, body) => LetUpdatesOnlyClosures(h, varStr, rhs, body, fuel - 1);
    case IfNode(condition, thenPart, elsePart) => IfUpdatesOnlyClosures(h, condition, thenPart, elsePart, fuel - 1);
    case FunNode(formalArg, body) => FunUpdatesOnlyClosures(h, a, formalArg, body, fuel - 1);
  }

  lemma {:induction false} BinaryUpdatesOnlyClosures(h: Heap, n: Node, fuel: nat)
    requires (n.AddNode? || n.MultNode? || n.CompareNode?) && OptimizeBinary(h, n, fuel).Ok?
    ensures Updated(h, OptimizeBinary(h, n, fuel).value.heap)
    decreases fuel, 2
  {
    OperandsUpdateOnlyClosures(h, n.lhs, n.rhs, fuel);
    var g := OptimizeOperands(h, n.lhs, n.rhs, fuel).value.heap;
    var b := OptimizeBinary(h, n, fuel).value;
    assert b.heap == g + [b.heap[|g|]];
    PrefixUpdated(g, b.heap);
    UpdatedTrans(h, g, b.heap);
  }

  lemma {:induction false} OperandsUpdateOnlyClosures(h: Heap, lhs: nat, rhs: nat, fuel: nat)
    requires OptimizeOperands(h, lhs, rhs, fuel).Ok?
    ensures Updated(h, OptimizeOperands(h, lhs, rhs, fuel).value.heap)
    decreases fuel, 1
  {
    OptimizeUpdatesOnlyClosures(h, lhs, fuel);
    var tl := Optimize(h, lhs, fuel).value;
    OptimizeUpdatesOnlyClosures(tl.heap, rhs, fuel);
    var tr := Optimize(tl.heap, rhs, fuel).value;
    ContainsVarUpdatesOnlyClosures(tr.heap, tl.addr, fuel);
    var lv := ContainsVar(tr.heap, tl.addr, fuel).value;
    UpdatedTrans(h, tl.heap, tr.heap);
    UpdatedTrans(h, tr.heap, lv.heap);
    if !lv.answer {
      ContainsVarUpdatesOnlyClosures(lv.heap, tr.addr, fuel);
      UpdatedTrans(h, lv.heap, ContainsVar(lv.heap, tr.addr, fuel).value.heap);
    }
  }

  lemma {:induction false} LetUpdatesOnlyClosures(h: Heap, varStr: string, rhs: nat, body: nat, fuel: nat)
    requires OptimizeLet(h, varStr, rhs, body, fuel).Ok?
    ensures Updated(h, OptimizeLet(h, varStr, rhs, body, fuel).value.heap)
    decreases fuel, 2
  {
    OptimizeUpdatesOnlyClosures(h, rhs, fuel);
    var tr := Optimize(h, rhs, fuel).value;
    OptimizeUpdatesOnlyClosures(tr.heap, body, fuel);
    var tb := Optimize(tr.heap, body, fuel).value;
    ContainsVarUpdatesOnlyClosures(tb.heap, tr.addr, fuel);
    var rv := ContainsVar(tb.heap, tr.addr, fuel).value;
    UpdatedTrans(h, tr.heap, tb.heap);
    UpdatedTrans(h, tb.heap, rv.heap);
    var r := OptimizeLet(h, varStr, rhs, body, fuel).value;
    if rv.answer {
      PrefixUpdated(rv.heap, r.heap);
    } else {
      var s := Subst(rv.heap, tb.addr, varStr, rv.heap[tr.addr].rep, fuel).value;
      PrefixUpdated(rv.heap, s.heap);
      OptimizeUpdatesOnlyClosures(s.heap, s.addr, fuel);
      UpdatedTrans(rv.heap, s.heap, r.heap);
    }
    UpdatedTrans(h, rv.heap, r.heap);
  }

  lemma {:induction false} IfUpdatesOnlyClosures(h: Heap, condition: nat, thenPart: nat, elsePart: nat, fuel: nat)
    requires OptimizeIf(h, condition, thenPart, elsePart, fuel).Ok?
    ensures Updated(h, OptimizeIf(h, condition, thenPart, elsePart, fuel).value.heap)
    decreases fuel, 2
  {
    OptimizeUpdatesOnlyClosures(h, condition, fuel);
    var g := Optimize(h, condition, fuel).value;
    var r := OptimizeIf(h, condition, thenPart, elsePart, fuel).value;
    if !g.heap[g.addr].BoolNode? {
      PrefixUpdated(g.heap, r.heap);
    } else {
      OptimizeUpdatesOnlyClosures(g.heap, if g.heap[g.addr].truth then thenPart else elsePart, fuel);
    }
    UpdatedTrans(h, g.heap, r.heap);
  }

  lemma {:induction false} FunUpdatesOnlyClosures(h: Heap, a: nat, formalArg: string, body: nat, fuel: nat)
    requires a < |h| && h[a] == FunNode(formalArg, body) && OptimizeFun(h, a, formalArg, body, fuel).Ok?
    ensures Updated(h, OptimizeFun(h, a, formalArg, body, fuel).value.heap)
    decreases fuel, 2
  {
    OptimizeUpdatesOnlyClosures(h, body, fuel);
    var tb := Optimize(h, body, fuel).value;
    assert tb.heap[a].FunNode? && tb.heap[a].formalArg == formalArg by {
      assert tb.heap[a] == h[a] || (h[a].FunNode? && tb.heap[a].FunNode? && tb.heap[a].formalArg == h[a].formalArg);
    }
    var g := tb.heap[a := FunNode(formalArg, tb.addr)];
    forall i | 0 <= i < |tb.heap|
      ensures g[i] == tb.heap[i] || (tb.heap[i].FunNode? && g[i].FunNode? && g[i].formalArg == tb.heap[i].formalArg)
    {
    }
    UpdatedTrans(h, tb.heap, g);
    PrefixUpdated(g, OptimizeFun(h, a, formalArg, body, fuel).value.heap);
    UpdatedTrans(h, g, OptimizeFun(h, a, formalArg, body, fuel).value.heap);
  }

  /** `containsVar` too overwrites no node but closures, through the copies of lets it optimizes. */
  lemma {:induction false} ContainsVarUpdatesOnlyClosures(h: Heap, a: nat, fuel: nat)
    requires ContainsVar(h, a, fuel).Ok?
    ensures Updated(h, ContainsVar(h, a, fuel).value.heap)
    decreases fuel, 0
  {
    match h[a]
    case AddNode(lhs, rhs) =>
      ContainsVarUpdatesOnlyClosures(h, lhs, fuel - 1);
      var l := ContainsVar(h, lhs, fuel - 1).value;
      if !l.answer {
        ContainsVarUpdatesOnlyClosures(l.heap, rhs, fuel - 1);
        UpdatedTrans(h, l.heap, ContainsVar(l.heap, rhs, fuel - 1).value.heap);
      }
    case MultNode(lhs, rhs) =>
      ContainsVarUpdatesOnlyClosures(h, lhs, fuel - 1);
      var l := ContainsVar(h, lhs, fuel - 1).value;
      if !l.answer {
        ContainsVarUpdatesOnlyClosures(l.heap, rhs, fuel - 1);
        UpdatedTrans(h, l.heap, ContainsVar(l.heap, rhs, fuel - 1).value.heap);
      }
    case LetNode(varStr, rhs, body) =>
      var copy := New(h, LetNode(varStr, rhs, body));
      PrefixUpdated(h, copy.heap);
      OptimizeUpdatesOnlyClosures(copy.heap, copy.addr, fuel - 1);
      var o := Optimize(copy.heap, copy.addr, fuel - 1).value;
      ContainsVarUpdatesOnlyClosures(o.heap, o.addr, fuel - 1);
      UpdatedTrans(h, copy.heap, o.heap);
      UpdatedTrans(h, o.heap, ContainsVar(o.heap, o.addr, fuel - 1).value.heap);
    case CallNode(toBeCalled, _) => ContainsVarUpdatesOnlyClosures(h, toBeCalled, fuel - 1);
    case NumNode(_) => UpdatedRefl(h);
    case VarNode(_) => UpdatedRefl(h);
    case BoolNode(_) => UpdatedRefl(h);
    case IfNode(_, _, _) => UpdatedRefl(h);
    case CompareNode(_, _) => UpdatedRefl(h);
    case FunNode(_, _) => UpdatedRefl(h);
  }

  /** An expression with no `_fun` in it: no node of it can be updated in place. */
  predicate ClosureFree(e: Expr)
  {
    match e
    case NumExpr(_) => true
    case VarExpr(_) => true
    case BoolExpr(_) => true
    case AddExpr(l, r) => ClosureFree(l) && ClosureFree(r)
    case MultExpr(l, r) => ClosureFree(l) && ClosureFree(r)
    case CompareExpr(l, r) => ClosureFree(l) && ClosureFree(r)
    case LetExpr(_, r, b) => ClosureFree(r) && ClosureFree(b)
    case IfExpr(c, t, f) => ClosureFree(c) && ClosureFree(t) && ClosureFree(f)
    case FunExpr(_, _) => false
    case CallExpr(f, x) => ClosureFree(f) && ClosureFree(x)
  }

  /** What an updated heap spells at an address is unchanged for a tree without closures. */
  lemma {:induction false} RepKept(h: Heap, h2: Heap, a: nat, e: Expr)
    requires Rep(h, a, e) && ClosureFree(e) && Updated(h, h2)
    ensures Rep(h2, a, e)
    decreases e
  {
    UpdatedAt(h, h2, a);
    match e
    case NumExpr(_) =>
    case VarExpr(_) =>
    case BoolExpr(_) =>
    case AddExpr(l, r) => RepKept(h, h2, h[a].lhs, l); RepKept(h, h2, h[a].rhs, r);
    case MultExpr(l, r) => RepKept(h, h2, h[a].lhs, l); RepKept(h, h2, h[a].rhs, r);
    case CompareExpr(l, r) => RepKept(h, h2, h[a].lhs, l); RepKept(h, h2, h[a].rhs, r);
    case LetExpr(_, r, b) => RepKept(h, h2, h[a].rhs, r); RepKept(h, h2, h[a].body, b);
    case IfExpr(c, t, f) => RepKept(h, h2, h[a].condition, c); RepKept(h, h2, h[a].thenPart, t); RepKept(h, h2, h[a].elsePart, f);
    case CallExpr(f, x) => RepKept(h, h2, h[a].toBeCalled, f); RepKept(h, h2, h[a].actualArg, x);
  }

  /** Substituting a number keeps a tree free of closures. */
  lemma {:induction false} SubstKeepsClosureFree(e: Expr, x: string, rep: int32)
    requires ClosureFree(e)
    ensures ClosureFree(Rewrite.Subst(e, x, NumVal(rep)))
  {
    match e
    case NumExpr(_) =>
    case VarExpr(_) =>
    case BoolExpr(_) =>
    case AddExpr(l, r) => SubstKeepsClosureFree(l, x, rep); SubstKeepsClosureFree(r, x, rep);
    case MultExpr(l, r) => SubstKeepsClosureFree(l, x, rep); SubstKeepsClosureFree(r, x, rep);
    case CompareExpr(l, r) => SubstKeepsClosureFree(l, x, rep); SubstKeepsClosureFree(r, x, rep);
    case LetExpr(_, r, b) => SubstKeepsClosureFree(r, x, rep); SubstKeepsClosureFree(b, x, rep);
    case IfExpr(c, t, f) => SubstKeepsClosureFree(c, x, rep); SubstKeepsClosureFree(t, x, rep); SubstKeepsClosureFree(f, x, rep);
    case CallExpr(f, a) => SubstKeepsClosureFree(f, x, rep); SubstKeepsClosureFree(a, x, rep);
  }

  /** `subst` on the heap builds the tree `Rewrite.Subst` computes, for any tree. */
  lemma {:induction false} SubstAgrees(h: Heap, a: nat, e: Expr, x: string, rep: int32, fuel: nat)
    requires Rep(h, a, e) && !Subst(h, a, x, rep, fuel).OutOfFuel?
    ensures Subst(h, a, x, rep, fuel).Ok?
    ensures Rep(Subst(h, a, x, rep, fuel).value.heap, Subst(h, a, x, rep, fuel).value.addr, Rewrite.Subst(e, x, NumVal(rep)))
    decreases fuel, 1
  {
    match e
    case NumExpr(_) =>
    case VarExpr(_) =>
    case BoolExpr(_) =>
    case AddExpr(_, _) => SubstBinaryAgrees(h, a, e, x, rep, fuel);
    case MultExpr(_, _) => SubstBinaryAgrees(h, a, e, x, rep, fuel);
    case CompareExpr(_, _) => SubstBinaryAgrees(h, a, e, x, rep, fuel);
    case CallExpr(_, _) => SubstBinaryAgrees(h, a, e, x, rep, fuel);
    case LetExpr(_, _, _) => SubstLetAgrees(h, a, e, x, rep, fuel);
    case IfExpr(_, _, _) => SubstIfAgrees(h, a, e, x, rep, fuel);
    case FunExpr(_, _) => SubstFunAgrees(h, a, e, x, rep, fuel);
  }

  /** The two children of a node of `+`, `*`, `==` or a call, at their addresses. */
  function Children(n: Node, e: Expr): (nat, Expr, nat, Expr)
    requires n.AddNode? || n.MultNode? || n.CompareNode? || n.CallNode?
    requires e.AddExpr? || e.MultExpr? || e.CompareExpr? || e.CallExpr?
  {
    if n.CallNode? then (n.toBeCalled, if e.CallExpr? then e.toBeCalled else e.lhs, n.actualArg, if e.CallExpr? then e.actualArg else e.rhs)
    else (n.lhs, if e.CallExpr? then e.toBeCalled else e.lhs, n.rhs, if e.CallExpr? then e.actualArg else e.rhs)
  }

  lemma {:induction false} SubstBinaryAgrees(h: Heap, a: nat, e: Expr, x: string, rep: int32, fuel: nat)
    requires e.AddExpr? || e.MultExpr? || e.CompareExpr? || e.CallExpr?
    requires Rep(h, a, e) && !Subst(h, a, x, rep, fuel).OutOfFuel?
    ensures Subst(h, a, x, rep, fuel).Ok?
    ensures Rep(Subst(h, a, x, rep, fuel).value.heap, Subst(h, a, x, rep, fuel).value.addr, Rewrite.Subst(e, x, NumVal(rep)))
    decreases fuel, 0
  {
    var c := Children(h[a], e);
    SubstTwoAgrees(h, c.0, c.1, c.2, c.3, x, rep, fuel - 1);
    var p := SubstTwo(h, c.0, c.2, x, rep, fuel - 1).value;
    var r := Subst(h, a, x, rep, fuel).value;
    assert r.heap == p.heap + [r.heap[|p.heap|]];
    RepGrows(p.heap, r.heap, p.first, Rewrite.Subst(c.1, x, NumVal(rep)));
    RepGrows(p.heap, r.heap, p.second, Rewrite.Subst(c.3, x, NumVal(rep)));
  }

  lemma {:induction false} SubstLetAgrees(h: Heap, a: nat, e: Expr, x: string, rep: int32, fuel: nat)
    requires e.LetExpr? && Rep(h, a, e) && !Subst(h, a, x, rep, fuel).OutOfFuel?
    ensures Subst(h, a, x, rep, fuel).Ok?
    ensures Rep(Subst(h, a, x, rep, fuel).value.heap, Subst(h, a, x, rep, fuel).value.addr, Rewrite.Subst(e, x, NumVal(rep)))
    decreases fuel, 0
  {
    var n := h[a];
    if x == e.varStr {
      var r := New(h, n);
      RepGrows(h, r.heap, n.rhs, e.rhs);
      RepGrows(h, r.heap, n.body, e.body);
    } else {
      SubstTwoAgrees(h, n.rhs, e.rhs, n.body, e.body, x, rep, fuel - 1);
      var p := SubstTwo(h, n.rhs, n.body, x, rep, fuel - 1).value;
      var r := Subst(h, a, x, rep, fuel).value;
      assert r.heap == p.heap + [r.heap[|p.heap|]];
      RepGrows(p.heap, r.heap, p.first, Rewrite.Subst(e.rhs, x, NumVal(rep)));
      RepGrows(p.heap, r.heap, p.second, Rewrite.Subst(e.body, x, NumVal(rep)));
    }
  }

  lemma {:induction false} SubstFunAgrees(h: Heap, a: nat, e: Expr, x: string, rep: int32, fuel: nat)
    requires e.FunExpr? && Rep(h, a, e) && !Subst(h, a, x, rep, fuel).OutOfFuel?
    ensures Subst(h, a, x, rep, fuel).Ok?
    ensures Rep(Subst(h, a, x, rep, fuel).value.heap, Subst(h, a, x, rep, fuel).value.addr, Rewrite.Subst(e, x, NumVal(rep)))
    decreases fuel, 0
  {
    var n := h[a];
    if x == e.formalArg {
      RepGrows(h, New(h, n).heap, n.body, e.body);
    } else {
      SubstAgrees(h, n.body, e.body, x, rep, fuel - 1);
      var sb := Subst(h, n.body, x, rep, fuel - 1).value;
      var r := Subst(h, a, x, rep, fuel).value;
      assert r.heap == sb.heap + [r.heap[|sb.heap|]];
      RepGrows(sb.heap, r.heap, sb.addr, Rewrite.Subst(e.body, x, NumVal(rep)));
    }
  }

  lemma {:induction false} SubstIfAgrees(h: Heap, a: nat, e: Expr, x: string, rep: int32, fuel: nat)
    requires e.IfExpr? && Rep(h, a, e) && !Subst(h, a, x, rep, fuel).OutOfFuel?
    ensures Subst(h, a, x, rep, fuel).Ok?
    ensures Rep(Subst(h, a, x, rep, fuel).value.heap, Subst(h, a, x, rep, fuel).value.addr, Rewrite.Subst(e, x, NumVal(rep)))
    decreases fuel, 0
  {
    var n := h[a];
    SubstTwoAgrees(h, n.condition, e.condition, n.thenPart, e.thenPart, x, rep, fuel - 1);
    var p := SubstTwo(h, n.condition, n.thenPart, x, rep, fuel - 1).value;
    RepGrows(h, p.heap, n.elsePart, e.elsePart);
    SubstAgrees(p.heap, n.elsePart, e.elsePart, x, rep, fuel - 1);
    var sf := Subst(p.heap, n.elsePart, x, rep, fuel - 1).value;
    var r := Subst(h, a, x, rep, fuel).value;
    assert r.heap == sf.heap + [r.heap[|sf.heap|]];
    RepGrows(p.heap, r.heap, p.first, Rewrite.Subst(e.condition, x, NumVal(rep)));
    RepGrows(p.heap, r.heap, p.second, Rewrite.Subst(e.thenPart, x, NumVal(rep)));
    RepGrows(sf.heap, r.heap, sf.addr, Rewrite.Subst(e.elsePart, x, NumVal(rep)));
  }

  /** `SubstAgrees` for two children: both copies are spelt out on the heap after the second. */
  lemma {:induction false} SubstTwoAgrees(h: Heap, a1: nat, e1: Expr, a2: nat, e2: Expr, x: string, rep: int32, fuel: nat)
    requires Rep(h, a1, e1) && Rep(h, a2, e2) && !SubstTwo(h, a1, a2, x, rep, fuel).OutOfFuel?
    ensures SubstTwo(h, a1, a2, x, rep, fuel).Ok?
    ensures var p := SubstTwo(h, a1, a2, x, rep, fuel).value;
            Rep(p.heap, p.first, Rewrite.Subst(e1, x, NumVal(rep))) && Rep(p.heap, p.second, Rewrite.Subst(e2, x, NumVal(rep)))
    decreases fuel, 2
  {
    SubstAgrees(h, a1, e1, x, rep, fuel);
    var s1 := Subst(h, a1, x, rep, fuel).value;
    RepGrows(h, s1.heap, a2, e2);
    SubstAgrees(s1.heap, a2, e2, x, rep, fuel);
    var s2 := Subst(s1.heap, a2, x, rep, fuel).value;
    RepGrows(s1.heap, s2.heap, s1.addr, Rewrite.Subst(e1, x, NumVal(rep)));
  }

  /** `equals` on the heap compares the trees the two addresses spell. */
  lemma {:induction false} EqualAgrees(h: Heap, a: nat, b: nat, e1: Expr, e2: Expr, fuel: nat)
    requires Rep(h, a, e1) && Rep(h, b, e2) && !Equal(h, a, b, fuel).OutOfFuel?
    ensures Equal(h, a, b, fuel) == Ok(e1 == e2)
    decreases fuel, 1
  {
    match e1
    case NumExpr(_) =>
    case VarExpr(_) =>
    case BoolExpr(_) =>
    case AddExpr(_, _) => EqualBinaryAgrees(h, a, b, e1, e2, fuel);
    case MultExpr(_, _) => EqualBinaryAgrees(h, a, b, e1, e2, fuel);
    case CompareExpr(_, _) => EqualBinaryAgrees(h, a, b, e1, e2, fuel);
    case CallExpr(_, _) => EqualBinaryAgrees(h, a, b, e1, e2, fuel);
    case LetExpr(_, _, _) => EqualScopeAgrees(h, a, b, e1, e2, fuel);
    case FunExpr(_, _) => EqualScopeAgrees(h, a, b, e1, e2, fuel);
    case IfExpr(_, _, _) => EqualIfAgrees(h, a, b, e1, e2, fuel);
  }

  lemma {:induction false} EqualBinaryAgrees(h: Heap, a: nat, b: nat, e1: Expr, e2: Expr, fuel: nat)
    requires e1.AddExpr? || e1.MultExpr? || e1.CompareExpr? || e1.CallExpr?
    requires Rep(h, a, e1) && Rep(h, b, e2) && !Equal(h, a, b, fuel).OutOfFuel?
    ensures Equal(h, a, b, fuel) == Ok(e1 == e2)
    decreases fuel, 0
  {
    var n1 := h[a];
    var n2 := h[b];
    match e1
    case AddExpr(l, r) => if e2.AddExpr? { EqualPairAgrees(h, n1.lhs, n2.lhs, n1.rhs, n2.rhs, l, e2.lhs, r, e2.rhs, fuel - 1); }
    case MultExpr(l, r) => if e2.MultExpr? { EqualPairAgrees(h, n1.lhs, n2.lhs, n1.rhs, n2.rhs, l, e2.lhs, r, e2.rhs, fuel - 1); }
    case CompareExpr(l, r) => if e2.CompareExpr? { EqualPairAgrees(h, n1.lhs, n2.lhs, n1.rhs, n2.rhs, l, e2.lhs, r, e2.rhs, fuel - 1); }
    case CallExpr(f, x) =>
      if e2.CallExpr? { EqualPairAgrees(h, n2.toBeCalled, n1.toBeCalled, n2.actualArg, n1.actualArg, e2.toBeCalled, f, e2.actualArg, x, fuel - 1); }
  }

  lemma {:induction false} EqualScopeAgrees(h: Heap, a: nat, b: nat, e1: Expr, e2: Expr, fuel: nat)
    requires e1.LetExpr? || e1.FunExpr?
    requires Rep(h, a, e1) && Rep(h, b, e2) && !Equal(h, a, b, fuel).OutOfFuel?
    ensures Equal(h, a, b, fuel) == Ok(e1 == e2)
    decreases fuel, 0
  {
    var n1 := h[a];
    var n2 := h[b];
    match e1
    case LetExpr(x, r, body) =>
      if e2.LetExpr? && e2.varStr == x { EqualPairAgrees(h, n2.rhs, n1.rhs, n2.body, n1.body, e2.rhs, r, e2.body, body, fuel - 1); }
    case FunExpr(x, body) =>
      if e2.FunExpr? && e2.formalArg == x { EqualAgrees(h, n2.body, n1.body, e2.body, body, fuel - 1); }
  }

  lemma {:induction false} EqualIfAgrees(h: Heap, a: nat, b: nat, e1: Expr, e2: Expr, fuel: nat)
    requires e1.IfExpr? && Rep(h, a, e1) && Rep(h, b, e2) && !Equal(h, a, b, fuel).OutOfFuel?
    ensures Equal(h, a, b, fuel) == Ok(e1 == e2)
    decreases fuel, 0
  {
    var n1 := h[a];
    var n2 := h[b];
    if e2.IfExpr? {
      EqualPairAgrees(h, n2.condition, n1.condition, n2.thenPart, n1.thenPart, e2.condition, e1.condition, e2.thenPart, e1.thenPart, fuel - 1);
      if EqualPair(h, n2.condition, n1.condition, n2.thenPart, n1.thenPart, fuel - 1) == Ok(true) {
        EqualAgrees(h, n2.elsePart, n1.elsePart, e2.elsePart, e1.elsePart, fuel - 1);
      }
    }
  }

  lemma {:induction false} EqualPairAgrees(h: Heap, x1: nat, y1: nat, x2: nat, y2: nat, a1: Expr, b1: Expr, a2: Expr, b2: Expr, fuel: nat)
    requires Rep(h, x1, a1) && Rep(h, y1, b1) && Rep(h, x2, a2) && Rep(h, y2, b2)
    requires !EqualPair(h, x1, y1, x2, y2, fuel).OutOfFuel?
    ensures EqualPair(h, x1, y1, x2, y2, fuel) == Ok(a1 == b1 && a2 == b2)
    decreases fuel, 2
  {
    EqualAgrees(h, x1, y1, a1, b1, fuel);
    if a1 == b1 { EqualAgrees(h, x2, y2, a2, b2, fuel); }
  }

  /**
   * A heap answer of `optimize` and a value answer agree: the same tree, with
   * no closure in it, or undefined behaviour in both.
   */
  predicate Agrees(r: Result<Built>, v: Result<Expr>)
  {
    match r
    case Ok(b) => v.Ok? && Rep(b.heap, b.addr, v.value) && ClosureFree(v.value)
    case Undefined => v.Undefined?
    case _ => false
  }

  /** A heap answer of `containsVar` and a value answer agree. */
  predicate Answers(r: Result<Tested>, v: Result<bool>)
  {
    match r
    case Ok(t) => v == Ok(t.answer)
    case Undefined => v.Undefined?
    case _ => false
  }

  /** The operands of `+`, `*` and `==` on values, with the source's `containsVar`, as `Rewrite.OptimizeAsWritten` takes them. */
  function OperandsAsWritten(lhs: Expr, rhs: Expr, fuel: nat): Result<(Expr, Expr, bool)>
  {
    var tl :- Rewrite.OptimizeAsWritten(lhs, fuel);
    var tr :- Rewrite.OptimizeAsWritten(rhs, fuel);
    var anyVar :- Rewrite.EitherContainsVarAsWritten(tl, tr, fuel);
    Ok((tl, tr, anyVar))
  }

  predicate OperandsMatch(o: Result<Operands>, v: Result<(Expr, Expr, bool)>)
  {
    match o
    case Ok(p) =>
      v.Ok? && Rep(p.heap, p.lhs, v.value.0) && Rep(p.heap, p.rhs, v.value.1) && p.anyVar == v.value.2 &&
      ClosureFree(v.value.0) && ClosureFree(v.value.1)
    case Undefined => v.Undefined?
    case _ => false
  }

  /**
   * On a tree without closures in-place `optimize` builds the tree the value
   * model computes, and is undefined exactly where it is.
   */
  lemma {:induction false} OptimizeAgreesOnTrees(h: Heap, a: nat, e: Expr, fuel: nat)
    requires Rep(h, a, e) && ClosureFree(e) && !Optimize(h, a, fuel).OutOfFuel?
    ensures Agrees(Optimize(h, a, fuel), Rewrite.OptimizeAsWritten(e, fuel))
    decreases fuel, 1
  {
    match e
    case NumExpr(_) =>
    case VarExpr(_) =>
    case BoolExpr(_) =>
    case AddExpr(l, r) =>
      ArithOnHeapSplits(h, a, fuel);
      ArithOnValuesSplits(e, fuel);
      ArithAgrees(h, h[a].lhs, h[a].rhs, l, r, true, fuel - 1);
    case MultExpr(l, r) =>
      ArithOnHeapSplits(h, a, fuel);
      ArithOnValuesSplits(e, fuel);
      ArithAgrees(h, h[a].lhs, h[a].rhs, l, r, false, fuel - 1);
    case CompareExpr(l, r) =>
      CompareOnHeapSplits(h, a, fuel);
      CompareOnValuesSplits(e, fuel);
      CompareAgrees(h, h[a].lhs, h[a].rhs, l, r, fuel - 1);
    case LetExpr(_, _, _) => LetAgrees(h, a, e, fuel);
    case IfExpr(_, _, _) => IfAgrees(h, a, e, fuel);
    case CallExpr(_, _) => CallAgrees(h, a, e, fuel);
  }

  /** `+` and `*` on the heap and on values, from their operands on. */
  lemma {:induction false} ArithAgrees(h: Heap, la: nat, ra: nat, l: Expr, r: Expr, add: bool, fuel: nat)
    requires Rep(h, la, l) && Rep(h, ra, r) && ClosureFree(l) && ClosureFree(r)
    requires !OptimizeOperands(h, la, ra, fuel).OutOfFuel?
    ensures Agrees(var o :- OptimizeOperands(h, la, ra, fuel); ArithOnHeap(o.heap, add, o.lhs, o.rhs, o.anyVar),
                   var v :- OperandsAsWritten(l, r, fuel); ArithOnValues(add, v.0, v.1, v.2))
    decreases fuel, 3
  {
    OperandsAgree(h, la, ra, l, r, fuel);
    var o := OptimizeOperands(h, la, ra, fuel);
    if o.Ok? {
      var p := o.value;
      var v := OperandsAsWritten(l, r, fuel).value;
      ArithTailAgrees(p.heap, add, p.lhs, p.rhs, v.0, v.1, p.anyVar);
    }
  }

  /** `==` on the heap and on values, from its operands on. */
  lemma {:induction false} CompareAgrees(h: Heap, la: nat, ra: nat, l: Expr, r: Expr, fuel: nat)
    requires Rep(h, la, l) && Rep(h, ra, r) && ClosureFree(l) && ClosureFree(r)
    requires !(var o :- OptimizeOperands(h, la, ra, fuel); CompareOnHeap(o.heap, o.lhs, o.rhs, o.anyVar, fuel)).OutOfFuel?
    ensures Agrees(var o :- OptimizeOperands(h, la, ra, fuel); CompareOnHeap(o.heap, o.lhs, o.rhs, o.anyVar, fuel),
                   var v :- OperandsAsWritten(l, r, fuel); CompareOnValues(v.0, v.1, v.2))
    decreases fuel, 3
  {
    OperandsAgree(h, la, ra, l, r, fuel);
    var o := OptimizeOperands(h, la, ra, fuel);
    if o.Ok? {
      var p := o.value;
      var v := OperandsAsWritten(l, r, fuel).value;
      CompareTailAgrees(p.heap, p.lhs, p.rhs, v.0, v.1, p.anyVar, fuel);
    }
  }

  /** What `==` does once its operands are optimized and tested, on the heap. */
  function CompareOnHeap(g: Heap, la: nat, ra: nat, anyVar: bool, fuel: nat): Result<Built>
  {
    if anyVar then Ok(New(g, CompareNode(la, ra)))
    else var same :- Equal(g, la, ra, fuel); Ok(New(g, BoolNode(same)))
  }

  /** What `==` does once its operands are optimized and tested, on values. */
  function CompareOnValues(vl: Expr, vr: Expr, anyVar: bool): Result<Expr>
  {
    if anyVar then Ok(CompareExpr(vl, vr)) else Ok(BoolExpr(Exprs.Equals(vl, vr)))
  }

  /** What `+` and `*` do once their operands are optimized and tested, on the heap. */
  function ArithOnHeap(g: Heap, add: bool, la: nat, ra: nat, anyVar: bool): Result<Built>
    requires la < |g| && ra < |g|
  {
    if anyVar then Ok(New(g, if add then AddNode(la, ra) else MultNode(la, ra)))
    else if !g[la].NumNode? || !g[ra].NumNode? then Undefined
    else
      var folded := if add then g[la].rep as int + g[ra].rep as int else g[la].rep as int * g[ra].rep as int;
      if !InRange(folded) then Undefined else Ok(New(g, NumNode(folded as int32)))
  }

  /** What `+` and `*` do once their operands are optimized and tested, on values. */
  function ArithOnValues(add: bool, vl: Expr, vr: Expr, anyVar: bool): Result<Expr>
  {
    if anyVar then Ok(if add then AddExpr(vl, vr) else MultExpr(vl, vr))
    else if !vl.NumExpr? || !vr.NumExpr? then Undefined
    else
      var folded := if add then vl.rep as int + vr.rep as int else vl.rep as int * vr.rep as int;
      if !InRange(folded) then Undefined else Ok(NumExpr(folded as int32))
  }

  /** In-place `+` and `*` are their operands, then what is done with them. */
  lemma ArithOnHeapSplits(h: Heap, a: nat, fuel: nat)
    requires fuel >= 1 && a < |h| && (h[a].AddNode? || h[a].MultNode?)
    ensures Optimize(h, a, fuel) ==
              var o :- OptimizeOperands(h, h[a].lhs, h[a].rhs, fuel - 1);
              ArithOnHeap(o.heap, h[a].AddNode?, o.lhs, o.rhs, o.anyVar)
  {
  }

  /** `+` and `*` on values are their operands, then what is done with them. */
  lemma ArithOnValuesSplits(e: Expr, fuel: nat)
    requires fuel >= 1 && (e.AddExpr? || e.MultExpr?)
    ensures Rewrite.OptimizeAsWritten(e, fuel) ==
              var v :- OperandsAsWritten(e.lhs, e.rhs, fuel - 1);
              ArithOnValues(e.AddExpr?, v.0, v.1, v.2)
  {
  }

  /** In-place `==` is its operands, then what is done with them. */
  lemma CompareOnHeapSplits(h: Heap, a: nat, fuel: nat)
    requires fuel >= 1 && a < |h| && h[a].CompareNode?
    ensures Optimize(h, a, fuel) ==
              var o :- OptimizeOperands(h, h[a].lhs, h[a].rhs, fuel - 1);
              CompareOnHeap(o.heap, o.lhs, o.rhs, o.anyVar, fuel - 1)
  {
  }

  /** `==` on values is its operands, then what is done with them. */
  lemma CompareOnValuesSplits(e: Expr, fuel: nat)
    requires fuel >= 1 && e.CompareExpr?
    ensures Rewrite.OptimizeAsWritten(e, fuel) ==
              var v :- OperandsAsWritten(e.lhs, e.rhs, fuel - 1);
              CompareOnValues(v.0, v.1, v.2)
  {
  }

  /** `CallExpr::optimize` copies the node, sharing both children. */
  lemma CallAgrees(h: Heap, a: nat, e: Expr, fuel: nat)
    requires fuel >= 1 && e.CallExpr? && Rep(h, a, e) && ClosureFree(e)
    ensures Agrees(Optimize(h, a, fuel), Rewrite.OptimizeAsWritten(e, fuel))
  {
    var r := New(h, h[a]);
    RepGrows(h, r.heap, h[a].toBeCalled, e.toBeCalled);
    RepGrows(h, r.heap, h[a].actualArg, e.actualArg);
  }

  /** The end of `AddExpr::optimize` and `MultExpr::optimize`, once the operands are optimized and tested. */
  lemma ArithTailAgrees(g: Heap, add: bool, la: nat, ra: nat, vl: Expr, vr: Expr, anyVar: bool)
    requires Rep(g, la, vl) && Rep(g, ra, vr) && ClosureFree(vl) && ClosureFree(vr)
    ensures Agrees(ArithOnHeap(g, add, la, ra, anyVar), ArithOnValues(add, vl, vr, anyVar))
  {
    if anyVar {
      NewOverOperandsAgrees(g, if add then AddNode(la, ra) else MultNode(la, ra), la, ra, vl, vr, if add then AddExpr(vl, vr) else MultExpr(vl, vr));
    } else {
      RepNumber(g, la, vl);
      RepNumber(g, ra, vr);
    }
  }

  /** A new node of `+`, `*` or `==` over two spelt-out operands spells the expression over them. */
  lemma NewOverOperandsAgrees(g: Heap, n: Node, la: nat, ra: nat, vl: Expr, vr: Expr, v: Expr)
    requires Rep(g, la, vl) && Rep(g, ra, vr) && ClosureFree(vl) && ClosureFree(vr)
    requires (n == AddNode(la, ra) && v == AddExpr(vl, vr)) || (n == MultNode(la, ra) && v == MultExpr(vl, vr)) ||
             (n == CompareNode(la, ra) && v == CompareExpr(vl, vr))
    ensures Agrees(Ok(New(g, n)), Ok(v))
  {
    var r := New(g, n);
    RepGrows(g, r.heap, la, vl);
    RepGrows(g, r.heap, ra, vr);
  }

  /** What a number node spells. */
  lemma RepNumber(g: Heap, a: nat, v: Expr)
    requires Rep(g, a, v)
    ensures g[a].NumNode? <==> v.NumExpr?
    ensures v.NumExpr? ==> g[a].rep == v.rep
  {
  }

  /** The end of `CompareExpr::optimize`, once the operands are optimized and tested. */
  lemma CompareTailAgrees(g: Heap, la: nat, ra: nat, vl: Expr, vr: Expr, anyVar: bool, fuel: nat)
    requires Rep(g, la, vl) && Rep(g, ra, vr) && ClosureFree(vl) && ClosureFree(vr)
    requires !anyVar ==> !Equal(g, la, ra, fuel).OutOfFuel?
    ensures Agrees(CompareOnHeap(g, la, ra, anyVar, fuel), CompareOnValues(vl, vr, anyVar))
  {
    if anyVar {
      NewOverOperandsAgrees(g, CompareNode(la, ra), la, ra, vl, vr, CompareExpr(vl, vr));
    } else {
      EqualAgrees(g, la, ra, vl, vr, fuel);
    }
  }

  lemma {:induction false} OperandsAgree(h: Heap, la: nat, ra: nat, l: Expr, r: Expr, fuel: nat)
    requires Rep(h, la, l) && Rep(h, ra, r) && ClosureFree(l) && ClosureFree(r)
    requires !OptimizeOperands(h, la, ra, fuel).OutOfFuel?
    ensures OperandsMatch(OptimizeOperands(h, la, ra, fuel), OperandsAsWritten(l, r, fuel))
    decreases fuel, 2
  {
    OptimizeAgreesOnTrees(h, la, l, fuel);
    if Optimize(h, la, fuel).Ok? {
      var tl := Optimize(h, la, fuel).value;
      var vl := Rewrite.OptimizeAsWritten(l, fuel).value;
      OptimizeUpdatesOnlyClosures(h, la, fuel);
      RepKept(h, tl.heap, ra, r);
      OptimizeAgreesOnTrees(tl.heap, ra, r, fuel);
      if Optimize(tl.heap, ra, fuel).Ok? {
        var tr := Optimize(tl.heap, ra, fuel).value;
        var vr := Rewrite.OptimizeAsWritten(r, fuel).value;
        OptimizeUpdatesOnlyClosures(tl.heap, ra, fuel);
        RepKept(tl.heap, tr.heap, tl.addr, vl);
        EitherAgrees(tr.heap, tl.addr, tr.addr, vl, vr, fuel);
      }
    }
  }

  /** `tl->containsVar() || tr->containsVar()` on the heap, with both trees still spelt out after it. */
  lemma {:induction false} EitherAgrees(h: Heap, la: nat, ra: nat, l: Expr, r: Expr, fuel: nat)
    requires Rep(h, la, l) && Rep(h, ra, r) && ClosureFree(l) && ClosureFree(r)
    requires !ContainsVar(h, la, fuel).OutOfFuel?
    requires ContainsVar(h, la, fuel).Ok? && !ContainsVar(h, la, fuel).value.answer ==>
               !ContainsVar(ContainsVar(h, la, fuel).value.heap, ra, fuel).OutOfFuel?
    ensures Answers(ContainsVar(h, la, fuel), Rewrite.ContainsVarAsWritten(l, fuel))
    ensures ContainsVar(h, la, fuel).Ok? ==>
              var lv := ContainsVar(h, la, fuel).value;
              Rep(lv.heap, la, l) && Rep(lv.heap, ra, r) &&
              (!lv.answer ==>
                 Answers(ContainsVar(lv.heap, ra, fuel), Rewrite.ContainsVarAsWritten(r, fuel)) &&
                 (ContainsVar(lv.heap, ra, fuel).Ok? ==>
                    Rep(ContainsVar(lv.heap, ra, fuel).value.heap, la, l) && Rep(ContainsVar(lv.heap, ra, fuel).value.heap, ra, r)))
    decreases fuel, 1
  {
    ContainsVarAgreesOnTrees(h, la, l, fuel);
    if ContainsVar(h, la, fuel).Ok? {
      var lv := ContainsVar(h, la, fuel).value;
      ContainsVarUpdatesOnlyClosures(h, la, fuel);
      RepKept(h, lv.heap, la, l);
      RepKept(h, lv.heap, ra, r);
      if !lv.answer {
        ContainsVarAgreesOnTrees(lv.heap, ra, r, fuel);
        if ContainsVar(lv.heap, ra, fuel).Ok? {
          var rv := ContainsVar(lv.heap, ra, fuel).value;
          ContainsVarUpdatesOnlyClosures(lv.heap, ra, fuel);
          RepKept(lv.heap, rv.heap, la, l);
          RepKept(lv.heap, rv.heap, ra, r);
        }
      }
    }
  }

  lemma {:induction false} IfAgrees(h: Heap, a: nat, e: Expr, fuel: nat)
    requires fuel >= 1
    requires e.IfExpr? && Rep(h, a, e) && ClosureFree(e)
    requires !Optimize(h, a, fuel).OutOfFuel?
    ensures Agrees(Optimize(h, a, fuel), Rewrite.OptimizeAsWritten(e, fuel))
    decreases fuel, 0
  {
    var n := h[a];
    OptimizeAgreesOnTrees(h, n.condition, e.condition, fuel - 1);
    if Optimize(h, n.condition, fuel - 1).Ok? {
      var tc := Optimize(h, n.condition, fuel - 1).value;
      OptimizeUpdatesOnlyClosures(h, n.condition, fuel - 1);
      RepKept(h, tc.heap, a, e);
      if !tc.heap[tc.addr].BoolNode? {
        var r := New(tc.heap, IfNode(n.condition, n.thenPart, n.elsePart));
        RepGrows(tc.heap, r.heap, a, e);
      } else if tc.heap[tc.addr].truth {
        OptimizeAgreesOnTrees(tc.heap, n.thenPart, e.thenPart, fuel - 1);
      } else {
        OptimizeAgreesOnTrees(tc.heap, n.elsePart, e.elsePart, fuel - 1);
      }
    }
  }

  lemma {:induction false} LetAgrees(h: Heap, a: nat, e: Expr, fuel: nat)
    requires fuel >= 1
    requires e.LetExpr? && Rep(h, a, e) && ClosureFree(e)
    requires !Optimize(h, a, fuel).OutOfFuel?
    ensures Agrees(Optimize(h, a, fuel), Rewrite.OptimizeAsWritten(e, fuel))
    decreases fuel, 0
  {
    var n := h[a];
    OptimizeAgreesOnTrees(h, n.rhs, e.rhs, fuel - 1);
    if Optimize(h, n.rhs, fuel - 1).Ok? {
      var tr := Optimize(h, n.rhs, fuel - 1).value;
      var vr := Rewrite.OptimizeAsWritten(e.rhs, fuel - 1).value;
      OptimizeUpdatesOnlyClosures(h, n.rhs, fuel - 1);
      RepKept(h, tr.heap, n.body, e.body);
      OptimizeAgreesOnTrees(tr.heap, n.body, e.body, fuel - 1);
      if Optimize(tr.heap, n.body, fuel - 1).Ok? {
        var tb := Optimize(tr.heap, n.body, fuel - 1).value;
        var vb := Rewrite.OptimizeAsWritten(e.body, fuel - 1).value;
        OptimizeUpdatesOnlyClosures(tr.heap, n.body, fuel - 1);
        RepKept(tr.heap, tb.heap, tr.addr, vr);
        ContainsVarAgreesOnTrees(tb.heap, tr.addr, vr, fuel - 1);
        if ContainsVar(tb.heap, tr.addr, fuel - 1).Ok? {
          var rv := ContainsVar(tb.heap, tr.addr, fuel - 1).value;
          ContainsVarUpdatesOnlyClosures(tb.heap, tr.addr, fuel - 1);
          RepKept(tb.heap, rv.heap, tr.addr, vr);
          RepKept(tb.heap, rv.heap, tb.addr, vb);
          LetTailAgrees(rv.heap, e.varStr, tr.addr, tb.addr, vr, vb, rv.answer, fuel - 1);
        }
      }
    }
  }

  /** The end of `LetExpr::optimize`, once `containsVar` of the optimized right-hand side has answered. */
  lemma {:induction false} LetTailAgrees(g: Heap, x: string, ra: nat, ba: nat, vr: Expr, vb: Expr, rhsVar: bool, fuel: nat)
    requires Rep(g, ra, vr) && Rep(g, ba, vb) && ClosureFree(vr) && ClosureFree(vb)
    requires var r := if rhsVar then Ok(New(g, LetNode(x, ra, ba)))
                      else if !g[ra].NumNode? then Undefined
                      else var s :- Subst(g, ba, x, g[ra].rep, fuel); Optimize(s.heap, s.addr, fuel);
             !r.OutOfFuel?
    ensures Agrees(if rhsVar then Ok(New(g, LetNode(x, ra, ba)))
                   else if !g[ra].NumNode? then Undefined
                   else var s :- Subst(g, ba, x, g[ra].rep, fuel); Optimize(s.heap, s.addr, fuel),
                   if rhsVar then Ok(LetExpr(x, vr, vb))
                   else if !vr.NumExpr? then Undefined
                   else Rewrite.OptimizeAsWritten(Rewrite.Subst(vb, x, NumVal(vr.rep)), fuel))
    decreases fuel, 2
  {
    if rhsVar {
      var r := New(g, LetNode(x, ra, ba));
      RepGrows(g, r.heap, ra, vr);
      RepGrows(g, r.heap, ba, vb);
    } else if g[ra].NumNode? {
      SubstAgrees(g, ba, vb, x, vr.rep, fuel);
      SubstKeepsClosureFree(vb, x, vr.rep);
      var s := Subst(g, ba, x, vr.rep, fuel).value;
      OptimizeAgreesOnTrees(s.heap, s.addr, Rewrite.Subst(vb, x, NumVal(vr.rep)), fuel);
    }
  }

  /** `containsVar` on the heap answers as the value model's does, for a tree without closures. */
  lemma {:induction false} ContainsVarAgreesOnTrees(h: Heap, a: nat, e: Expr, fuel: nat)
    requires Rep(h, a, e) && ClosureFree(e) && !ContainsVar(h, a, fuel).OutOfFuel?
    ensures Answers(ContainsVar(h, a, fuel), Rewrite.ContainsVarAsWritten(e, fuel))
    decreases fuel, 0
  {
    var n := h[a];
    match e
    case NumExpr(_) =>
    case VarExpr(_) =>
    case BoolExpr(_) =>
    case IfExpr(_, _, _) =>
    case CompareExpr(_, _) =>
    case AddExpr(l, r) => EitherAgrees(h, n.lhs, n.rhs, l, r, fuel - 1);
    case MultExpr(l, r) => EitherAgrees(h, n.lhs, n.rhs, l, r, fuel - 1);
    case CallExpr(f, _) => ContainsVarAgreesOnTrees(h, n.toBeCalled, f, fuel - 1);
    case LetExpr(_, r, b) =>
      var copy := New(h, n);
      RepGrows(h, copy.heap, n.rhs, r);
      RepGrows(h, copy.heap, n.body, b);
      assert Rep(copy.heap, copy.addr, e);
      OptimizeAgreesOnTrees(copy.heap, copy.addr, e, fuel - 1);
      if Optimize(copy.heap, copy.addr, fuel - 1).Ok? {
        var o := Optimize(copy.heap, copy.addr, fuel - 1).value;
        ContainsVarAgreesOnTrees(o.heap, o.addr, Rewrite.OptimizeAsWritten(e, fuel - 1).value, fuel - 1);
      }
  }

  /**
   * For a program without closures, in-place `optimize` leaves the input as it
   * was and builds the tree the corrected `Rewrite.Optimize` returns, or is
   * undefined exactly where it is.
   */
  lemma OptimizeOnHeapIsOptimize(h: Heap, a: nat, e: Expr, fuel: nat)
    requires Rep(h, a, e) && ClosureFree(e) && !Optimize(h, a, fuel).OutOfFuel?
    ensures Optimize(h, a, fuel).Ok? <==> Rewrite.Optimize(e).Some?
    ensures Optimize(h, a, fuel).Ok? ==>
              Rep(Optimize(h, a, fuel).value.heap, Optimize(h, a, fuel).value.addr, Rewrite.Optimize(e).value) &&
              Rep(Optimize(h, a, fuel).value.heap, a, e)
  {
    OptimizeAgreesOnTrees(h, a, e, fuel);
    Rewrite.OptimizeAgreesWithAsWritten(e, fuel);
    if Optimize(h, a, fuel).Ok? {
      OptimizeUpdatesOnlyClosures(h, a, fuel);
      RepKept(h, Optimize(h, a, fuel).value.heap, a, e);
    }
  }

  /**
   * For a program without closures, optimizing the heap's answer again builds
   * the same tree once more.
   */
  lemma OptimizeOnHeapIdempotent(h: Heap, a: nat, e: Expr, fuel: nat, again: nat)
    requires Rep(h, a, e) && ClosureFree(e) && Optimize(h, a, fuel).Ok?
    requires !Optimize(Optimize(h, a, fuel).value.heap, Optimize(h, a, fuel).value.addr, again).OutOfFuel?
    ensures Rewrite.Optimize(e).Some?
    ensures var b := Optimize(h, a, fuel).value;
            Optimize(b.heap, b.addr, again).Ok? &&
            Rep(b.heap, b.addr, Rewrite.Optimize(e).value) &&
            Rep(Optimize(b.heap, b.addr, again).value.heap, Optimize(b.heap, b.addr, again).value.addr, Rewrite.Optimize(e).value)
  {
    var b := Optimize(h, a, fuel).value;
    OptimizeAgreesOnTrees(h, a, e, fuel);
    Rewrite.OptimizeAgreesWithAsWritten(e, fuel);
    var v := Rewrite.OptimizeAsWritten(e, fuel).value;
    assert Rewrite.Optimize(e) == Some(v);
    Rewrite.OptimizeIdempotent(e);
    OptimizeOnHeapIsOptimize(b.heap, b.addr, v, again);
  }

  /** The heap a parser leaves for `_if _fun (x) 1 + 2 _then 1 _else 2`, the `if` node at 6. */
  const IfProgram: Heap := [NumNode(1), NumNode(2), AddNode(0, 1), FunNode("x", 2), NumNode(1), NumNode(2), IfNode(3, 4, 5)]

  /** The heap once the closure's body `1 + 2` (nodes 7 and 8) has been folded into node 9. */
  const IfFolded: Heap := IfProgram + [NumNode(1), NumNode(2), NumNode(3)]

  /** The heap after optimizing the `if` of `IfProgram`: node 3 overwritten, the new `if` at 11. */
  const IfOptimized: Heap := IfProgram[3 := FunNode("x", 9)] + [NumNode(1), NumNode(2), NumNode(3), FunNode("x", 9), IfNode(3, 4, 5)]

  lemma IfClosureBodyFolds(fuel: nat)
    requires fuel >= 2
    ensures Optimize(IfProgram, 2, fuel) == Ok(Built(IfFolded, 9))
  {
    var h1 := IfProgram + [NumNode(1)];
    var h2 := h1 + [NumNode(2)];
    assert h2 + [NumNode(3)] == IfFolded;
    assert Optimize(IfProgram, 0, fuel - 1) == Ok(Built(h1, 7));
    assert h1[1] == NumNode(2);
    assert Optimize(h1, 1, fuel - 1) == Ok(Built(h2, 8));
    assert ContainsVar(h2, 7, fuel - 1) == Ok(Tested(h2, false));
    assert ContainsVar(h2, 8, fuel - 1) == Ok(Tested(h2, false));
    assert OptimizeOperands(IfProgram, 0, 1, fuel - 1) == Ok(Operands(h2, 7, 8, false));
  }

  /**
   * `_if _fun (x) 1 + 2 _then 1 _else 2`: the condition does not fold, so the
   * result shares the original condition, whose body `FunExpr::optimize` has
   * meanwhile replaced by `3`.
   */
  lemma IfSharesUpdatedClosure(fuel: nat)
    requires fuel >= 4
    ensures Optimize(IfProgram, 6, fuel) == Ok(Built(IfOptimized, 11))
  {
    IfClosureBodyFolds(fuel - 2);
    var g := IfFolded[3 := FunNode("x", 9)];
    var g2 := g + [FunNode("x", 9)];
    assert Optimize(IfProgram, 3, fuel - 1) == Ok(Built(g2, 10));
    assert !g2[10].BoolNode?;
    assert OptimizeIf(IfProgram, 3, 4, 5, fuel - 1) == Ok(New(g2, IfNode(3, 4, 5)));
    assert g2 + [IfNode(3, 4, 5)] == IfOptimized;
  }

  /**
   * What the heaps of `IfSharesUpdatedClosure` spell: the input its program,
   * and afterwards both the result and the input itself the updated tree.
   */
  lemma IfHeapsSpell()
    ensures Rep(IfProgram, 6, IfExpr(FunExpr("x", AddExpr(NumExpr(1), NumExpr(2))), NumExpr(1), NumExpr(2)))
    ensures Rep(IfOptimized, 11, IfExpr(FunExpr("x", NumExpr(3)), NumExpr(1), NumExpr(2)))
    ensures Rep(IfOptimized, 6, IfExpr(FunExpr("x", NumExpr(3)), NumExpr(1), NumExpr(2)))
  {
    assert Rep(IfOptimized, 3, FunExpr("x", NumExpr(3)));
  }

  /** The value-level rewriting, as written and corrected, returns the same `if` unchanged. */
  lemma IfUnchangedOnValues(fuel: nat)
    requires fuel >= 4
    ensures var e := IfExpr(FunExpr("x", AddExpr(NumExpr(1), NumExpr(2))), NumExpr(1), NumExpr(2));
            Rewrite.OptimizeAsWritten(e, fuel) == Ok(e) && Rewrite.Optimize(e) == Some(e)
  {
    var sum := AddExpr(NumExpr(1), NumExpr(2));
    assert Rewrite.OptimizeAsWritten(NumExpr(1), fuel - 3) == Ok(NumExpr(1));
    assert Rewrite.OptimizeAsWritten(NumExpr(2), fuel - 3) == Ok(NumExpr(2));
    assert Rewrite.ContainsVarAsWritten(NumExpr(1), fuel - 3) == Ok(false);
    assert Rewrite.ContainsVarAsWritten(NumExpr(2), fuel - 3) == Ok(false);
    assert Rewrite.OptimizeAsWritten(sum, fuel - 2) == Ok(NumExpr(3));
    assert Rewrite.OptimizeAsWritten(FunExpr("x", sum), fuel - 1) == Ok(FunExpr("x", NumExpr(3)));
  }

  /** The heap a parser leaves for `(_let x = 1 _in _fun (y) 1 + 2)(5) + 1`, the `+` node at 9. */
  const CallProgram: Heap :=
    [NumNode(1), NumNode(1), NumNode(2), AddNode(1, 2), FunNode("y", 3), LetNode("x", 0, 4), NumNode(5), CallNode(5, 6), NumNode(1), AddNode(7, 8)]

  /** After both operands of the outer `+` are optimized (nodes 10 and 11), and `containsVar` has copied the let (node 12). */
  const CallLetCopied: Heap := CallProgram + [CallNode(5, 6), NumNode(1), LetNode("x", 0, 4)]

  /** After the copy's right-hand side (13) and the closure's body (14 to 16) are optimized. */
  const CallBodyFolded: Heap := CallLetCopied + [NumNode(1), NumNode(1), NumNode(2), NumNode(3)]

  /** After the copied let has been optimized: the closure at 4 overwritten, the last copy of it at 21. */
  const CallLetOptimized: Heap :=
    CallBodyFolded[4 := FunNode("y", 16)] + [FunNode("y", 16), NumNode(3), FunNode("y", 20), NumNode(3), FunNode("y", 20)]

  /** The heap after optimizing the `+` of `CallProgram`, the new `+` at 22. */
  const CallOptimized: Heap := CallLetOptimized + [AddNode(10, 11)]

  lemma CallClosureBodyFolds(fuel: nat)
    requires fuel >= 2
    ensures Optimize(CallLetCopied + [NumNode(1)], 3, fuel) == Ok(Built(CallBodyFolded, 16))
  {
    var h := CallLetCopied + [NumNode(1)];
    var h1 := h + [NumNode(1)];
    var h2 := h1 + [NumNode(2)];
    assert h2 + [NumNode(3)] == CallBodyFolded;
    assert Optimize(h, 1, fuel - 1) == Ok(Built(h1, 14));
    assert h1[2] == NumNode(2);
    assert Optimize(h1, 2, fuel - 1) == Ok(Built(h2, 15));
    assert ContainsVar(h2, 14, fuel - 1) == Ok(Tested(h2, false));
    assert ContainsVar(h2, 15, fuel - 1) == Ok(Tested(h2, false));
    assert OptimizeOperands(h, 1, 2, fuel - 1) == Ok(Operands(h2, 14, 15, false));
  }

  /** The copied let's right-hand side does not fold away, its closure does: `_fun (y) 3`, with node 4 overwritten. */
  lemma CallLetParts(fuel: nat)
    requires fuel >= 3
    ensures Optimize(CallLetCopied, 0, fuel) == Ok(Built(CallLetCopied + [NumNode(1)], 13))
    ensures Optimize(CallLetCopied + [NumNode(1)], 4, fuel) == Ok(Built(CallBodyFolded[4 := FunNode("y", 16)] + [FunNode("y", 16)], 17))
    ensures ContainsVar(CallBodyFolded[4 := FunNode("y", 16)] + [FunNode("y", 16)], 13, fuel) == Ok(Tested(CallBodyFolded[4 := FunNode("y", 16)] + [FunNode("y", 16)], false))
  {
    CallClosureBodyFolds(fuel - 1);
    var g := CallBodyFolded[4 := FunNode("y", 16)];
    assert OptimizeFun(CallLetCopied + [NumNode(1)], 4, "y", 3, fuel - 1) == Ok(New(g, FunNode("y", 16)));
    assert (g + [FunNode("y", 16)])[13] == NumNode(1);
  }

  /** Substituting `1` for `x` in the closure copies it, and optimizing the copy overwrites the copy. */
  lemma CallLetSubstituted(fuel: nat)
    requires fuel >= 2
    ensures var g := CallBodyFolded[4 := FunNode("y", 16)] + [FunNode("y", 16)];
            Subst(g, 17, "x", 1, fuel) == Ok(Built(g + [NumNode(3), FunNode("y", 18)], 19)) &&
            Optimize(g + [NumNode(3), FunNode("y", 18)], 19, fuel) == Ok(Built(CallLetOptimized, 21))
  {
    var g := CallBodyFolded[4 := FunNode("y", 16)] + [FunNode("y", 16)];
    assert g[16] == NumNode(3) && g[17] == FunNode("y", 16);
    assert Subst(g, 16, "x", 1, fuel - 1) == Ok(Built(g + [NumNode(3)], 18));
    var s := g + [NumNode(3), FunNode("y", 18)];
    assert g + [NumNode(3)] + [FunNode("y", 18)] == s;
    assert Subst(g, 17, "x", 1, fuel) == Ok(New(g + [NumNode(3)], FunNode("y", 18)));
    assert s[18] == NumNode(3) && s[19] == FunNode("y", 18);
    assert Optimize(s, 18, fuel - 1) == Ok(Built(s + [NumNode(3)], 20));
    var t := (s + [NumNode(3)])[19 := FunNode("y", 20)];
    assert OptimizeFun(s, 19, "y", 18, fuel - 1) == Ok(New(t, FunNode("y", 20)));
    assert t + [FunNode("y", 20)] == CallLetOptimized;
  }

  /** The copied let: its right-hand side `1` has no variable, so it is substituted into the closure. */
  lemma CallLetOptimizes(fuel: nat)
    requires fuel >= 3
    ensures OptimizeLet(CallLetCopied, "x", 0, 4, fuel) == Ok(Built(CallLetOptimized, 21))
  {
    CallLetParts(fuel);
    CallLetSubstituted(fuel);
    var g := CallBodyFolded[4 := FunNode("y", 16)] + [FunNode("y", 16)];
    assert g[13] == NumNode(1);
  }

  /** `optimize` of a let node is `LetExpr::optimize`. */
  lemma OptimizeOfLet(h: Heap, a: nat, varStr: string, rhs: nat, body: nat, fuel: nat, r: Result<Built>)
    requires a < |h| && h[a] == LetNode(varStr, rhs, body) && fuel >= 1
    requires OptimizeLet(h, varStr, rhs, body, fuel - 1) == r
    ensures Optimize(h, a, fuel) == r
  {
  }

  /** `LetExpr::containsVar`: the answer of the optimized copy. */
  lemma LetContainsVar(h: Heap, a: nat, fuel: nat, o: Built, t: Tested)
    requires a < |h| && h[a].LetNode? && fuel >= 1
    requires Optimize(h + [h[a]], |h|, fuel - 1) == Ok(o) && ContainsVar(o.heap, o.addr, fuel - 1) == Ok(t)
    ensures ContainsVar(h, a, fuel) == Ok(t)
  {
  }

  /** `containsVar` of the let optimizes a copy of it, node 12. */
  lemma CallLetCopyOptimizes(fuel: nat)
    requires fuel >= 4
    ensures Optimize(CallLetCopied, 12, fuel) == Ok(Built(CallLetOptimized, 21))
  {
    var r := Ok(Built(CallLetOptimized, 21));
    CallLetOptimizes(fuel - 1);
    assert |CallProgram| == 10 && CallLetCopied == CallProgram + [CallNode(5, 6), NumNode(1), LetNode("x", 0, 4)];
    assert CallLetCopied[12] == LetNode("x", 0, 4);
    OptimizeOfLet(CallLetCopied, 12, "x", 0, 4, fuel, r);
  }

  /** `containsVar` of the callee: the let's copy optimizes to a closure, so the answer is true. */
  lemma CallCalleeContainsVar(fuel: nat)
    requires fuel >= 6
    ensures ContainsVar(CallProgram + [CallNode(5, 6), NumNode(1)], 10, fuel) == Ok(Tested(CallLetOptimized, true))
  {
    CallLetCopyOptimizes(fuel - 2);
    var h := CallProgram + [CallNode(5, 6), NumNode(1)];
    assert h[5] == LetNode("x", 0, 4) && h[10] == CallNode(5, 6);
    assert h + [h[5]] == CallLetCopied;
    assert ContainsVar(CallLetOptimized, 21, fuel - 2) == Ok(Tested(CallLetOptimized, true));
    LetContainsVar(h, 5, fuel - 1, Built(CallLetOptimized, 21), Tested(CallLetOptimized, true));
  }

  /**
   * `(_let x = 1 _in _fun (y) 1 + 2)(5) + 1`: `CallExpr::optimize` shares the
   * callee, and the `containsVar` the `+` asks of it optimizes a copy of the
   * let sharing its closure, whose body `FunExpr::optimize` replaces by `3`.
   */
  lemma CallSharesUpdatedClosure(fuel: nat)
    requires fuel >= 7
    ensures Optimize(CallProgram, 9, fuel) == Ok(Built(CallOptimized, 22))
  {
    CallCalleeContainsVar(fuel - 1);
    var h := CallProgram + [CallNode(5, 6)];
    assert Optimize(CallProgram, 7, fuel - 1) == Ok(Built(h, 10));
    assert h[8] == NumNode(1);
    assert Optimize(h, 8, fuel - 1) == Ok(Built(h + [NumNode(1)], 11));
    assert h + [NumNode(1)] == CallProgram + [CallNode(5, 6), NumNode(1)];
    assert OptimizeOperands(CallProgram, 7, 8, fuel - 1) == Ok(Operands(CallLetOptimized, 10, 11, true));
  }

  /** The input heap of `CallSharesUpdatedClosure` spells its program. */
  lemma CallProgramSpells()
    ensures Rep(CallProgram, 9, AddExpr(CallExpr(LetExpr("x", NumExpr(1), FunExpr("y", AddExpr(NumExpr(1), NumExpr(2)))), NumExpr(5)), NumExpr(1)))
  {
    assert Rep(CallProgram, 5, LetExpr("x", NumExpr(1), FunExpr("y", AddExpr(NumExpr(1), NumExpr(2)))));
  }

  /**
   * After `CallSharesUpdatedClosure`, the result and the input itself spell
   * the tree whose closure body is `3`.
   */
  lemma CallOptimizedSpells()
    ensures Rep(CallOptimized, 22, AddExpr(CallExpr(LetExpr("x", NumExpr(1), FunExpr("y", NumExpr(3))), NumExpr(5)), NumExpr(1)))
    ensures Rep(CallOptimized, 9, AddExpr(CallExpr(LetExpr("x", NumExpr(1), FunExpr("y", NumExpr(3))), NumExpr(5)), NumExpr(1)))
  {
    CallOptimizedCallSpells();
    assert CallOptimized[22] == AddNode(10, 11) && CallOptimized[9] == AddNode(7, 8);
    assert CallOptimized[11] == NumNode(1) && CallOptimized[8] == NumNode(1);
  }

  /** The shared call of `CallOptimizedSpells`, reachable from node 10 and node 7. */
  lemma CallOptimizedCallSpells()
    ensures Rep(CallOptimized, 10, CallExpr(LetExpr("x", NumExpr(1), FunExpr("y", NumExpr(3))), NumExpr(5)))
    ensures Rep(CallOptimized, 7, CallExpr(LetExpr("x", NumExpr(1), FunExpr("y", NumExpr(3))), NumExpr(5)))
  {
    assert CallOptimized[4] == FunNode("y", 16) && CallOptimized[16] == NumNode(3);
    assert CallOptimized[5] == LetNode("x", 0, 4) && CallOptimized[0] == NumNode(1);
    assert Rep(CallOptimized, 5, LetExpr("x", NumExpr(1), FunExpr("y", NumExpr(3))));
    assert CallOptimized[10] == CallNode(5, 6) && CallOptimized[7] == CallNode(5, 6) && CallOptimized[6] == NumNode(5);
  }

  /** The value-level rewriting, as written and corrected, returns the same `+` unchanged. */
  lemma CallUnchangedOnValues(fuel: nat)
    requires fuel >= 7
    ensures var e := AddExpr(CallExpr(LetExpr("x", NumExpr(1), FunExpr("y", AddExpr(NumExpr(1), NumExpr(2)))), NumExpr(5)), NumExpr(1));
            Rewrite.OptimizeAsWritten(e, fuel) == Ok(e) && Rewrite.Optimize(e) == Some(e)
  {
    var e := AddExpr(CallExpr(LetExpr("x", NumExpr(1), FunExpr("y", AddExpr(NumExpr(1), NumExpr(2)))), NumExpr(5)), NumExpr(1));
    var let := LetExpr("x", NumExpr(1), FunExpr("y", AddExpr(NumExpr(1), NumExpr(2))));
    CallLetOnValues(fuel - 3);
    assert Rewrite.ContainsVarAsWritten(let, fuel - 2) == Ok(true);
    assert Rewrite.ContainsVarAsWritten(CallExpr(let, NumExpr(5)), fuel - 1) == Ok(true);
    assert Rewrite.OptimizeAsWritten(e, fuel) == Ok(e);
    Rewrite.OptimizeAgreesWithAsWritten(e, fuel);
  }

  /** The let of `CallUnchangedOnValues` optimizes to `_fun (y) 3`. */
  lemma CallLetOnValues(fuel: nat)
    requires fuel >= 4
    ensures Rewrite.OptimizeAsWritten(LetExpr("x", NumExpr(1), FunExpr("y", AddExpr(NumExpr(1), NumExpr(2)))), fuel) == Ok(FunExpr("y", NumExpr(3)))
  {
    assert Rewrite.OptimizeAsWritten(NumExpr(1), fuel - 3) == Ok(NumExpr(1));
    assert Rewrite.OptimizeAsWritten(NumExpr(2), fuel - 3) == Ok(NumExpr(2));
    assert Rewrite.ContainsVarAsWritten(NumExpr(1), fuel - 3) == Ok(false);
    assert Rewrite.ContainsVarAsWritten(NumExpr(2), fuel - 3) == Ok(false);
    assert Rewrite.OptimizeAsWritten(AddExpr(NumExpr(1), NumExpr(2)), fuel - 2) == Ok(NumExpr(3));
    assert Rewrite.OptimizeAsWritten(FunExpr("y", AddExpr(NumExpr(1), NumExpr(2))), fuel - 1) == Ok(FunExpr("y", NumExpr(3)));
    assert Rewrite.ContainsVarAsWritten(NumExpr(1), fuel - 1) == Ok(false);
    assert Rewrite.OptimizeAsWritten(NumExpr(3), fuel - 2) == Ok(NumExpr(3));
    assert Rewrite.OptimizeAsWritten(FunExpr("y", NumExpr(3)), fuel - 1) == Ok(FunExpr("y", NumExpr(3)));
  }
}
