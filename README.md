# msdscript in Dafny

msdscript is a small interpreter for an expression language. The language has:

- 32-bit integers and booleans;
- `+`, `*` and `==`;
- `_let`, `_if` and single-parameter `_fun`;
- calls.

A program can run in two ways:

- on a direct recursive evaluator (`Expr::interp`);
- on a continuation machine that keeps its whole state in five static fields and takes one step at a time (`Step::interp_by_steps`), so deep recursion does not exhaust the C++ stack.

A recursive-descent parser reads the programs from a character stream. An optimizer folds constants and eliminates lets.

This project models those parts and proves properties of the model:

| module | file | what it holds |
|---|---|---|
| `Int32` | int32.dfy | `int` as a 32-bit newtype; the wrap-around of the `(unsigned)` sum; `std::to_string` and its round trip |
| `Outcomes` | outcomes.dfy | `Result` has four cases: `Ok`, `Fail(msg)`, `Undefined` and `OutOfFuel` |
| `Syntax` | syntax.dfy | the datatypes `Expr`, `Val`, `Env` and `Cont`, with the fields of expr.hpp, value.hpp, env.hpp and cont.hpp |
| `Environment` | env.dfy | `Env::empty` and `lookup` |
| `Values` | value.dfy | `equals`, `to_expr`, `to_string` and `is_true` of the three value classes |
| `Exprs` | expr.dfy | `equals` and `to_string` of the ten expression classes |
| `Rewrite` | rewrite.dfy | `subst`, `containsVar` and `optimize` on trees as values |
| `InPlaceRewrite` | inplace.dfy | the same four functions and `equals` on expression nodes shared through pointers, with the update `FunExpr::optimize` makes to its own `body`; what the update can change, two programs on which it shows, and agreement with `Rewrite` on programs without closures |
| `Evaluator` | interp.dfy | `interp`, `add_to`, `mult_with` and `call` |
| `Machine` | step.dfy | the machine state of step.hpp as a class `Step`; every `step_interp`, `step_continue` and `call_step` as a method proved against a function from the old state to the new one; the driver |
| `Agreement` | agreement.dfy | how the machine relates to the direct evaluator |
| `Parser` | parse.dfy | the stream (characters, read position, `eofbit`, `failbit`) as a class `Stream`, and every function of parse.cpp as a method proved against a specification function on stream states |
| `ParserLaws` | parse_laws.dfy | laws of those specification functions: precedence climbing, whitespace, the end of the stream, reading numbers |
| `ParserExamples`, `EvaluatorExamples`, `RewriteExamples`, `MachineExamples` | *_examples.dfy | the expectations of the unit tests in parse.cpp, proved of the model, and the quirks on small inputs |

Errors and undefined behaviour:

- A C++ `runtime_error` becomes `Fail` with the exact message.
- Behaviour the C++ leaves undefined becomes `Undefined`, and the model claims nothing past that point. This covers signed overflow in `mult_with`, in the optimizer's folding and in `-num` of the least `int`. It also covers the null dereference after `NumVal::call`, and a failed `CAST` in `optimize`.
- The model gives these cases a result, not a precondition, so every operation is total on its inputs.
- Evaluations that may diverge take a `fuel` bound and answer `OutOfFuel` when it runs out.

The model keeps these behaviours of the source as the source has them:

- The frames of `+` and `*` resume their right operand in the environment the machine holds when the left operand finishes. This comes from the self-assignment `Step::env = Step::env` at cont.cpp:39 and cont.cpp:73. The frame of `==` uses its saved environment instead.
  - So `_let y = 5 _in (_let y = 1 _in y) + y` gives 6 on `interp` and 2 on the machine (`Agreement.LeftBindingsLeakIntoRightOperand`).
  - Take a program that `interp` finishes, with a value or with an exception, and whose `+` and `*` left operands end in the environment they start in. The machine gives what `interp` gives on it (`Agreement.RunAgreesWithInterp`). That covers all the test programs.
  - With the saved environment restored, the machine gives what `interp` gives on every program that `interp` finishes, with a value or with an exception (`Agreement.RestoringRunAgreesWithInterp`). Conversely, whatever that machine finishes with, `interp` gives too (`Agreement.RestoringRunFinishesOnlyWithInterp`). So it finishes exactly when `interp` does (`Agreement.RestoringRunTerminatesIffInterp`).
- The loop of `interp_by_steps` is meant to terminate exactly when the program does. The source as written breaks this both ways:
  - On `1(2)`, `interp` stops at the NULL that `NumVal::call` returns (value.cpp:52-54). The machine resumes the call frame forever, because `NumVal::call_step` changes nothing (value.cpp:56-58). See `Agreement.CallOfNumberLoopsOnMachine`.
  - On `_let f = _fun (g) g(g) _in (_let f = _fun (x) 5 _in 0) + f(f)`, `interp` never finishes (`Agreement.LeakDivergenceProgramDiverges`). The machine as written gives 5, because the right operand's `f(f)` sees the inner `f` (`Agreement.LeakMakesDivergentProgramFinish`). The restoring machine never finishes (`Agreement.RestoringRunDivergesOnLeakDivergenceProgram`).
- `containsVar` answers true for booleans, conditionals, comparisons and functions. On a call it looks only at the callee.
- `LetExpr::subst` on its own bound name leaves the let whole, its right-hand side included.
- `FunExpr::optimize` first replaces its own `body` by the optimized body, then returns a new function node over it (expr.cpp:453-456). The input tree is changed wherever it shares that closure node.
- When the condition does not fold to a boolean, `IfExpr::optimize` returns a new node over the original condition and branches (expr.cpp:343-349). `CallExpr::optimize` returns a new node over the original callee and argument (expr.cpp:498-502). The result shares those children with the input, so closures that were updated while optimizing the condition, or while `containsVar` optimized a copy of a let, are updated in the result too:
  - `_if _fun (x) 1 + 2 _then 1 _else 2` optimizes to `_if _fun (x) 3 _then 1 _else 2` (`InPlaceRewrite.IfSharesUpdatedClosure`, `InPlaceRewrite.IfHeapsSpell`);
  - `(_let x = 1 _in _fun (y) 1 + 2)(5) + 1` optimizes to the same sum with the closure's body replaced by `3` (`InPlaceRewrite.CallSharesUpdatedClosure`, `InPlaceRewrite.CallOptimizedSpells`).
- `Rewrite` works on trees as values and leaves these updates out: on both programs its `optimize` returns the input unchanged (`InPlaceRewrite.IfUnchangedOnValues`, `InPlaceRewrite.CallUnchangedOnValues`). `InPlaceRewrite` keeps the nodes in a heap and models the update. On every program without a `_fun` the two give the same tree (`InPlaceRewrite.OptimizeOnHeapIsOptimize`).
- A closure's `add_to` and `mult_with` evaluate its body without binding the parameter.
- `call_step` of a number or a boolean leaves the machine state unchanged, so the driver resumes that call frame forever.
- Parser behaviour:
  - a lone `=` after an operand is consumed and dropped;
  - any one character stands where `_let` expects `=`;
  - the formal parameter of `_fun` is the printed text of an expression;
  - a missing `_else` reports the message for a missing `_then`;
  - `-` alone is the number 0;
  - the printed least `int` reads back as the least `int` plus one;
  - `--2147483648` is undefined;
  - a literal beyond `int` reads as the greatest `int`.

One behaviour is corrected rather than kept. `LetExpr::containsVar` (expr.cpp:287-289) never returns on a let that survives optimization, and `optimize` calls it.

- `Rewrite.ContainsVar` and `Rewrite.Optimize` use the corrected form: a surviving let answers true.
- `Rewrite.ContainsVarAsWritten` and `Rewrite.OptimizeAsWritten` follow the source's pair on values: they call each other as the C++ does, but, like all of `Rewrite`, they do not update closures in place. `InPlaceRewrite.ContainsVar` and `InPlaceRewrite.Optimize` are the same pair on the heap, with the update.
- Wherever the source's pair returns, the corrected pair gives the same answer (`Rewrite.OptimizeAgreesWithAsWritten`, `Rewrite.ContainsVarAgreesWithAsWritten`).
- On `(_let x = y _in x) + 1` the source's `optimize` never returns, and the corrected one returns the tree unchanged (`Rewrite.SurvivingLetInsideSum`).

Order of evaluation: three calls put the left operand in the receiver and the right operand in the argument:
- `lhs->interp(env)->mult_with(rhs->interp(env))` (expr.cpp:122);
- `lhs->interp(env)->equals(rhs->interp(env))` (expr.cpp:385);
- `to_be_called->interp(env)->call(actual_arg->interp(env))` (expr.cpp:487).

Before C++17 the order of these evaluations was unspecified. From C++17 on, the receiver is evaluated before the argument, so the left operand comes first. The model does the same, as `AddExpr::interp` does explicitly (expr.cpp:61-67) and as the machine does. The order decides which exception a program reports when both operands throw. It also decides whether a program diverges or throws when its left operand diverges and its right operand throws.

The body of `Step::interp_by_steps` is not among the sources, so the driver is the minimal loop:

- start in interp mode on the expression, with the empty environment and `DoneCont`;
- in interp mode, call `step_interp`;
- in continue mode, stop with `val` once the stack is `DoneCont`, and otherwise call `step_continue`.

## Model

| member | source | states |
|---|---|---|
| `Environment.Lookup` | env.cpp:37-49 | a lookup either finds a value or fails with exactly "free variable: " followed by the name |
| `Environment.LookupIsBindings` | env.cpp:37-49 | lookup reads the chain as a finite map in which the innermost binding of a name overrides the outer ones: it finds the name exactly when the name is bound, and it fails with "free variable: " + name exactly when it is not |
| `Environment.LookupEmpty` | env.cpp:21-23 | any name looked up in the shared empty environment fails with "free variable: " + name |
| `Environment.LookupExtended` | env.cpp:37-48 | an extended environment answers its own name with its own value, and any other name with what its unchanged `rest` answers |
| `Values.Equals` | value.cpp:114-119 | two values are `equals` exactly when their literals (`to_expr`) are the same tree: numbers and booleans by payload, closures by parameter and structurally equal body, never across classes |
| `Values.EqualsIsEquivalence` | value.cpp:15-21 | value `equals` is reflexive, symmetric and transitive |
| `Values.EqualsIgnoresEnv` | value.cpp:114-119 | closures made from the same parameter and body are equal whatever environments they captured |
| `Values.ToString` | value.cpp:133-135 | a value prints as its literal prints: the number, `_true`/`_false`, or `_fun (x) body` |
| `Values.ToExpr` | value.cpp:129-131 | the literal of a number or boolean is one node, and that of a closure is a function node over its body, so the captured environment is dropped |
| `Values.IsTrue` | value.cpp:47-50 | no contract of its own; its cases (true for non-zero numbers and the boolean true, never for a closure) are `Values.IsTrueCases` |
| `Values.IsTrueCases` | value.cpp:47-50 | `is_true` holds exactly for the boolean true and the non-zero numbers; a closure is never true |
| `Exprs.Equals` | expr.cpp:11-17 | expression `equals` holds exactly when the two trees are identical, so any class mismatch is false and every field (names included) is compared |
| `Exprs.ToString` | expr.cpp:91-94 | no contract of its own; the printed forms the tests expect are the `…Text` lemmas of `RewriteExamples`, and `Values.ToString` prints a value through it; its one law over all inputs is `ToStringLosesGrouping` |
| `Exprs.ToStringLosesGrouping` | expr.cpp:91-94 | for all `a`, `b`, `c`, `(a + b) * c` and `a + (b * c)` are different trees that print the same text, because `to_string` of `+` and `*` adds no parentheses |
| `Int32.WrapAdd` | value.cpp:23-29 | the sum on `unsigned`, read back as `int`, is congruent to the mathematical sum modulo 2^32, and equals it when it fits |
| `Int32.WrapAddUnique` | value.cpp:23-29 | exactly one `int` is congruent to the sum modulo 2^32, so the wrap-around result is determined |
| `Int32.NatToDecimal` | value.cpp:43-45 | the digits `std::to_string` prints for a natural number are non-empty decimal digits with no leading zero |
| `Int32.DecimalRoundTrip` | value.cpp:43-45 | the value of the printed digits of a natural number is that number |
| `Int32.ToStringRoundTrip` | value.cpp:43-45 | the printed form of every `int` is a minus sign and digits for negatives, digits otherwise, and reading it gives the number back |
| `Evaluator.Interp` | expr.cpp:19-488 | every exception `interp` raises is one of the four runtime errors: "not a number", "no adding booleans", "no multiplying booleans", or "free variable: " followed by a name |
| `Evaluator.Call` | value.cpp:141-143 | calling a number or a boolean is undefined (the source returns NULL); any exception of a closure's body is one of the four runtime errors |
| `Evaluator.ArithmeticOnValues` | value.cpp:23-37 | numbers add with wrap-around and multiply exactly when the product fits; a non-number argument fails "not a number"; a boolean receiver fails "no adding booleans" or "no multiplying booleans", whatever the argument |
| `Evaluator.ClosureArithmetic` | value.cpp:121-127 | a closure's `add_to` and `mult_with` evaluate its body in the captured environment, with no parameter bound, and combine that value |
| `Evaluator.AddTo` | value.cpp:23-29 | a successful `add_to` always yields a number, and any exception is one of the four runtime errors |
| `Evaluator.MultWith` | value.cpp:31-37 | a successful `mult_with` always yields a number, and any exception is one of the four runtime errors |
| `Evaluator.CallIsLexical` | value.cpp:141-143 | calling a closure evaluates its body in the captured environment extended with the parameter bound to the argument, and in nothing else |
| `Evaluator.ToExprEvaluatesBack` | expr.cpp:439-441 | evaluating the literal of a value gives a value `equals` to it; a function literal evaluates to a closure over the current environment |
| `Evaluator.InterpMonotone` | expr.cpp:61-67 | an evaluation that finishes within some fuel gives the same answer with any more fuel, so the answer does not depend on the bound |
| `Evaluator.OperandsMonotone` | expr.cpp:383-388 | the same, for `+`, `*` and `==`: both operands, then the operation |
| `Evaluator.AddToMonotone` | value.cpp:121-123 | more fuel never changes a finished `add_to` |
| `Evaluator.MultWithMonotone` | value.cpp:125-127 | more fuel never changes a finished `mult_with` |
| `Evaluator.CallMonotone` | value.cpp:141-143 | more fuel never changes a finished `call` |
| `Rewrite.Subst` | expr.cpp:179-184 | substituting a number or a boolean keeps the size of the tree: each matching variable becomes a one-node literal |
| `Rewrite.SubstNotFree` | expr.cpp:262-266 | substituting for a name with no free occurrence leaves the tree unchanged, so a let or function binding the name stops the substitution |
| `Rewrite.SubstRemovesFree` | expr.cpp:262-266 | substituting a number or boolean removes every free occurrence of the name, except those in the right-hand side of a let that rebinds it, which the source leaves unsubstituted |
| `Rewrite.KeptByLets` | expr.cpp:263-264 | the occurrences a rebinding let keeps are at most the substituted name itself |
| `Rewrite.Optimize` | expr.cpp:80-88 | an optimized tree is never larger than the original; on values, so it leaves out the update of `FunExpr::optimize` (see "Left out") |
| `Rewrite.OptimizeIdempotent` | expr.cpp:277-285 | optimizing an optimized tree changes nothing |
| `Rewrite.VarFreeOptimizedIsNumber` | expr.cpp:80-88 | in a program without calls, an optimized tree that `containsVar` reports variable-free is a number, so the casts of `optimize` to `NumExpr` succeed there |
| `Rewrite.OptimizeCallFree` | expr.cpp:498-502 | optimizing a program without calls introduces none |
| `Rewrite.SubstNumberKeepsCallFree` | expr.cpp:179-184 | substituting a number into a program without calls introduces none |
| `Rewrite.FreeVars` | expr.cpp:262-266 | no contract of its own; the names with a free occurrence, under the scoping of `_let` and `_fun`, as `SubstNotFree` and `SubstRemovesFree` use them |
| `Rewrite.ContainsVar` | expr.cpp:76-78 | no contract of its own; it agrees with the source's `containsVar` wherever that returns (`ContainsVarAgreesWithAsWritten`), and a variable-free call-free optimized tree is a number (`VarFreeOptimizedIsNumber`) |
| `Rewrite.OptimizeAsWritten` | expr.cpp:80-88 | no contract of its own; the source's `optimize` on values, calling the source's `containsVar`, without the update of `FunExpr::optimize` (see "Left out"); related to `Optimize` by `OptimizeAgreesWithAsWritten` and to the heap by `InPlaceRewrite.OptimizeAgreesOnTrees` |
| `Rewrite.ContainsVarAsWritten` | expr.cpp:287-289 | no contract of its own; the source's `containsVar`, whose let case asks the question again of the source's `optimize` of the let; related to `ContainsVar` by `ContainsVarAgreesWithAsWritten` |
| `Rewrite.Answer` | expr.cpp:287-289 | a result answers exactly when it is a success, and then with the success value |
| `Rewrite.OptimizeAgreesWithAsWritten` | expr.cpp:80-88 | wherever the source's `optimize` returns, it throws no exception and gives what the corrected `Optimize` gives, undefined included |
| `Rewrite.OperandsAgreeWithAsWritten` | expr.cpp:398-408 | the same for the two operands of `+`, `*` and `==` and the `containsVar` tests on them |
| `Rewrite.LetContainsVarAgreesWithAsWritten` | expr.cpp:287-289 | wherever the source's `containsVar` of a let returns, the corrected one gives the same answer |
| `Rewrite.EitherAgreesWithAsWritten` | expr.cpp:76-78 | the same for the short-circuit "either operand contains a variable" of `+` and `*` |
| `Rewrite.AsWrittenDivergesOnSurvivingLet` | expr.cpp:287-289 | as written, `containsVar` of a let whose optimized form is again a let runs out of every fuel bound, so it never returns |
| `Rewrite.AsWrittenDivergesOnSurvivingLetOperand` | expr.cpp:80-88 | as written, `optimize` of a `+`, `*` or `==` whose left operand optimizes to a let, and whose right operand optimizes, never returns |
| `Rewrite.SurvivingLetStaysALet` | expr.cpp:277-285 | as written, `optimize` of a let that survives gives the same let as the corrected one, and the source's `containsVar` on it never returns |
| `Rewrite.AsWrittenStopsAtOperands` | expr.cpp:80-83 | as written, when the left operand's `containsVar` never returns, neither does the operator's `optimize` |
| `Rewrite.SurvivingLetInsideSum` | expr.cpp:80-88 | the corrected `optimize` leaves `(_let x = y _in x) + 1` unchanged, and the source's never returns on it |
| `Rewrite.SurvivingLetInsideComparison` | expr.cpp:287-289 | the source's `containsVar` of `_let z = 1 _in (_let x = y _in x) == 2` never returns, and the corrected one answers true |
| `Rewrite.ContainsVarAgreesWithAsWritten` | expr.cpp:287-289 | wherever the source's `containsVar` returns (both it and the `optimize` it calls being the source's), it throws nothing and the corrected one gives the same answer |
| `Rewrite.LetOfFreeVariable` | expr.cpp:287-289 | `_let x = y _in x` optimizes to itself; as written, `containsVar` on it never answers, and the corrected one answers true |
| `InPlaceRewrite.Optimize` | expr.cpp:453-456 | `optimize` on the node at an address: a success leaves a heap strictly longer than the old one and answers an address inside it; what it overwrites is `OptimizeUpdatesOnlyClosures`, and what it builds is `OptimizeOnHeapIsOptimize` and the examples |
| `InPlaceRewrite.OptimizeBinary` | expr.cpp:80-88 | `optimize` of `+`, `*` and `==`: a success leaves a longer heap and answers an address inside it |
| `InPlaceRewrite.OptimizeLet` | expr.cpp:277-285 | `LetExpr::optimize`: a success leaves a longer heap and answers an address inside it |
| `InPlaceRewrite.OptimizeIf` | expr.cpp:343-349 | `IfExpr::optimize`: a success leaves a longer heap and answers an address inside it |
| `InPlaceRewrite.OptimizeFun` | expr.cpp:453-456 | after `FunExpr::optimize` the closure node at the input's own address has been overwritten, and it is the same node as the one returned: a closure with the same parameter, over the optimized body |
| `InPlaceRewrite.OptimizeOperands` | expr.cpp:80-83 | both operands optimized, left first: the heap grows and both new addresses are inside it |
| `InPlaceRewrite.ContainsVar` | expr.cpp:287-289 | `containsVar` on the heap never leaves a shorter heap (a let allocates a copy of itself and optimizes that) |
| `InPlaceRewrite.Subst` | expr.cpp:262-266 | `subst` only appends: the old heap is a proper prefix of the new one, and the copy's address is inside it |
| `InPlaceRewrite.SubstTwo` | expr.cpp:71-73 | the same for two children substituted one after the other |
| `InPlaceRewrite.RepGrows` | expr.cpp:71-73 | allocating new nodes does not change the tree an existing address spells |
| `InPlaceRewrite.OptimizeUpdatesOnlyClosures` | expr.cpp:453-456 | `optimize` overwrites no node but closure nodes, and each of those keeps its parameter; every other node is as it was, and the heap only grows |
| `InPlaceRewrite.BinaryUpdatesOnlyClosures` | expr.cpp:80-88 | the same for `+`, `*` and `==` |
| `InPlaceRewrite.OperandsUpdateOnlyClosures` | expr.cpp:80-83 | the same for the two operands and the `containsVar` calls on them |
| `InPlaceRewrite.LetUpdatesOnlyClosures` | expr.cpp:277-285 | the same for `LetExpr::optimize` |
| `InPlaceRewrite.IfUpdatesOnlyClosures` | expr.cpp:343-349 | the same for `IfExpr::optimize` |
| `InPlaceRewrite.FunUpdatesOnlyClosures` | expr.cpp:453-456 | the same for `FunExpr::optimize`, whose own node is the closure it overwrites |
| `InPlaceRewrite.ContainsVarUpdatesOnlyClosures` | expr.cpp:287-289 | the same for `containsVar`, through the optimization of a let's copy |
| `InPlaceRewrite.RepKept` | expr.cpp:453-456 | a tree with no `_fun` in it is still spelt at its address after any such update |
| `InPlaceRewrite.SubstKeepsClosureFree` | expr.cpp:443-446 | substituting a number into a tree with no `_fun` gives a tree with none |
| `InPlaceRewrite.SubstAgrees` | expr.cpp:262-266 | for every tree, `subst` on the heap never fails and builds the tree `Rewrite.Subst` computes |
| `InPlaceRewrite.SubstBinaryAgrees` | expr.cpp:71-73 | the same for `+`, `*`, `==` and calls |
| `InPlaceRewrite.SubstLetAgrees` | expr.cpp:262-266 | the same for a let, which it copies whole when it binds the name |
| `InPlaceRewrite.SubstFunAgrees` | expr.cpp:443-446 | the same for a function, which it copies whole when its parameter is the name |
| `InPlaceRewrite.SubstIfAgrees` | expr.cpp:333-334 | the same for `_if` |
| `InPlaceRewrite.SubstTwoAgrees` | expr.cpp:71-73 | the same for two children: both copies are spelt out on the final heap |
| `InPlaceRewrite.EqualAgrees` | expr.cpp:11-17 | `equals` on the heap answers, and answers exactly whether the two trees spelt at the addresses are identical |
| `InPlaceRewrite.EqualBinaryAgrees` | expr.cpp:479-484 | the same when the receiver is a `+`, `*`, `==` or call |
| `InPlaceRewrite.EqualScopeAgrees` | expr.cpp:255-260 | the same when the receiver is a let or a function |
| `InPlaceRewrite.EqualIfAgrees` | expr.cpp:317-322 | the same when the receiver is an `_if` |
| `InPlaceRewrite.EqualPairAgrees` | expr.cpp:255-260 | the same for two pairs compared with `&&` |
| `InPlaceRewrite.OptimizeAgreesOnTrees` | expr.cpp:80-88 | on a tree with no `_fun`, the heap's `optimize` and `Rewrite.OptimizeAsWritten` both succeed with the same tree, itself without closures, or are both undefined |
| `InPlaceRewrite.ArithAgrees` | expr.cpp:80-88 | the same for `+` and `*`, from the operands on |
| `InPlaceRewrite.CompareAgrees` | expr.cpp:398-408 | the same for `==`, from the operands on |
| `InPlaceRewrite.ArithTailAgrees` | expr.cpp:83-87 | once the operands agree, folding or rebuilding `+` and `*` agrees, undefined included |
| `InPlaceRewrite.CompareTailAgrees` | expr.cpp:402-408 | once the operands agree, `==` folds to the same boolean or rebuilds the same comparison |
| `InPlaceRewrite.NewOverOperandsAgrees` | expr.cpp:87 | a new `+`, `*` or `==` node over spelt-out operands spells the operator over them |
| `InPlaceRewrite.CallAgrees` | expr.cpp:498-502 | `CallExpr::optimize` on the heap agrees with `Rewrite.OptimizeAsWritten`: a new call node over the same two children |
| `InPlaceRewrite.OperandsAgree` | expr.cpp:80-83 | both operands optimize to the trees the value model gives, the `containsVar` answer is the same, and both trees are still spelt after it |
| `InPlaceRewrite.EitherAgrees` | expr.cpp:76-78 | `a->containsVar() \|\| b->containsVar()` on the heap gives the value model's answers, and leaves both trees spelt out |
| `InPlaceRewrite.IfAgrees` | expr.cpp:343-349 | the same as `OptimizeAgreesOnTrees` for `_if`, including the copy over the original parts |
| `InPlaceRewrite.LetAgrees` | expr.cpp:277-285 | the same for a let |
| `InPlaceRewrite.LetTailAgrees` | expr.cpp:280-284 | once `containsVar` of the optimized right-hand side has answered, the rest of `LetExpr::optimize` agrees: the kept let, the failed cast, or substitution and optimization again |
| `InPlaceRewrite.ContainsVarAgreesOnTrees` | expr.cpp:287-289 | on a tree with no `_fun`, `containsVar` on the heap answers what `Rewrite.ContainsVarAsWritten` answers, undefined included |
| `InPlaceRewrite.OptimizeOnHeapIsOptimize` | expr.cpp:80-88 | for a program with no `_fun`, the in-place `optimize` succeeds exactly when the corrected `Rewrite.Optimize` does, builds the tree it returns, and leaves the input tree as it was |
| `InPlaceRewrite.OptimizeOnHeapIdempotent` | expr.cpp:277-285 | for such a program, optimizing the heap's answer again succeeds and builds the same tree once more |
| `InPlaceRewrite.IfClosureBodyFolds` | expr.cpp:453-456 | in the heap of `_if _fun (x) 1 + 2 _then 1 _else 2`, optimizing the closure's body `1 + 2` allocates `1`, `2` and `3` |
| `InPlaceRewrite.IfSharesUpdatedClosure` | expr.cpp:343-349 | optimizing that `_if` overwrites the closure node of the input with one over `3`, and returns a new `_if` over that same node and the original branches |
| `InPlaceRewrite.IfHeapsSpell` | expr.cpp:343-349 | the input heap spells `_if _fun (x) 1 + 2 _then 1 _else 2`; after optimizing, both the answer and the input's own address spell `_if _fun (x) 3 _then 1 _else 2` |
| `InPlaceRewrite.IfUnchangedOnValues` | expr.cpp:343-349 | on values, the source's `optimize` and the corrected one return that `_if` unchanged |
| `InPlaceRewrite.CallClosureBodyFolds` | expr.cpp:80-88 | in the heap of `(_let x = 1 _in _fun (y) 1 + 2)(5) + 1`, the closure's body `1 + 2` folds to `3` |
| `InPlaceRewrite.CallLetParts` | expr.cpp:277-280 | optimizing the copied let: its right-hand side is `1`, its closure is overwritten with one over `3`, and `containsVar` of `1` is false |
| `InPlaceRewrite.CallLetSubstituted` | expr.cpp:443-446 | substituting `1` for `x` in that closure copies it, and optimizing the copy overwrites the copy |
| `InPlaceRewrite.CallLetOptimizes` | expr.cpp:277-285 | `LetExpr::optimize` of the copied let gives a closure over `3` |
| `InPlaceRewrite.OptimizeOfLet` | expr.cpp:277-285 | `optimize` of a let node is `LetExpr::optimize` of its fields |
| `InPlaceRewrite.LetContainsVar` | expr.cpp:287-289 | `containsVar` of a let node is `containsVar` of its optimized copy |
| `InPlaceRewrite.CallLetCopyOptimizes` | expr.cpp:287-289 | the copy `LetExpr::containsVar` makes of the callee optimizes to a closure over `3` |
| `InPlaceRewrite.CallCalleeContainsVar` | expr.cpp:494-496 | `containsVar` of the call looks at the callee, whose copy optimizes to a closure, so the answer is true, and the shared closure node has been overwritten |
| `InPlaceRewrite.CallSharesUpdatedClosure` | expr.cpp:498-502 | optimizing the sum gives a new `+` over a copy of the call that shares the callee, whose closure the `containsVar` above has overwritten |
| `InPlaceRewrite.CallProgramSpells` | expr.cpp:498-502 | the input heap spells `(_let x = 1 _in _fun (y) 1 + 2)(5) + 1` |
| `InPlaceRewrite.CallOptimizedSpells` | expr.cpp:498-502 | after optimizing, both the answer and the input's own address spell `(_let x = 1 _in _fun (y) 3)(5) + 1` |
| `InPlaceRewrite.CallOptimizedCallSpells` | expr.cpp:498-502 | the copy of the call in the answer spells `(_let x = 1 _in _fun (y) 3)(5)` |
| `InPlaceRewrite.CallUnchangedOnValues` | expr.cpp:498-502 | on values, the source's `optimize` and the corrected one return that sum unchanged |
| `InPlaceRewrite.CallLetOnValues` | expr.cpp:287-289 | on values, the let alone optimizes to `_fun (y) 3` |
| `RewriteExamples.FoldsConstants` | parse.cpp:360-362 | "3 + (2 * 4)" optimizes to "11", and "x + (2 * 4)" optimizes to "x + 8" |
| `RewriteExamples.EliminatesConstantLets` | parse.cpp:363-365 | "_let x = 2 _in x + 8" optimizes to 10, and "_let x = y + 4 _in x + 8" stays as it is |
| `RewriteExamples.KeepsVariableLet` | parse.cpp:366 | "_let y = z + 2 _in x + y + (2 * 3)" optimizes to "_let y = z + 2 _in x + y + 6" |
| `RewriteExamples.KeptLetText` | parse.cpp:366 | that optimized tree prints as "_let y = z + 2 _in x + y + 6" |
| `RewriteExamples.SubstitutesIntoVariableLet` | parse.cpp:368-369 | substituting 5 for `x` in the let body, as the let elimination does, and optimizing gives "_let y = z + 2 _in 5 + y + 6" |
| `RewriteExamples.EliminatesConstantLetAroundOther` | parse.cpp:368-369 | "_let x = 5 _in _let y = z + 2 _in x + y + (2 * 3)" optimizes to the tree of "_let y = z + 2 _in 5 + y + 6" |
| `RewriteExamples.EliminatedLetText` | parse.cpp:368-369 | that tree prints as "_let y = z + 2 _in 5 + y + 6" |
| `RewriteExamples.SubstitutesClosure` | parse.cpp:389 | substituting the increment closure for `f` in "f (10)" and optimizing gives the call of the function literal on 10 |
| `RewriteExamples.FibRecurText` | parse.cpp:411 | the recursive step of the Fibonacci program prints as "fib(fib)(x + -1) + fib(fib)(x + -2)" |
| `RewriteExamples.FibCallText` | parse.cpp:411 | each recursive call of the Fibonacci program prints as in its source text |
| `RewriteExamples.FibOptimizesToItself` | parse.cpp:415 | optimizing the Fibonacci tree gives the same tree, which prints as the program text (`FibProgramText`) |
| `RewriteExamples.FibProgramText` | parse.cpp:411 | the Fibonacci tree prints as the program text of the test, "_let fib = _fun (fib) _fun (x) … _in fib(fib)(10)", with the spacing of `to_string` |
| `RewriteExamples.ProgramPieces` | expr.cpp:292-295 | a let prints as `_let`, its name, `=`, its right-hand side, `_in` and its body |
| `RewriteExamples.FibCallOfTenText` | expr.cpp:504-506 | the call `fib(fib)(10)` prints as that text |
| `RewriteExamples.FibFunctionText` | parse.cpp:411 | the two nested functions print as "_fun (fib) _fun (x) " followed by the body |
| `RewriteExamples.FibBodyText` | parse.cpp:411 | the body prints as the outer conditional on `x == 0` around the inner one |
| `RewriteExamples.IfPieces` | expr.cpp:352-355 | a conditional prints as `_if`, its condition, `_then`, its branch, `_else` and its other branch |
| `RewriteExamples.FibInnerIfText` | parse.cpp:411 | the inner conditional prints as "_if x == 1 _then 1 _else " followed by the recursive step |
| `EvaluatorExamples.LetAndConditionals` | parse.cpp:373-380 | "_let x = 2 _in x + 8" is 10 and prints as "10"; the conditionals of the tests pick their branch by `==` |
| `EvaluatorExamples.CallsOfIncrement` | parse.cpp:383-391 | "(_fun (x) x + 1)(10)" and "_let f = _fun (x) x + 1 _in f (10)" are both 11 |
| `EvaluatorExamples.CallOfSquare` | parse.cpp:396 | "_let f = _fun (x) x * x _in f (2)" is 4 |
| `EvaluatorExamples.CallOfConditional` | parse.cpp:393 | the nested conditional of the tests is 0 for the argument 0 |
| `EvaluatorExamples.Closures` | parse.cpp:399 | a closure sees the environment it was made in: 16 |
| `EvaluatorExamples.PartialApplication` | parse.cpp:403 | the inner closure keeps the first argument: 15 |
| `EvaluatorExamples.SelfApplication` | parse.cpp:409 | the self-application `f (f)` of the recursion idiom gives the inner closure over the environment that binds `f` |
| `EvaluatorExamples.FactorialProgram` | parse.cpp:409 | the recursive factorial of the tests computes n! for every n from 1 to 12 |
| `EvaluatorExamples.FactorialOfFive` | parse.cpp:409 | fac (fac) (5) is 120 |
| `EvaluatorExamples.FibonacciProgram` | parse.cpp:411-413 | the Fibonacci program computes the n-th Fibonacci number, on 32-bit sums, for every n >= 0 |
| `EvaluatorExamples.FibonacciOfTen` | parse.cpp:411-413 | fib (fib) (10) is 89 |
| `Machine.StepInterpSpec` | expr.cpp:39-516 | no contract of its own; what each `step_interp` does to the five fields; its shape is `StepInterpShape`, and `Step.StepInterp` is proved against it |
| `Machine.StepContinueSpec` | cont.cpp:20-200 | no contract of its own; what each frame's `step_continue` does; its cases are `ContinueDone`, `RightOperandEnvironment`, `OperatorFramesPop`, `BindingFramesReplace` and `TailCallAddsNoFrame`, and `Step.StepContinue` is proved against it |
| `Machine.CallStepSpec` | value.cpp:146-151 | no contract of its own; a closure continues with its body in the extended captured environment on `rest`, a number or boolean changes nothing (value.cpp:56-58); `Step.CallStep` is proved against it |
| `Machine.Initial` | step.hpp:31-40 | no contract of its own; interp mode on the expression, the empty environment and `DoneCont`, with `val` as it was (`RunIgnoresVal`) |
| `Machine.Run` | step.hpp:40 | no contract of its own; the driver loop within a fuel bound, unfolded step by step by `RunByNext`; `Step.InterpBySteps` is proved against it |
| `Machine.Step.constructor` | step.hpp:31-38 | the state starts with the five given fields |
| `Machine.Step.StepInterp` | expr.cpp:200-203 | a `step_interp` returns what the step function gives on the old state; on success the fields become the new state, and when a variable's lookup throws, the only field changed is the mode, now continue mode |
| `Machine.Step.StepContinue` | cont.cpp:50-56 | a `step_continue` on the top frame returns what the step function gives on the old state; on success the fields become the new state; when `DoneCont` throws nothing has changed, and when a frame's `add_to` or `mult_with` throws the only field set is the mode, to continue mode |
| `Machine.Step.CallStep` | value.cpp:146-151 | the fields become the state `call_step` gives: for a closure the body in the extended captured environment on `rest`, otherwise unchanged |
| `Machine.Step.InterpBySteps` | step.hpp:40 | the driver returns what `Run` gives from the initial state within the fuel |
| `Machine.StepInterpShape` | expr.cpp:39-42 | on a literal, `step_interp` enters continue mode with the literal's value and keeps the stack; on a variable it looks the name up; on any other node it stays in interp mode on a smaller part, keeps the environment, and pushes exactly one frame onto the old stack |
| `Machine.ContinueDone` | cont.cpp:20-22 | resuming `DoneCont` fails with "can't continue done" |
| `Machine.RightOperandEnvironment` | cont.cpp:34-41 | the `+` and `*` frames run the right operand in the current environment and replace themselves by one frame; the `==` frame runs it in its saved environment |
| `Machine.OperatorFramesPop` | cont.cpp:50-56 | the frames that finish `+`, `*` and `==` stay in continue mode with the combined value and pop themselves |
| `Machine.BindingFramesReplace` | cont.cpp:103-109 | a let body runs in the saved environment extended with the resumed value; a conditional runs the branch `is_true` picks, in its saved environment, on `rest`; the argument of a call runs in its saved environment under a call frame holding the callee |
| `Machine.TailCallAddsNoFrame` | cont.cpp:160-163 | calling a closure runs its body on `rest` itself, so the stack is one frame shorter |
| `Machine.NonFunctionCallLoops` | value.cpp:56-58 | resuming a call frame whose callee is a number or boolean never ends |
| `Machine.RunIgnoresVal` | step.hpp:31-38 | a run started in interp mode does not read the old `val` |
| `Machine.RunByNext` | step.hpp:40 | each driver step is `step_interp` in interp mode and `step_continue` in continue mode, until continue mode on `DoneCont` |
| `Machine.DeepestUnder` | step.hpp:40 | the deepest stack a run passes through is at least as deep as the first stack |
| `Machine.JoinWalks` | step.hpp:40 | two stretches of a run that meet make one stretch |
| `Machine.DeepestStep` | step.hpp:40 | the deepest stack from a state is the larger of its own depth and the deepest from its successor |
| `Machine.DeepestWithin` | step.hpp:40 | along a stretch of a run whose states all stay within a bound, the deepest stack stays within it |
| `Machine.DeepestFrom` | step.hpp:40 | along such a stretch followed by more steps, the deepest stack is the bound or one met after the stretch |
| `Machine.DeepestAlong` | step.hpp:40 | the same for the driver's own step function |
| `Agreement.Resume` | cont.cpp:174-181 | without restoring, resuming is `step_continue`; with restoring, the `+` and `*` frames run the right operand in the saved environment, as the `==` frame does |
| `Agreement.RunWithIsRun` | step.hpp:40 | the driver over `Resume` without restoring is the driver of the machine |
| `Agreement.LookupKeepsSafe` | env.cpp:37-49 | looking a name up in an environment of safe values gives a safe value |
| `Agreement.RunFollowsInterp` | expr.cpp:297-303 | when `interp` gives a value, the machine reaches continue mode with that value on the same stack, and behaves from there as from that state; an expression that ends where it starts also keeps the environment |
| `Agreement.BinaryFollows` | expr.cpp:96-102 | the same for `+`, `*` and `==` |
| `Agreement.OperatorResumes` | cont.cpp:50-56 | given the right operand's value, the operator's frame yields what `interp` yields for the operation |
| `Agreement.LetFollows` | expr.cpp:297-303 | the same for `_let`: the right-hand side, then the body in the extended environment |
| `Agreement.IfFollows` | expr.cpp:357-364 | the same for `_if`: the condition, then the branch `is_true` picks in the saved environment |
| `Agreement.CallFollows` | expr.cpp:509-516 | the same for a call: the callee, the argument, then the body on the caller's stack |
| `Agreement.RunWith` | step.hpp:40 | no contract of its own; the driver over `Resume`, as written or restoring; `RunWithIsRun` ties it to `Run` |
| `Agreement.RunFailsLikeInterp` | expr.cpp:61-67 | when `interp` throws, the machine started on the same expression with any stack throws the same exception within a bounded number of steps |
| `Agreement.BinaryFails` | expr.cpp:96-102 | the same for `+`, `*` and `==`: the left operand throws, or the right one does, or the operation itself |
| `Agreement.OperatorFails` | cont.cpp:50-56 | given the right operand's value, the `+` or `*` frame throws what `add_to` or `mult_with` throws on the two values |
| `Agreement.LetFails` | expr.cpp:297-303 | the same for `_let`: the right-hand side throws, or the body does |
| `Agreement.IfFails` | expr.cpp:357-364 | the same for `_if`: the condition throws, or the branch `is_true` picks does |
| `Agreement.CallFails` | expr.cpp:509-516 | the same for a call: the callee throws, or the argument does, or the body does |
| `Agreement.RunAgreesWithInterp` | step.hpp:40 | on every program that `interp` finishes, with a value or with an exception, and whose `+` and `*` left operands leave the environment as they found it, `interp_by_steps` eventually gives what `interp` gives |
| `Agreement.RestoringRunAgreesWithInterp` | cont.cpp:174-181 | if `+` and `*` resume in their saved environment, as `==` does, the machine gives what `interp` gives, value or exception, on every program `interp` finishes |
| `Agreement.LeftBindingsLeakIntoRightOperand` | cont.cpp:34-41 | `_let y = 5 _in (_let y = 1 _in y) + y`: `interp` gives 6, the machine as written gives 2, and with the saved environment restored it gives 6 |
| `Agreement.LeakAsWritten` | cont.cpp:68-75 | the machine as written gives 2 on that program |
| `Agreement.LeakRestored` | cont.cpp:174-181 | with the environment restored it gives 6 |
| `Agreement.FrameResult` | cont.cpp:34-204 | no contract of its own: what the top frame does with the value it resumes with, computed as `interp` computes that part of the program; stated by `FrameResultMonotone` and `ContinueStepKeepsDenotation` |
| `Agreement.Pending` | cont.cpp:20-204 | no contract of its own: an answer carried through the frames of the stack, an exception passing them unchanged; stated by `PendingMonotone` |
| `Agreement.Denotation` | expr.cpp:61-67 | no contract of its own: what `interp` makes of a machine state (its expression, or its value, then its stack); stated by `RestoringRunIsDenotation` |
| `Agreement.FrameResultMonotone` | cont.cpp:50-55 | a frame's result that is a value or an exception stays the same with more fuel |
| `Agreement.PendingMonotone` | cont.cpp:20-204 | an answer carried through the stack that is a value or an exception stays the same with more fuel |
| `Agreement.InterpStepKeepsDenotation` | cont.cpp:34-41 | a `step_interp` of the restoring machine keeps what `interp` makes of the state, one unit of fuel later |
| `Agreement.ContinueStepKeepsDenotation` | cont.cpp:174-181 | a `step_continue` of the restoring machine keeps what `interp` makes of the state, one unit of fuel later |
| `Agreement.FailingStepIsDenotation` | cont.cpp:50-55 | a step that throws throws what `interp` throws on that state |
| `Agreement.RestoringRunIsDenotation` | step.hpp:40 | whenever the restoring machine finishes from a state in `n` steps, with a value or an exception, `interp` with fuel `n` gives the same on that state |
| `Agreement.RestoringRunFinishesOnlyWithInterp` | step.hpp:40 | whatever the restoring machine finishes a program with, value or exception, `interp` gives the same |
| `Agreement.RestoringRunTerminatesIffInterp` | step.hpp:40 | the restoring machine finishes a program exactly when `interp` does |
| `Agreement.CallOfNumberLoopsOnMachine` | value.cpp:52-58 | `1(2)`: `interp` is undefined for every fuel, while the machine runs out of every fuel |
| `Agreement.SelfApplicationDiverges` | expr.cpp:486-488 | `g(g)` with `g` bound to `_fun (g) g(g)` runs out of every fuel on `interp` |
| `Agreement.LeakDivergenceProgramDiverges` | expr.cpp:61-67 | `_let f = _fun (g) g(g) _in (_let f = _fun (x) 5 _in 0) + f(f)` runs out of every fuel on `interp` |
| `Agreement.LeakMakesDivergentProgramFinish` | cont.cpp:34-41 | the machine as written gives 5 on that program |
| `Agreement.RestoringRunDivergesOnLeakDivergenceProgram` | cont.cpp:174-181 | the restoring machine never finishes that program |
| `MachineExamples.LetAndConditional` | parse.cpp:417-418 | `interp_by_steps` gives 10 for "_let x = 2 _in x + 8" and 2 for "_if 1 == 9 _then 1 _else 2" |
| `MachineExamples.CallsOfIncrement` | parse.cpp:421-422 | the machine gives 11 for both increment programs |
| `MachineExamples.Closure` | parse.cpp:423 | the machine gives 16 for the closure program |
| `MachineExamples.FactorialOfFive` | parse.cpp:424 | the machine gives 120 for the factorial of 5 |
| `MachineExamples.FactorialIsSafe` | parse.cpp:424 | the factorial program is one on which the machine and `interp` agree |
| `MachineExamples.RecursiveProgram` | parse.cpp:427 | the direct evaluation of a program in the recursion idiom, from what one turn of its body computes |
| `MachineExamples.CountdownFromAMillion` | parse.cpp:427-428 | the machine gives 0 for the countdown from 1,000,000 |
| `MachineExamples.CountdownInterprets` | parse.cpp:427-428 | `interp` gives 0 for the countdown |
| `MachineExamples.CountdownIsSafe` | parse.cpp:427 | the countdown is a program on which the machine and `interp` agree |
| `MachineExamples.CountToTenThousand` | parse.cpp:430-432 | the machine gives 10000 for the non-tail count to 10000 |
| `MachineExamples.CountInterprets` | parse.cpp:430-432 | `interp` gives 10000 for the count |
| `MachineExamples.CountIsSafe` | parse.cpp:430 | the count is a program on which the machine and `interp` agree |
| `MachineExamples.CountdownTurn` | parse.cpp:427 | one turn of the countdown for n >= 1 takes 21 steps, holds at most three frames, and returns to the top of the body for n - 1 |
| `MachineExamples.CountdownLastTurn` | parse.cpp:427 | the last turn, for 0, stays within three frames |
| `MachineExamples.CountdownDepth` | parse.cpp:427 | from the top of the body for any n >= 0 the countdown never holds more than three frames |
| `MachineExamples.CountdownStaysShallow` | parse.cpp:427-428 | the whole countdown, whatever its start, runs with at most three frames: the tail call adds none per turn |
| `Parser.PeekSpec` | parse.cpp:259-268 | `peek` consumes nothing, shows the character at the read position of a good stream and the end marker otherwise |
| `Parser.GetSpec` | parse.cpp:113-118 | `get` consumes the next character of a good stream, and at the end sets `failbit` and gives the end marker |
| `Parser.SkipSpaces` | parse.cpp:259-268 | the whitespace skipped runs up to the first character that is not whitespace |
| `Parser.DigitRunEnd` | parse.cpp:149-153 | the run `>>` reads is all digits and ends before a non-digit or at the end |
| `Parser.AccumulateIsDigitsValue` | parse.cpp:149-153 | accumulating a run of digits computes the value of its decimal text |
| `Parser.ExtractCharSpec` | parse.cpp:52-56 | `>>` of a character at a non-space consumes exactly that character |
| `Parser.PeekAfterSpacesSpec` | parse.cpp:259-268 | `peek_after_spaces` shows a character that is not whitespace and is what `peek` now sees |
| `Parser.ParseInnerSpec` | parse.cpp:108-146 | whatever `parse_inner` accepts, it has consumed at least one character |
| `Parser.ParseNumberSpec` | parse.cpp:149-153 | at a digit, `parse_number` always yields a number and consumes something |
| `Parser.ParseNegativeNumberSpec` | parse.cpp:155-160 | at `-`, a successful `parse_negative_number` yields a number |
| `Parser.ParseVariableSpec` | parse.cpp:164-166 | at a letter, `parse_variable` always yields a variable |
| `Parser.ScanSpaces` | parse.cpp:259-268 | the whitespace scan stops where `SkipSpaces` says |
| `Parser.ScanDigits` | parse.cpp:149-153 | the digit scan stops at the end of the run and accumulates its value |
| `Parser.Accumulate` | parse.cpp:149-153 | accumulating digits never lowers the value accumulated so far |
| `Parser.ExtractIntSpec` | parse.cpp:149-153 | `>>` of an `int` only moves forward over the same data; the values it reads are `ParserLaws.ReadsDecimal` and `ParserLaws.ReadsNegativeDecimal` |
| `Parser.AlphabeticSpec` | parse.cpp:177-186 | `parse_alphabetic` only moves forward over the same data; what it reads is `ParserLaws.LettersRead` |
| `Parser.ParseStreamSpec` | parse.cpp:32-43 | no contract of its own; what `parse` gives is `ParserLaws.StreamOfExpr`, `ParserLaws.WholeInput` and `ParserLaws.FailedInput` |
| `Parser.ParseExprSpec` | parse.cpp:48-63 | `parse_expr` only moves forward over the same data; what it parses is `ParserLaws.ExprOfComparg` and `ParserLaws.LoneEqualsIsDropped` |
| `Parser.ParseCompargSpec` | parse.cpp:66-77 | `parse_comparg` only moves forward over the same data; what it parses is `ParserLaws.CompargOfAddend` |
| `Parser.ParseAddendSpec` | parse.cpp:83-94 | `parse_addend` only moves forward over the same data; what it parses is `ParserLaws.AddendOfMulticand` |
| `Parser.ParseMulticandSpec` | parse.cpp:97-105 | `parse_multicand` only moves forward over the same data; what it parses is `ParserLaws.MulticandOfInner` and `ParserLaws.CallsOfInner` |
| `Parser.CallsSpec` | parse.cpp:99-102 | the loop of `parse_multicand` only moves forward over the same data; calls group to the left (`ParserLaws.CallsOfInner`) |
| `Parser.ParseKeywordSpec` | parse.cpp:170-173 | `parse_keyword` consumes at least the `_`, over the same data; the keyword it reads is `ParserLaws.KeywordRead` |
| `Parser.KeywordAfterSpacesSpec` | parse.cpp:202-205 | skipping whitespace, one character and a keyword only moves forward over the same data |
| `Parser.AfterKeywordSpec` | parse.cpp:202-208 | the shared tail of `parse_let` and `parse_if` only moves forward over the same data |
| `Parser.ParseLetSpec` | parse.cpp:188-211 | `parse_let` only moves forward over the same data; its form is `ParserLaws.LetForm` |
| `Parser.BindingSpec` | parse.cpp:199-210 | the tail of `parse_let` only moves forward over the same data |
| `Parser.ParseIfSpec` | parse.cpp:213-241 | `parse_if` only moves forward over the same data; its form is `ParserLaws.IfForm` |
| `Parser.BranchesSpec` | parse.cpp:222-240 | the tail of `parse_if` only moves forward over the same data |
| `Parser.ParseFunSpec` | parse.cpp:243-253 | `parse_fun` only moves forward over the same data; its form is `ParserLaws.FunForm` |
| `Parser.Stream.constructor` | parse.cpp:271-274 | a fresh stream over a string: at position 0 with no state bit set |
| `Parser.Stream.Peek` | parse.cpp:259-268 | `in.peek()` gives the character and new state of `PeekSpec` |
| `Parser.Stream.Get` | parse.cpp:113-118 | `in.get()` gives the character and new state of `GetSpec` |
| `Parser.Stream.ExtractChar` | parse.cpp:52-56 | `in >> c` gives the character and new state of `ExtractCharSpec` |
| `Parser.Stream.ExtractInt` | parse.cpp:149-153 | `in >> num` gives the number and new state of `ExtractIntSpec`: whitespace, an optional sign, digits, clamping to the nearest bound with `failbit` |
| `Parser.PeekAfterSpaces` | parse.cpp:259-268 | the loop ends in the state, and with the character, of `PeekAfterSpacesSpec` |
| `Parser.ParseAlphabetic` | parse.cpp:177-186 | the loop ends with the prefix and the letters that follow, in the state of `AlphabeticSpec` |
| `Parser.Parse` | parse.cpp:32-43 | `parse` gives the tree or error of `ParseStreamSpec` and reads the same data |
| `Parser.ParseExpr` | parse.cpp:48-63 | `parse_expr` ends with the tree or exception, and in the stream state, that `ParseExprSpec` gives |
| `Parser.ParseComparg` | parse.cpp:66-77 | the same for `parse_comparg` and `ParseCompargSpec` |
| `Parser.ParseAddend` | parse.cpp:83-94 | the same for `parse_addend` and `ParseAddendSpec` |
| `Parser.ParseMulticand` | parse.cpp:97-105 | the same for `parse_multicand` and `ParseMulticandSpec` |
| `Parser.ParseInner` | parse.cpp:108-146 | the same for `parse_inner` and `ParseInnerSpec` |
| `Parser.ParseNumber` | parse.cpp:149-153 | the same for `parse_number` and `ParseNumberSpec` |
| `Parser.ParseNegativeNumber` | parse.cpp:155-160 | the same for `parse_negative_number`, whose `-num` overflows for the least `int` |
| `Parser.ParseVariable` | parse.cpp:164-166 | the same for `parse_variable` and `ParseVariableSpec` |
| `Parser.ParseKeyword` | parse.cpp:170-173 | `parse_keyword` consumes the `_` and gives `_` and the letters after it, as `ParseKeywordSpec` says |
| `Parser.ParseLet` | parse.cpp:188-211 | the same for `parse_let` and `ParseLetSpec` |
| `Parser.ParseBinding` | parse.cpp:199-210 | the right-hand side, `_in` and body of `parse_let`, as `BindingSpec` says |
| `Parser.ParseIf` | parse.cpp:213-241 | the same for `parse_if` and `ParseIfSpec` |
| `Parser.ParseBranches` | parse.cpp:222-240 | the `_then` and `_else` parts of `parse_if`, as `BranchesSpec` says |
| `Parser.ParseAfterKeyword` | parse.cpp:202-208 | skip whitespace, consume one character, read `_` and letters, throw the message unless it is the keyword, else parse an expression, as `AfterKeywordSpec` says |
| `Parser.ParseFun` | parse.cpp:243-253 | the same for `parse_fun` and `ParseFunSpec` |
| `ParserLaws.PeekSettles` | parse.cpp:259-268 | a second `peek_after_spaces` sees the same character, and a third changes nothing |
| `ParserLaws.Settled` | parse.cpp:259-268 | the state the repeated peeks of the levels above an operand leave is a later state that peeks the same character without change |
| `ParserLaws.PastEnd` | parse.cpp:259-268 | once the stream is not good, every peek shows the end marker, sets `failbit` and stays put |
| `ParserLaws.MulticandOfInner` | parse.cpp:97-105 | an inner expression not followed by `(` is the whole multiplicand; an error passes through |
| `ParserLaws.AddendOfMulticand` | parse.cpp:83-94 | a multiplicand followed by `*` takes an addend on its right (`*` groups to the right); otherwise it is the addend |
| `ParserLaws.CompargOfAddend` | parse.cpp:66-77 | an addend followed by `+` takes a comparison operand on its right (`+` groups to the right); otherwise it is the operand |
| `ParserLaws.ExprOfComparg` | parse.cpp:48-63 | an operand followed by anything but `=` is the expression; an error passes through |
| `ParserLaws.LoneEqualsIsDropped` | parse.cpp:52-60 | an `=` not followed by a second `=` is consumed and dropped, and the operand before it is the expression |
| `ParserLaws.InnerOfNumber` | parse.cpp:123-124 | at a digit, `parse_inner` is `parse_number` |
| `ParserLaws.NumberOperand` | parse.cpp:149-153 | a number read at a digit is the value of the run of digits there when it fits, with the stream after the run |
| `ParserLaws.DigitOperand` | parse.cpp:149-153 | a one-digit number is its value, with the stream after the digit |
| `ParserLaws.InnerOfMinus` | parse.cpp:121-122 | at `-`, `parse_inner` is `parse_negative_number` |
| `ParserLaws.InnerOfVariable` | parse.cpp:125-126 | at a letter, `parse_inner` reads the letters that follow as a variable |
| `ParserLaws.InnerOfParenthesis` | parse.cpp:113-120 | at `(`, `parse_inner` is the expression inside when `)` follows it, and otherwise fails "expected a close parenthesis" |
| `ParserLaws.LettersRead` | parse.cpp:177-186 | `parse_alphabetic` over a run of letters gives the prefix and the run, with the stream after it |
| `ParserLaws.KeywordRead` | parse.cpp:170-173 | `parse_keyword` over `_` and a run of letters gives the keyword, with the stream after it |
| `ParserLaws.InnerOfKeyword` | parse.cpp:127-140 | at `_`, the keyword chooses `_true`, `_false`, `_let`, `_if` or `_fun`; any other fails "unexpected keyword " + keyword |
| `ParserLaws.LetForm` | parse.cpp:188-211 | `parse_let` is the name, one ignored character, the right-hand side, then `_in` and the body |
| `ParserLaws.IfForm` | parse.cpp:213-241 | `parse_if` is the condition, then `_then` and a branch, then `_else` and a branch, both misses reporting "expect _then in this expression " |
| `ParserLaws.FunForm` | parse.cpp:243-253 | `parse_fun` takes the printed text of the first expression as the parameter and the next expression as the body |
| `ParserLaws.InnerOfOther` | parse.cpp:141-143 | any other first character fails "expected a digit or open parenthesis at " followed by it |
| `ParserLaws.ParenthesisedOperand` | parse.cpp:113-120 | a parenthesised operand followed by `)` is the operand, with the `)` consumed |
| `ParserLaws.CallsOfInner` | parse.cpp:99-102 | each `(` that follows applies the tree so far to the next inner expression, so calls group to the left |
| `ParserLaws.MulticandClimbs` | parse.cpp:48-94 | a multiplicand followed by nothing that continues it is the expression at every level above |
| `ParserLaws.OperandClimbs` | parse.cpp:48-105 | an inner expression followed by nothing that continues it is the whole expression at every level, and its error is every level's error |
| `ParserLaws.StreamOfExpr` | parse.cpp:32-43 | `parse` gives the expression when the stream then reaches its end, and otherwise fails "expected end of file at " followed by the character it sees |
| `ParserLaws.PeekSkipsSpaces` | parse.cpp:259-268 | `peek_after_spaces` gives from a good state what it gives after the whitespace there |
| `ParserLaws.InnerFollowsPeek` | parse.cpp:108-111 | `parse_inner` depends on the stream only through what `peek_after_spaces` gives |
| `ParserLaws.MulticandFollowsInner` | parse.cpp:97-98 | `parse_multicand` depends on the stream only through what `parse_inner` gives |
| `ParserLaws.AddendFollowsMulticand` | parse.cpp:83-84 | `parse_addend` depends on the stream only through what `parse_multicand` gives |
| `ParserLaws.CompargFollowsAddend` | parse.cpp:66-67 | `parse_comparg` depends on the stream only through what `parse_addend` gives |
| `ParserLaws.ExprFollowsComparg` | parse.cpp:48-49 | `parse_expr` and `parse` depend on the stream only through what `parse_comparg` gives |
| `ParserLaws.LeadingSpacesIgnored` | parse.cpp:259-268 | whitespace before an expression is ignored by `parse_inner`, by every level above it and by `parse` |
| `ParserLaws.ReadsDecimal` | parse.cpp:149-153 | `>>` on the printed digits of a natural number gives the number, or the greatest `int` with `failbit` when it does not fit |
| `ParserLaws.ReadsNegativeDecimal` | parse.cpp:155-160 | `>>` on a minus sign and digits gives the negation, or the least `int` with `failbit` when it does not fit |
| `ParserLaws.FailedInput` | parse.cpp:32-43 | an operand that throws or overflows is what `parse` reports |
| `ParserLaws.WholeInput` | parse.cpp:32-43 | an operand that ends where the stream ends is the result of `parse` |
| `ParserLaws.PrintedNumberParses` | parse.cpp:149-160 | parsing the printed form of an `int` gives it back, except the least `int`, which reads as itself plus one |
| `ParserLaws.OversizedLiteralClamps` | parse.cpp:149-153 | a literal beyond `int` parses as the greatest `int` |
| `ParserExamples.Numbers` | parse.cpp:313 | "10" is the number 10 and "-5" the number -5 |
| `ParserExamples.Variable` | parse.cpp:331 | "xyz" is the variable `xyz` |
| `ParserExamples.True` | parse.cpp:354 | "_true" is the boolean true |
| `ParserExamples.False` | parse.cpp:355 | "_false" is the boolean false |
| `ParserExamples.TenPlusOne` | parse.cpp:315 | "10+1" is the sum of 10 and 1 |
| `ParserExamples.PlusGroupsRight` | parse.cpp:325-326 | "4+2+3" is 4 + (2 + 3) |
| `ParserExamples.TimesBindsTighter` | parse.cpp:319-320 | "1+2*3" is 1 + (2 * 3) |
| `ParserExamples.Parentheses` | parse.cpp:314 | "(10)" is the number 10 |
| `ParserExamples.SpacesBetweenTokens` | parse.cpp:340 | " ( 10 + 1 ) " parses as "10+1" does |
| `ParserExamples.CallsGroupLeft` | parse.cpp:405 | "f(10)(1)" is the call of f(10) on 1 |
| `ParserExamples.BadStart` | parse.cpp:334 | "!" fails "expected a digit or open parenthesis at !" |
| `ParserExamples.MissingCloseParenthesis` | parse.cpp:335 | "(1" fails "expected a close parenthesis" |
| `ParserExamples.LeftOverInput` | parse.cpp:352 | " 1 )" fails "expected end of file at )" |
| `ParserExamples.UnknownKeyword` | parse.cpp:357 | "_maybe " fails "unexpected keyword _maybe" |
| `ParserExamples.Function` | parse.cpp:382 | "_fun (x) x + 1" is the function of `x` whose body is x + 1 |
| `ParserExamples.LetTakesAnyEquals` | parse.cpp:197-198 | in "_let x ~ 2 _in x" the `~` where `=` belongs is consumed and ignored |
| `ParserExamples.MissingInKeyword` | parse.cpp:202-208 | "_let x = 1" fails "expect a _in in this expression " |
| `ParserExamples.MissingElseKeyword` | parse.cpp:232-238 | "_if 1 _then 2" fails with the `_then` message |
| `ParserExamples.LoneEquals` | parse.cpp:52-60 | "1 =" is the number 1 |
| `ParserExamples.LoneMinus` | parse.cpp:155-160 | "-" is the number 0, read by a failed `>>` |
| `ParserExamples.NegatedLeastInt` | parse.cpp:159 | on "--2147483648" the inner `>>` reads the least `int` and negating it overflows |
| `ParserExamples.DoubleMinusOverflows` | parse.cpp:155-160 | parsing "--2147483648" is undefined behaviour |

## Left out

- main.cpp: command-line dispatch, reading standard input, printing, and the `rand()`-based random expression generators. These are I/O and randomness.
- The test helpers at parse.cpp:270-306 (`parse_str`, `parse_str_error` and the others) and the Catch harness. The tests' expectations are stated as the example lemmas instead; `parse_str` is `ParseSpec` on a fresh stream.
- The parsing expectation of parse.cpp:384 ("_let f = _fun (x) x + 1 _in f (10)" as a tree) is not proved. That program is used as a tree in the other examples for the same line.
- Of the tests at parse.cpp:311-352, the parser examples prove one representative per behaviour: precedence, grouping, parentheses, whitespace, and each error message. The remaining variants are not proved one by one.
- pointer.hpp: shared pointers and `CAST`. Ownership is not modelled; a failed `CAST` in `optimize` gives `None` in `Rewrite.Optimize` and `Undefined` in `Rewrite.OptimizeAsWritten`, both meaning undefined.
- Rewrite.Optimize: it works on values, so it leaves out the update of `FunExpr::optimize` (expr.cpp:453-456). On a program whose result shares a closure with the input, its tree differs from the source's: on `_if _fun (x) 1 + 2 _then 1 _else 2` the source returns `_if _fun (x) 3 _then 1 _else 2`, and `Rewrite.Optimize` returns the input. `InPlaceRewrite.Optimize` models the update; the two give the same tree on programs without closures (`InPlaceRewrite.OptimizeOnHeapIsOptimize`).
- Rewrite.OptimizeAsWritten: the same. It follows the source's calls, but on values, so on the two programs above it returns the input where the source returns the tree with the closure's body replaced by `3`.
- InPlaceRewrite.OptimizeAgreesOnTrees: agreement with `Rewrite` is proved only for programs without `_fun`. For a program with closures, what the in-place optimizer builds is stated only by `InPlaceRewrite.OptimizeUpdatesOnlyClosures` (only closure nodes are overwritten, and they keep their parameter) and by the two examples; no value-level function describes it.
- InPlaceRewrite: the heap only grows. Ownership, reference counts and freeing are not modelled; an address outside the heap, a dangling pointer, gives `Undefined`.
- `NumVal::call` and `BoolVal::call` return NULL (value.cpp:52-54). The direct evaluator answers `Undefined` at that call and claims nothing past it, so it loses what the source does with the NULL afterwards:
  - `_let x = 1(2) _in 5` gives 5 in the source, because the NULL is bound and never read (expr.cpp:270-274);
  - `1 == 1(2)` gives `_false`, because `NumVal::equals` of NULL is false (value.cpp:15-21);
  - `1 + 1(2)` throws "not a number", because `NumVal::add_to` of NULL throws (value.cpp:23-27);
  - only where the NULL is itself the receiver, as in `1(2) + 1`, is the source's behaviour undefined.
  The model answers `Undefined` in all of these.
- Agreement.RunAgreesWithInterp: only one direction is proved for the machine as written. That it finishes only where `interp` does, on programs whose left operands keep the environment, is not proved; it is proved for the restoring machine (`RestoringRunFinishesOnlyWithInterp`).
- After an exception the stepper's fields stay as the source leaves them at the throw, and nothing reads them afterwards. `VarExpr::step_interp` sets continue mode before `lookup` throws (expr.cpp:200-203), and `AddCont` and `MultCont` set it before `add_to` or `mult_with` throws (cont.cpp:50-56, 85-91). `DoneCont` throws before touching a field (cont.cpp:20-22). `Step.StepInterp` and `Step.StepContinue` state the fields after a throw.
- The body of `Step::interp_by_steps` (step.cpp) is not part of this model; the driver is the minimal loop described above.
- Divergence: `Interp`, `Run`, `OptimizeAsWritten`, `ContainsVarAsWritten` and the machine's `InterpBySteps` take a fuel bound. `OutOfFuel` is the model's answer past it and says nothing about the source.
- Parser.ParseExprSpec: its own contract states only that the stream advances over the same data; what it parses is stated by the laws of `ParserLaws`. The same holds for each of the following.
- Parser.ParseCompargSpec: as `ParseExprSpec`.
- Parser.ParseAddendSpec: as `ParseExprSpec`.
- Parser.ParseMulticandSpec: as `ParseExprSpec`.
- Parser.CallsSpec: as `ParseExprSpec`.
- Parser.ParseLetSpec: as `ParseExprSpec`.
- Parser.BindingSpec: as `ParseExprSpec`.
- Parser.ParseIfSpec: as `ParseExprSpec`.
- Parser.BranchesSpec: as `ParseExprSpec`.
- Parser.AfterKeywordSpec: as `ParseExprSpec`.
- Parser.ParseFunSpec: as `ParseExprSpec`.
- Parser.ParseKeywordSpec: as `ParseExprSpec`, and it consumes at least one character.
- Parser.KeywordAfterSpacesSpec: as `ParseExprSpec`.
- Parser.AlphabeticSpec: as `ParseExprSpec`; the letters read are `ParserLaws.LettersRead`.
- Parser.ExtractIntSpec: as `ParseExprSpec`; the values read are `ParserLaws.ReadsDecimal` and `ParserLaws.ReadsNegativeDecimal`.
- Parser.ParseInnerSpec: its own contract states only that an accepted operand consumed something; the cases are the `InnerOf…` laws.
- Parser.ParseNegativeNumberSpec: its own contract states only that a result is a number; the values are `ReadsNegativeDecimal` and the examples.
- Evaluator.Interp: its own contract states only which exceptions it can raise; its values are stated by `InterpMonotone`, by the agreement with the machine and by the examples.
- Evaluator.Call: its own contract states only the undefined case and the exceptions; the call itself is `CallIsLexical`.
- Evaluator.AddTo: its own contract states only that a success is a number and which exceptions it can raise; the values are `ArithmeticOnValues` and `ClosureArithmetic`.
- Evaluator.MultWith: the same as `AddTo`.
- Rewrite.Optimize: it uses the corrected `containsVar`, so it answers on trees such as `(_let x = y _in x) + 1` where the source's `optimize` never returns. `Rewrite.OptimizeAsWritten` is the source's, and `Rewrite.OptimizeAgreesWithAsWritten` shows the two agree wherever the source's returns. Its own contract is the size bound; idempotence and the casts are separate lemmas, and the test expectations are examples.
- RewriteExamples.FibOptimizesToItself: it starts from the tree of the Fibonacci program, not from parsing its text; that `parse_str` gives this tree is not proved. The same holds for the evaluator and machine examples, which start from trees.
- Exprs.ToString: no round trip through the parser is claimed. The printer adds no parentheses, so two trees can print alike (`Exprs.ToStringLosesGrouping`), and parsing cannot give both back. Besides that law, only the printed forms of the test programs are proved.
- Rewrite.Subst: its own contract is that the size is kept; the scoping is `SubstNotFree` and `SubstRemovesFree`.
- The parsing functions of `parse_let` and `parse_if` share their repeated tail (`peek_after_spaces`, `get`, `parse_alphabetic`, the keyword test) as `ParseAfterKeyword`. The behaviour is the same line by line.
- `>>` is modelled by the loops `ScanSpaces` and `ScanDigits` over the stream's characters, following the C++ library's rules; locale, `std::ios` flags other than `eofbit` and `failbit`, and the `badbit` are not modelled.
- `isspace` and `isalpha` are those of the C locale on the characters a `char` holds; the end marker `(char) EOF` is the character 0xFF.

## Findings

| source | as written | input that shows it | evidently intended | confidence | as-written member | corrected member |
|---|---|---|---|---|---|---|
| expr.cpp:287-289 | `LetExpr::containsVar` asks the same question of its optimized copy; when that copy is again a let, `containsVar` and `optimize` call each other without end | `(_let x = y _in x) + 1`: the let optimizes to itself, so `optimize` of the sum never returns | a let that survives optimization contains a variable, so `containsVar` answers true | not executed | `Rewrite.SurvivingLetInsideSum` | `Rewrite.OptimizeAgreesWithAsWritten` |
| cont.cpp:39 | the `+` frame assigns `Step::env = Step::env`, so the right operand runs in whatever environment the left operand left behind, not in the one saved in the frame; cont.cpp:73 does the same for `*` | `_let y = 5 _in (_let y = 1 _in y) + y`: `interp` gives 6, `interp_by_steps` gives 2; `_let f = _fun (g) g(g) _in (_let f = _fun (x) 5 _in 0) + f(f)`: `interp` diverges, `interp_by_steps` gives 5 | `Step::env = env`, restoring the saved environment as the `==` frame does (cont.cpp:176-178), so both evaluators give 6 | not executed | `Agreement.LeakAsWritten`, `Agreement.LeakMakesDivergentProgramFinish` | `Agreement.RestoringRunTerminatesIffInterp` |
