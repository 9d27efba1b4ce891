/**
 * The parsing expectations of the unit tests in parse.cpp, and the quirks of
 * the parser on small inputs. Each is assembled from the laws of `ParserLaws`
 * and from what the grammar functions do at the stream states the input
 * passes through: `At(s, p)` is a good stream over `s` at position `p`,
 * `AtEof(s, p)` one on which a read has hit the end, and `Spent(s)` one on
 * which a peek has then failed too.
 *
 * The steps are stated for a string `s` equal to the input rather than for
 * the literal itself, so that the verifier follows the steps given instead
 * of evaluating the whole grammar on the literal.
 */
module ParserExamples {

  import opened Int32
  import opened Syntax
  import opened Outcomes
  import opened Parser
  import opened ParserLaws

  function N(n: int32): Expr { NumExpr(n) }
  function V(name: string): Expr { VarExpr(name) }
  function At(s: string, p: nat): Cursor { Cursor(s, p, false, false) }
  function AtEof(s: string, p: nat): Cursor { Cursor(s, p, true, false) }
  function Spent(s: string): Cursor { Cursor(s, |s|, true, true) }

  // ---------------------------------------------------------------- numbers, variables, booleans

  /** "10" is the number 10, and "-5" the number -5. */
  lemma Numbers()
    ensures ParseSpec("10") == Ok(N(10))
    ensures ParseSpec("-5") == Ok(N(-5))
  {
    PrintedNumberParses(10);
    assert Int32.ToString(10) == "10";
    PrintedNumberParses(-5);
    assert Int32.ToString(-5) == "-5";
  }

  lemma {:induction false} VariableRead(s: string)
    requires s == "xyz"
    ensures ParseInnerSpec(At(s, 0)) == Parsed(V("xyz"), AtEof(s, 3))
  {
    assert PeekAfterSpacesSpec(At(s, 0)) == CharRead('x', At(s, 0));
    assert s[0..3] == "xyz" && "" + "xyz" == "xyz";
    LettersRead(At(s, 0), "", "xyz");
    InnerOfVariable(At(s, 0));
  }

  /** "xyz" is the variable `xyz`. */
  lemma Variable()
    ensures ParseSpec("xyz") == Ok(V("xyz"))
  {
    var s := "xyz";
    VariableRead(s);
    WholeInput(At(s, 0), V("xyz"), AtEof(s, 3));
  }

  lemma {:induction false} TrueKeyword(s: string)
    requires s == "_true"
    ensures ParseKeywordSpec(At(s, 0)) == WordRead("_true", AtEof(s, 5))
  {
    assert s[1..5] == "true" && "_" + "true" == "_true";
    KeywordRead(At(s, 0), "true");
  }

  lemma {:induction false} TrueRead(s: string)
    requires s == "_true"
    ensures ParseInnerSpec(At(s, 0)) == Parsed(BoolExpr(true), AtEof(s, 5))
  {
    assert PeekAfterSpacesSpec(At(s, 0)) == CharRead('_', At(s, 0));
    TrueKeyword(s);
    InnerOfKeyword(At(s, 0));
  }

  /** "_true" is the boolean true. */
  lemma True()
    ensures ParseSpec("_true") == Ok(BoolExpr(true))
  {
    var s := "_true";
    TrueRead(s);
    WholeInput(At(s, 0), BoolExpr(true), AtEof(s, 5));
  }

  lemma {:induction false} FalseKeyword(s: string)
    requires s == "_false"
    ensures ParseKeywordSpec(At(s, 0)) == WordRead("_false", AtEof(s, 6))
  {
    assert s[1..6] == "false" && "_" + "false" == "_false";
    KeywordRead(At(s, 0), "false");
  }

  lemma {:induction false} FalseRead(s: string)
    requires s == "_false"
    ensures ParseInnerSpec(At(s, 0)) == Parsed(BoolExpr(false), AtEof(s, 6))
  {
    assert PeekAfterSpacesSpec(At(s, 0)) == CharRead('_', At(s, 0));
    FalseKeyword(s);
    InnerOfKeyword(At(s, 0));
  }

  /** "_false" is the boolean false. */
  lemma False()
    ensures ParseSpec("_false") == Ok(BoolExpr(false))
  {
    var s := "_false";
    FalseRead(s);
    WholeInput(At(s, 0), BoolExpr(false), AtEof(s, 6));
  }

  // ---------------------------------------------------------------- operators

  /** The operands of "10+1". */
  lemma {:induction false} TenPlusOneOperands(s: string)
    requires s == "10+1"
    ensures ParseInnerSpec(At(s, 0)) == Parsed(N(10), At(s, 2))
    ensures ParseInnerSpec(At(s, 3)) == Parsed(N(1), AtEof(s, 4))
  {
    assert PeekAfterSpacesSpec(At(s, 0)) == CharRead('1', At(s, 0));
    assert DigitRunEnd(s, 2) == 2 && DigitRunEnd(s, 1) == 2 && DigitRunEnd(s, 0) == 2;
    assert Accumulate(s, 2, 10) == 10 && Accumulate(s, 1, 1) == 10 && Accumulate(s, 0, 0) == 10;
    assert PeekAfterSpacesSpec(At(s, 3)) == CharRead('1', At(s, 3));
    NumberOperand(At(s, 0));
    DigitOperand(At(s, 3));
  }

  /** The sum "10+1", up to the end of the input. */
  lemma {:induction false} TenPlusOneSum(s: string)
    requires s == "10+1"
    ensures ParseExprSpec(At(s, 0)) == Parsed(AddExpr(N(10), N(1)), Spent(s))
  {
    assert PeekAfterSpacesSpec(At(s, 2)) == CharRead('+', At(s, 2));
    assert ExtractCharSpec(At(s, 2)) == CharRead('+', At(s, 3));
    PastEnd(AtEof(s, 4));
    TenPlusOneOperands(s);
    MulticandOfInner(At(s, 0));
    AddendOfMulticand(At(s, 0));
    CompargOfAddend(At(s, 0));
    OperandClimbs(At(s, 3));
    ExprOfComparg(At(s, 0));
  }

  /** "10+1" is the sum of 10 and 1. */
  lemma TenPlusOne()
    ensures ParseSpec("10+1") == Ok(AddExpr(N(10), N(1)))
  {
    var s := "10+1";
    TenPlusOneSum(s);
    PastEnd(AtEof(s, 4));
    StreamOfExpr(At(s, 0));
  }

  /** The operands of "4+2+3". */
  lemma {:induction false} PlusOperands(s: string)
    requires s == "4+2+3"
    ensures ParseInnerSpec(At(s, 0)) == Parsed(N(4), At(s, 1))
    ensures ParseInnerSpec(At(s, 2)) == Parsed(N(2), At(s, 3))
    ensures ParseInnerSpec(At(s, 4)) == Parsed(N(3), AtEof(s, 5))
  {
    assert PeekAfterSpacesSpec(At(s, 0)) == CharRead('4', At(s, 0));
    assert PeekAfterSpacesSpec(At(s, 2)) == CharRead('2', At(s, 2));
    assert PeekAfterSpacesSpec(At(s, 4)) == CharRead('3', At(s, 4));
    DigitOperand(At(s, 0));
    DigitOperand(At(s, 2));
    DigitOperand(At(s, 4));
  }

  /** The sum "2+3" at the end of "4+2+3". */
  lemma {:induction false} TwoPlusThree(s: string)
    requires s == "4+2+3"
    ensures ParseCompargSpec(At(s, 2)) == Parsed(AddExpr(N(2), N(3)), Spent(s))
  {
    assert PeekAfterSpacesSpec(At(s, 3)) == CharRead('+', At(s, 3));
    assert ExtractCharSpec(At(s, 3)) == CharRead('+', At(s, 4));
    PastEnd(AtEof(s, 5));
    PlusOperands(s);
    MulticandOfInner(At(s, 2));
    AddendOfMulticand(At(s, 2));
    CompargOfAddend(At(s, 2));
    OperandClimbs(At(s, 4));
  }

  /** The whole sum "4+2+3". */
  lemma {:induction false} PlusChain(s: string)
    requires s == "4+2+3"
    ensures ParseExprSpec(At(s, 0)) == Parsed(AddExpr(N(4), AddExpr(N(2), N(3))), Spent(s))
  {
    assert PeekAfterSpacesSpec(At(s, 1)) == CharRead('+', At(s, 1));
    assert ExtractCharSpec(At(s, 1)) == CharRead('+', At(s, 2));
    PastEnd(AtEof(s, 5));
    PlusOperands(s);
    MulticandOfInner(At(s, 0));
    AddendOfMulticand(At(s, 0));
    CompargOfAddend(At(s, 0));
    TwoPlusThree(s);
    ExprOfComparg(At(s, 0));
  }

  /** "4+2+3" groups to the right: `+` takes a comparison operand on its right. */
  lemma PlusGroupsRight()
    ensures ParseSpec("4+2+3") == Ok(AddExpr(N(4), AddExpr(N(2), N(3))))
  {
    var s := "4+2+3";
    PlusChain(s);
    PastEnd(AtEof(s, 5));
    StreamOfExpr(At(s, 0));
  }

  /** The operands of "1+2*3". */
  lemma {:induction false} TimesOperands(s: string)
    requires s == "1+2*3"
    ensures ParseInnerSpec(At(s, 0)) == Parsed(N(1), At(s, 1))
    ensures ParseInnerSpec(At(s, 2)) == Parsed(N(2), At(s, 3))
    ensures ParseInnerSpec(At(s, 4)) == Parsed(N(3), AtEof(s, 5))
  {
    assert PeekAfterSpacesSpec(At(s, 0)) == CharRead('1', At(s, 0));
    assert PeekAfterSpacesSpec(At(s, 2)) == CharRead('2', At(s, 2));
    assert PeekAfterSpacesSpec(At(s, 4)) == CharRead('3', At(s, 4));
    DigitOperand(At(s, 0));
    DigitOperand(At(s, 2));
    DigitOperand(At(s, 4));
  }

  /** The product "2*3" in "1+2*3". */
  lemma {:induction false} TwoTimesThree(s: string)
    requires s == "1+2*3"
    ensures ParseAddendSpec(At(s, 2)) == Parsed(MultExpr(N(2), N(3)), Spent(s))
  {
    assert PeekAfterSpacesSpec(At(s, 3)) == CharRead('*', At(s, 3));
    assert GetSpec(At(s, 3)) == CharRead('*', At(s, 4));
    PastEnd(AtEof(s, 5));
    TimesOperands(s);
    MulticandOfInner(At(s, 2));
    AddendOfMulticand(At(s, 2));
    OperandClimbs(At(s, 4));
  }

  /** The whole of "1+2*3". */
  lemma {:induction false} SumOfProduct(s: string)
    requires s == "1+2*3"
    ensures ParseExprSpec(At(s, 0)) == Parsed(AddExpr(N(1), MultExpr(N(2), N(3))), Spent(s))
  {
    assert PeekAfterSpacesSpec(At(s, 1)) == CharRead('+', At(s, 1));
    assert ExtractCharSpec(At(s, 1)) == CharRead('+', At(s, 2));
    PastEnd(AtEof(s, 5));
    TimesOperands(s);
    MulticandOfInner(At(s, 0));
    AddendOfMulticand(At(s, 0));
    CompargOfAddend(At(s, 0));
    TwoTimesThree(s);
    CompargOfAddend(At(s, 2));
    ExprOfComparg(At(s, 0));
  }

  /** "1+2*3": `*` binds tighter than `+`. */
  lemma TimesBindsTighter()
    ensures ParseSpec("1+2*3") == Ok(AddExpr(N(1), MultExpr(N(2), N(3))))
  {
    var s := "1+2*3";
    SumOfProduct(s);
    PastEnd(AtEof(s, 5));
    StreamOfExpr(At(s, 0));
  }

  /** The parenthesised expression of "(10)". */
  lemma {:induction false} TenInParentheses(s: string)
    requires s == "(10)"
    ensures ParseInnerSpec(At(s, 0)) == Parsed(N(10), At(s, 4))
  {
    assert PeekAfterSpacesSpec(At(s, 0)) == CharRead('(', At(s, 0));
    assert GetSpec(At(s, 0)) == CharRead('(', At(s, 1));
    assert PeekAfterSpacesSpec(At(s, 1)) == CharRead('1', At(s, 1));
    assert DigitRunEnd(s, 3) == 3 && DigitRunEnd(s, 2) == 3 && DigitRunEnd(s, 1) == 3;
    assert Accumulate(s, 3, 10) == 10 && Accumulate(s, 2, 1) == 10 && Accumulate(s, 1, 0) == 10;
    assert PeekAfterSpacesSpec(At(s, 3)) == CharRead(')', At(s, 3));
    NumberOperand(At(s, 1));
    ParenthesisedOperand(At(s, 0));
  }

  /** "(10)" is the number 10. */
  lemma Parentheses()
    ensures ParseSpec("(10)") == Ok(N(10))
  {
    var s := "(10)";
    TenInParentheses(s);
    WholeInput(At(s, 0), N(10), At(s, 4));
  }

  /** The operand "10" of " ( 10 + 1 ) ". */
  lemma {:induction false} SpacedTen(s: string)
    requires s == " ( 10 + 1 ) "
    ensures ParseInnerSpec(At(s, 2)) == Parsed(N(10), At(s, 5))
  {
    assert PeekAfterSpacesSpec(At(s, 2)) == CharRead('1', At(s, 3));
    assert DigitRunEnd(s, 5) == 5 && DigitRunEnd(s, 4) == 5 && DigitRunEnd(s, 3) == 5;
    assert Accumulate(s, 5, 10) == 10 && Accumulate(s, 4, 1) == 10 && Accumulate(s, 3, 0) == 10;
    NumberOperand(At(s, 2));
  }

  /** The operand "1" of " ( 10 + 1 ) ". */
  lemma {:induction false} SpacedOne(s: string)
    requires s == " ( 10 + 1 ) "
    ensures ParseInnerSpec(At(s, 7)) == Parsed(N(1), At(s, 9))
  {
    assert PeekAfterSpacesSpec(At(s, 7)) == CharRead('1', At(s, 8));
    DigitOperand(At(s, 7));
  }

  /** The right operand "1" of " ( 10 + 1 ) ", up to the `)`. */
  lemma {:induction false} SpacedRightOperand(s: string)
    requires s == " ( 10 + 1 ) "
    ensures ParseCompargSpec(At(s, 7)) == Parsed(N(1), At(s, 10))
  {
    assert PeekAfterSpacesSpec(At(s, 9)) == CharRead(')', At(s, 10));
    assert PeekAfterSpacesSpec(At(s, 10)) == CharRead(')', At(s, 10));
    SpacedOne(s);
    OperandClimbs(At(s, 7));
  }

  /** The sum inside the parentheses of " ( 10 + 1 ) ". */
  lemma {:induction false} SpacedSum(s: string)
    requires s == " ( 10 + 1 ) "
    ensures ParseExprSpec(At(s, 2)) == Parsed(AddExpr(N(10), N(1)), At(s, 10))
  {
    assert PeekAfterSpacesSpec(At(s, 5)) == CharRead('+', At(s, 6));
    assert PeekAfterSpacesSpec(At(s, 6)) == CharRead('+', At(s, 6));
    assert ExtractCharSpec(At(s, 6)) == CharRead('+', At(s, 7));
    assert PeekAfterSpacesSpec(At(s, 10)) == CharRead(')', At(s, 10));
    SpacedTen(s);
    MulticandOfInner(At(s, 2));
    AddendOfMulticand(At(s, 2));
    CompargOfAddend(At(s, 2));
    SpacedRightOperand(s);
    ExprOfComparg(At(s, 2));
  }

  /** The parenthesised sum of " ( 10 + 1 ) ". */
  lemma {:induction false} SpacedParentheses(s: string)
    requires s == " ( 10 + 1 ) "
    ensures ParseInnerSpec(At(s, 0)) == Parsed(AddExpr(N(10), N(1)), At(s, 11))
  {
    assert PeekAfterSpacesSpec(At(s, 0)) == CharRead('(', At(s, 1));
    assert GetSpec(At(s, 1)) == CharRead('(', At(s, 2));
    assert PeekAfterSpacesSpec(At(s, 10)) == CharRead(')', At(s, 10));
    assert GetSpec(At(s, 10)) == CharRead(')', At(s, 11));
    SpacedSum(s);
    InnerOfParenthesis(At(s, 0));
  }

  /** The whole of " ( 10 + 1 ) ", up to the end of the input. */
  lemma {:induction false} SpacedExpr(s: string)
    requires s == " ( 10 + 1 ) "
    ensures ParseExprSpec(At(s, 0)) == Parsed(AddExpr(N(10), N(1)), Spent(s))
  {
    assert PeekAfterSpacesSpec(At(s, 11)) == CharRead(EOF, AtEof(s, 12));
    PastEnd(AtEof(s, 12));
    SpacedParentheses(s);
    OperandClimbs(At(s, 0));
  }

  /** " ( 10 + 1 ) ": whitespace between the tokens is ignored, and it parses as "10+1" does. */
  lemma SpacesBetweenTokens()
    ensures ParseSpec(" ( 10 + 1 ) ") == Ok(AddExpr(N(10), N(1)))
    ensures ParseSpec(" ( 10 + 1 ) ") == ParseSpec("10+1")
  {
    var s := " ( 10 + 1 ) ";
    SpacedExpr(s);
    PastEnd(AtEof(s, 12));
    StreamOfExpr(At(s, 0));
    TenPlusOne();
  }

  /** The argument "(10)" of "f(10)(1)". */
  lemma {:induction false} FirstArgument(s: string)
    requires s == "f(10)(1)"
    ensures ParseInnerSpec(At(s, 1)) == Parsed(N(10), At(s, 5))
  {
    assert PeekAfterSpacesSpec(At(s, 1)) == CharRead('(', At(s, 1));
    assert GetSpec(At(s, 1)) == CharRead('(', At(s, 2));
    assert PeekAfterSpacesSpec(At(s, 2)) == CharRead('1', At(s, 2));
    assert DigitRunEnd(s, 4) == 4 && DigitRunEnd(s, 3) == 4 && DigitRunEnd(s, 2) == 4;
    assert Accumulate(s, 4, 10) == 10 && Accumulate(s, 3, 1) == 10 && Accumulate(s, 2, 0) == 10;
    assert PeekAfterSpacesSpec(At(s, 4)) == CharRead(')', At(s, 4));
    NumberOperand(At(s, 2));
    ParenthesisedOperand(At(s, 1));
  }

  /** The argument "(1)" of "f(10)(1)". */
  lemma {:induction false} SecondArgument(s: string)
    requires s == "f(10)(1)"
    ensures ParseInnerSpec(At(s, 5)) == Parsed(N(1), At(s, 8))
  {
    assert PeekAfterSpacesSpec(At(s, 5)) == CharRead('(', At(s, 5));
    assert GetSpec(At(s, 5)) == CharRead('(', At(s, 6));
    assert PeekAfterSpacesSpec(At(s, 6)) == CharRead('1', At(s, 6));
    assert PeekAfterSpacesSpec(At(s, 7)) == CharRead(')', At(s, 7));
    DigitOperand(At(s, 6));
    ParenthesisedOperand(At(s, 5));
  }

  /** The callee `f` of "f(10)(1)" and the two calls that follow it. */
  lemma {:induction false} CallsOfF(s: string)
    requires s == "f(10)(1)"
    ensures ParseMulticandSpec(At(s, 0)) == Parsed(CallExpr(CallExpr(V("f"), N(10)), N(1)), AtEof(s, 8))
  {
    var e := CallExpr(CallExpr(V("f"), N(10)), N(1));
    assert PeekAfterSpacesSpec(At(s, 0)) == CharRead('f', At(s, 0));
    assert s[0..1] == "f" && "" + "f" == "f";
    assert PeekAfterSpacesSpec(At(s, 1)) == CharRead('(', At(s, 1));
    assert PeekAfterSpacesSpec(At(s, 5)) == CharRead('(', At(s, 5));
    assert PeekAfterSpacesSpec(At(s, 8)) == CharRead(EOF, AtEof(s, 8));
    LettersRead(At(s, 0), "", "f");
    InnerOfVariable(At(s, 0));
    FirstArgument(s);
    CallsOfInner(V("f"), At(s, 1));
    SecondArgument(s);
    CallsOfInner(CallExpr(V("f"), N(10)), At(s, 5));
    CallsOfInner(e, At(s, 8));
  }

  /** "f(10)(1)": calls group to the left, the callee applied to each argument in turn. */
  lemma CallsGroupLeft()
    ensures ParseSpec("f(10)(1)") == Ok(CallExpr(CallExpr(V("f"), N(10)), N(1)))
  {
    var s := "f(10)(1)";
    CallsOfF(s);
    PastEnd(AtEof(s, 8));
    MulticandClimbs(At(s, 0));
    StreamOfExpr(At(s, 0));
  }

  // ---------------------------------------------------------------- errors

  lemma {:induction false} BadStartThrows(s: string)
    requires s == "!"
    ensures ParseInnerSpec(At(s, 0)) == Thrown("expected a digit or open parenthesis at !", At(s, 0))
  {
    assert PeekAfterSpacesSpec(At(s, 0)) == CharRead('!', At(s, 0));
    assert "expected a digit or open parenthesis at " + ['!'] == "expected a digit or open parenthesis at !";
    InnerOfOther(At(s, 0));
  }

  /** "!" cannot start an expression. */
  lemma BadStart()
    ensures ParseSpec("!") == Fail("expected a digit or open parenthesis at !")
  {
    var s := "!";
    BadStartThrows(s);
    FailedInput(At(s, 0));
  }

  lemma {:induction false} UnclosedOperand(s: string)
    requires s == "(1"
    ensures ParseInnerSpec(At(s, 1)) == Parsed(N(1), AtEof(s, 2))
  {
    assert PeekAfterSpacesSpec(At(s, 1)) == CharRead('1', At(s, 1));
    DigitOperand(At(s, 1));
  }

  lemma {:induction false} UnclosedExpr(s: string)
    requires s == "(1"
    ensures ParseExprSpec(At(s, 1)) == Parsed(N(1), Spent(s))
  {
    PastEnd(AtEof(s, 2));
    UnclosedOperand(s);
    OperandClimbs(At(s, 1));
  }

  lemma {:induction false} UnclosedThrows(s: string)
    requires s == "(1"
    ensures ParseInnerSpec(At(s, 0)) == Thrown("expected a close parenthesis", Spent(s))
  {
    assert PeekAfterSpacesSpec(At(s, 0)) == CharRead('(', At(s, 0));
    assert GetSpec(At(s, 0)) == CharRead('(', At(s, 1));
    PastEnd(AtEof(s, 2));
    UnclosedExpr(s);
    InnerOfParenthesis(At(s, 0));
  }

  /** "(1" lacks its close parenthesis. */
  lemma MissingCloseParenthesis()
    ensures ParseSpec("(1") == Fail("expected a close parenthesis")
  {
    var s := "(1";
    UnclosedThrows(s);
    FailedInput(At(s, 0));
  }

  lemma {:induction false} LeftOverOperand(s: string)
    requires s == " 1 )"
    ensures ParseInnerSpec(At(s, 0)) == Parsed(N(1), At(s, 2))
  {
    assert PeekAfterSpacesSpec(At(s, 0)) == CharRead('1', At(s, 1));
    DigitOperand(At(s, 0));
  }

  lemma {:induction false} LeftOverExpr(s: string)
    requires s == " 1 )"
    ensures ParseExprSpec(At(s, 0)) == Parsed(N(1), At(s, 3))
    ensures PeekAfterSpacesSpec(At(s, 3)) == CharRead(')', At(s, 3))
  {
    assert PeekAfterSpacesSpec(At(s, 2)) == CharRead(')', At(s, 3));
    assert PeekAfterSpacesSpec(At(s, 3)) == CharRead(')', At(s, 3));
    LeftOverOperand(s);
    OperandClimbs(At(s, 0));
  }

  /** " 1 )": whitespace is skipped, and the `)` left over is reported. */
  lemma LeftOverInput()
    ensures ParseSpec(" 1 )") == Fail("expected end of file at )")
  {
    var s := " 1 )";
    LeftOverExpr(s);
    StreamOfExpr(At(s, 0));
  }

  lemma {:induction false} MaybeKeyword(s: string)
    requires s == "_maybe "
    ensures ParseKeywordSpec(At(s, 0)) == WordRead("_maybe", At(s, 6))
  {
    assert s[1..6] == "maybe" && "_" + "maybe" == "_maybe";
    KeywordRead(At(s, 0), "maybe");
  }

  lemma {:induction false} MaybeThrows(s: string)
    requires s == "_maybe "
    ensures ParseInnerSpec(At(s, 0)) == Thrown("unexpected keyword _maybe", At(s, 6))
  {
    assert PeekAfterSpacesSpec(At(s, 0)) == CharRead('_', At(s, 0));
    assert "unexpected keyword " + "_maybe" == "unexpected keyword _maybe";
    MaybeKeyword(s);
    InnerOfKeyword(At(s, 0));
  }

  /** "_maybe " is not a keyword. */
  lemma UnknownKeyword()
    ensures ParseSpec("_maybe ") == Fail("unexpected keyword _maybe")
  {
    var s := "_maybe ";
    MaybeThrows(s);
    FailedInput(At(s, 0));
  }

  // ---------------------------------------------------------------- keyword forms

  /** The variable `x` inside "(x)" in "_fun (x) x + 1". */
  lemma {:induction false} FunFormalVariable(s: string)
    requires s == "_fun (x) x + 1"
    ensures ParseInnerSpec(At(s, 6)) == Parsed(V("x"), At(s, 7))
  {
    assert PeekAfterSpacesSpec(At(s, 6)) == CharRead('x', At(s, 6));
    assert s[6..7] == "x" && "" + "x" == "x";
    LettersRead(At(s, 6), "", "x");
    InnerOfVariable(At(s, 6));
  }

  /** The parenthesised variable "(x)" of "_fun (x) x + 1". */
  lemma {:induction false} FunFormalInner(s: string)
    requires s == "_fun (x) x + 1"
    ensures ParseInnerSpec(At(s, 5)) == Parsed(V("x"), At(s, 8))
  {
    assert PeekAfterSpacesSpec(At(s, 5)) == CharRead('(', At(s, 5));
    assert GetSpec(At(s, 5)) == CharRead('(', At(s, 6));
    assert PeekAfterSpacesSpec(At(s, 7)) == CharRead(')', At(s, 7));
    FunFormalVariable(s);
    ParenthesisedOperand(At(s, 5));
  }

  /** The formal argument "(x)" of "_fun (x) x + 1", up to the body. */
  lemma {:induction false} FunFormal(s: string)
    requires s == "_fun (x) x + 1"
    ensures ParseExprSpec(At(s, 5)) == Parsed(V("x"), At(s, 9))
  {
    assert PeekAfterSpacesSpec(At(s, 8)) == CharRead('x', At(s, 9));
    assert PeekAfterSpacesSpec(At(s, 9)) == CharRead('x', At(s, 9));
    FunFormalInner(s);
    OperandClimbs(At(s, 5));
  }

  /** The operand "1" that ends "_fun (x) x + 1". */
  lemma {:induction false} FunBodyLiteral(s: string)
    requires s == "_fun (x) x + 1"
    ensures ParseInnerSpec(At(s, 12)) == Parsed(N(1), AtEof(s, 14))
  {
    assert PeekAfterSpacesSpec(At(s, 12)) == CharRead('1', At(s, 13));
    DigitOperand(At(s, 12));
  }

  lemma {:induction false} FunBodyOperand(s: string)
    requires s == "_fun (x) x + 1"
    ensures ParseCompargSpec(At(s, 12)) == Parsed(N(1), Spent(s))
  {
    PastEnd(AtEof(s, 14));
    FunBodyLiteral(s);
    OperandClimbs(At(s, 12));
  }

  /** The variable `x` that starts the body of "_fun (x) x + 1". */
  lemma {:induction false} FunBodyVariable(s: string)
    requires s == "_fun (x) x + 1"
    ensures ParseInnerSpec(At(s, 9)) == Parsed(V("x"), At(s, 10))
  {
    assert PeekAfterSpacesSpec(At(s, 9)) == CharRead('x', At(s, 9));
    assert s[9..10] == "x" && "" + "x" == "x";
    LettersRead(At(s, 9), "", "x");
    InnerOfVariable(At(s, 9));
  }

  /** The body "x + 1" of "_fun (x) x + 1". */
  lemma {:induction false} FunBody(s: string)
    requires s == "_fun (x) x + 1"
    ensures ParseExprSpec(At(s, 9)) == Parsed(AddExpr(V("x"), N(1)), Spent(s))
  {
    assert PeekAfterSpacesSpec(At(s, 10)) == CharRead('+', At(s, 11));
    assert PeekAfterSpacesSpec(At(s, 11)) == CharRead('+', At(s, 11));
    assert ExtractCharSpec(At(s, 11)) == CharRead('+', At(s, 12));
    PastEnd(AtEof(s, 14));
    FunBodyVariable(s);
    MulticandOfInner(At(s, 9));
    AddendOfMulticand(At(s, 9));
    CompargOfAddend(At(s, 9));
    FunBodyOperand(s);
    ExprOfComparg(At(s, 9));
  }

  lemma {:induction false} FunKeyword(s: string)
    requires s == "_fun (x) x + 1"
    ensures ParseKeywordSpec(At(s, 0)) == WordRead("_fun", At(s, 4))
  {
    assert s[1..4] == "fun";
    assert "_" + "fun" == "_fun";
    KeywordRead(At(s, 0), "fun");
  }

  /** What follows `_fun` in "_fun (x) x + 1". */
  lemma {:induction false} FunAfterKeyword(s: string)
    requires s == "_fun (x) x + 1"
    ensures ParseFunSpec(At(s, 4)) == Parsed(FunExpr("x", AddExpr(V("x"), N(1))), Spent(s))
  {
    assert PeekAfterSpacesSpec(At(s, 4)) == CharRead('(', At(s, 5));
    assert PeekAfterSpacesSpec(At(s, 9)) == CharRead('x', At(s, 9));
    assert Exprs.ToString(V("x")) == "x";
    FunFormal(s);
    FunBody(s);
    FunForm(At(s, 4), At(s, 5), Parsed(V("x"), At(s, 9)), At(s, 9), Parsed(AddExpr(V("x"), N(1)), Spent(s)));
  }

  lemma {:induction false} FunctionRead(s: string)
    requires s == "_fun (x) x + 1"
    ensures ParseInnerSpec(At(s, 0)) == Parsed(FunExpr("x", AddExpr(V("x"), N(1))), Spent(s))
  {
    assert PeekAfterSpacesSpec(At(s, 0)) == CharRead('_', At(s, 0));
    FunKeyword(s);
    InnerOfKeyword(At(s, 0));
    FunAfterKeyword(s);
  }

  /** "_fun (x) x + 1": the formal argument is the printed form of the expression in parentheses. */
  lemma Function()
    ensures ParseSpec("_fun (x) x + 1") == Ok(FunExpr("x", AddExpr(V("x"), N(1))))
  {
    var s := "_fun (x) x + 1";
    FunctionRead(s);
    WholeInput(At(s, 0), FunExpr("x", AddExpr(V("x"), N(1))), Spent(s));
  }

  lemma {:induction false} LetNameRead(s: string)
    requires s == "_let x ~ 2 _in x"
    ensures AlphabeticSpec(At(s, 5), "") == WordRead("x", At(s, 6))
  {
    assert s[5..6] == "x" && "" + "x" == "x";
    LettersRead(At(s, 5), "", "x");
  }

  /** The name of "_let x ~ 2 _in x", and the character after it that stands for `=`. */
  lemma {:induction false} LetName(s: string)
    requires s == "_let x ~ 2 _in x"
    ensures ParseLetSpec(At(s, 4)) == BindingSpec("x", At(s, 8))
  {
    assert PeekAfterSpacesSpec(At(s, 4)) == CharRead('x', At(s, 5));
    assert PeekAfterSpacesSpec(At(s, 6)) == CharRead('~', At(s, 7));
    assert GetSpec(At(s, 7)) == CharRead('~', At(s, 8));
    LetNameRead(s);
  }

  /** The right-hand side "2" of "_let x ~ 2 _in x". */
  lemma {:induction false} LetRhsOperand(s: string)
    requires s == "_let x ~ 2 _in x"
    ensures ParseInnerSpec(At(s, 8)) == Parsed(N(2), At(s, 10))
  {
    assert PeekAfterSpacesSpec(At(s, 8)) == CharRead('2', At(s, 9));
    DigitOperand(At(s, 8));
  }

  lemma {:induction false} LetRhs(s: string)
    requires s == "_let x ~ 2 _in x"
    ensures ParseExprSpec(At(s, 8)) == Parsed(N(2), At(s, 11))
  {
    assert PeekAfterSpacesSpec(At(s, 10)) == CharRead('_', At(s, 11));
    assert PeekAfterSpacesSpec(At(s, 11)) == CharRead('_', At(s, 11));
    LetRhsOperand(s);
    OperandClimbs(At(s, 8));
  }

  /** The keyword `_in` of "_let x ~ 2 _in x". */
  lemma {:induction false} InKeyword(s: string)
    requires s == "_let x ~ 2 _in x"
    ensures KeywordAfterSpacesSpec(At(s, 11)) == WordRead("_in", At(s, 14))
  {
    assert PeekAfterSpacesSpec(At(s, 11)) == CharRead('_', At(s, 11));
    assert GetSpec(At(s, 11)) == CharRead('_', At(s, 12));
    assert s[12..14] == "in" && "_" + "in" == "_in";
    LettersRead(At(s, 12), "_", "in");
  }

  /** The variable `x` at the end of "_let x ~ 2 _in x". */
  lemma {:induction false} LetBodyVariable(s: string)
    requires s == "_let x ~ 2 _in x"
    ensures ParseInnerSpec(At(s, 14)) == Parsed(V("x"), AtEof(s, 16))
  {
    assert PeekAfterSpacesSpec(At(s, 14)) == CharRead('x', At(s, 15));
    assert s[15..16] == "x" && "" + "x" == "x";
    LettersRead(At(s, 15), "", "x");
    InnerOfVariable(At(s, 14));
  }

  lemma {:induction false} LetBodyExpr(s: string)
    requires s == "_let x ~ 2 _in x"
    ensures ParseExprSpec(At(s, 14)) == Parsed(V("x"), Spent(s))
  {
    PastEnd(AtEof(s, 16));
    LetBodyVariable(s);
    OperandClimbs(At(s, 14));
  }

  /** The "_in x" of "_let x ~ 2 _in x". */
  lemma {:induction false} LetBody(s: string)
    requires s == "_let x ~ 2 _in x"
    ensures AfterKeywordSpec(At(s, 11), "_in", MissingIn) == Parsed(V("x"), Spent(s))
  {
    InKeyword(s);
    LetBodyExpr(s);
  }

  lemma {:induction false} LetKeyword(s: string)
    requires s == "_let x ~ 2 _in x"
    ensures ParseKeywordSpec(At(s, 0)) == WordRead("_let", At(s, 4))
  {
    assert s[1..4] == "let";
    assert "_" + "let" == "_let";
    KeywordRead(At(s, 0), "let");
  }

  /** "_let x ~ 2 _in x" up to the end of the input. */
  lemma {:induction false} LetRead(s: string)
    requires s == "_let x ~ 2 _in x"
    ensures ParseInnerSpec(At(s, 0)) == Parsed(LetExpr("x", N(2), V("x")), Spent(s))
  {
    assert PeekAfterSpacesSpec(At(s, 0)) == CharRead('_', At(s, 0));
    LetKeyword(s);
    InnerOfKeyword(At(s, 0));
    LetName(s);
    LetRhs(s);
    LetBody(s);
  }

  /** "_let x ~ 2 _in x": whatever character stands where `=` belongs is consumed and ignored. */
  lemma LetTakesAnyEquals()
    ensures ParseSpec("_let x ~ 2 _in x") == Ok(LetExpr("x", N(2), V("x")))
  {
    var s := "_let x ~ 2 _in x";
    LetRead(s);
    WholeInput(At(s, 0), LetExpr("x", N(2), V("x")), Spent(s));
  }

  // ---------------------------------------------------------------- errors in keyword forms

  lemma {:induction false} UnfinishedLetNameRead(s: string)
    requires s == "_let x = 1"
    ensures AlphabeticSpec(At(s, 5), "") == WordRead("x", At(s, 6))
  {
    assert s[5..6] == "x" && "" + "x" == "x";
    LettersRead(At(s, 5), "", "x");
  }

  /** The name and the `=` of "_let x = 1". */
  lemma {:induction false} UnfinishedLetName(s: string)
    requires s == "_let x = 1"
    ensures ParseLetSpec(At(s, 4)) == BindingSpec("x", At(s, 8))
  {
    assert PeekAfterSpacesSpec(At(s, 4)) == CharRead('x', At(s, 5));
    assert PeekAfterSpacesSpec(At(s, 6)) == CharRead('=', At(s, 7));
    assert GetSpec(At(s, 7)) == CharRead('=', At(s, 8));
    UnfinishedLetNameRead(s);
  }

  lemma {:induction false} UnfinishedLetRhs(s: string)
    requires s == "_let x = 1"
    ensures ParseInnerSpec(At(s, 8)) == Parsed(N(1), AtEof(s, 10))
  {
    assert PeekAfterSpacesSpec(At(s, 8)) == CharRead('1', At(s, 9));
    DigitOperand(At(s, 8));
  }

  /** The right-hand side "1" of "_let x = 1" ends the input, where `_in` is missing. */
  lemma {:induction false} UnfinishedLetBinding(s: string)
    requires s == "_let x = 1"
    ensures BindingSpec("x", At(s, 8)) == Thrown(MissingIn, Spent(s))
  {
    assert AlphabeticSpec(Spent(s), "_") == WordRead("_", Spent(s));
    PastEnd(AtEof(s, 10));
    UnfinishedLetRhs(s);
    OperandClimbs(At(s, 8));
  }

  lemma {:induction false} UnfinishedLetKeyword(s: string)
    requires s == "_let x = 1"
    ensures ParseKeywordSpec(At(s, 0)) == WordRead("_let", At(s, 4))
  {
    assert s[1..4] == "let";
    assert "_" + "let" == "_let";
    KeywordRead(At(s, 0), "let");
  }

  lemma {:induction false} UnfinishedLet(s: string)
    requires s == "_let x = 1"
    ensures ParseInnerSpec(At(s, 0)) == Thrown(MissingIn, Spent(s))
  {
    assert PeekAfterSpacesSpec(At(s, 0)) == CharRead('_', At(s, 0));
    UnfinishedLetKeyword(s);
    InnerOfKeyword(At(s, 0));
    UnfinishedLetName(s);
    UnfinishedLetBinding(s);
  }

  /** "_let x = 1": a `_let` without `_in` is "expect a _in in this expression ". */
  lemma MissingInKeyword()
    ensures ParseSpec("_let x = 1") == Fail(MissingIn)
  {
    var s := "_let x = 1";
    UnfinishedLet(s);
    FailedInput(At(s, 0));
  }

  /** The keyword `_then` of "_if 1 _then 2". */
  lemma {:induction false} ThenKeyword(s: string)
    requires s == "_if 1 _then 2"
    ensures KeywordAfterSpacesSpec(At(s, 6)) == WordRead("_then", At(s, 11))
  {
    assert PeekAfterSpacesSpec(At(s, 6)) == CharRead('_', At(s, 6));
    assert GetSpec(At(s, 6)) == CharRead('_', At(s, 7));
    assert s[7..11] == "then" && "_" + "then" == "_then";
    LettersRead(At(s, 7), "_", "then");
  }

  lemma {:induction false} IfConditionOperand(s: string)
    requires s == "_if 1 _then 2"
    ensures ParseInnerSpec(At(s, 4)) == Parsed(N(1), At(s, 5))
  {
    assert PeekAfterSpacesSpec(At(s, 4)) == CharRead('1', At(s, 4));
    DigitOperand(At(s, 4));
  }

  /** The condition "1" of "_if 1 _then 2". */
  lemma {:induction false} UnfinishedIfCondition(s: string)
    requires s == "_if 1 _then 2"
    ensures ParseExprSpec(At(s, 4)) == Parsed(N(1), At(s, 6))
  {
    assert PeekAfterSpacesSpec(At(s, 5)) == CharRead('_', At(s, 6));
    assert PeekAfterSpacesSpec(At(s, 6)) == CharRead('_', At(s, 6));
    IfConditionOperand(s);
    OperandClimbs(At(s, 4));
  }

  lemma {:induction false} IfBranchOperand(s: string)
    requires s == "_if 1 _then 2"
    ensures ParseInnerSpec(At(s, 11)) == Parsed(N(2), AtEof(s, 13))
  {
    assert PeekAfterSpacesSpec(At(s, 11)) == CharRead('2', At(s, 12));
    DigitOperand(At(s, 11));
  }

  /** The first branch "2" of "_if 1 _then 2", which ends the input. */
  lemma {:induction false} UnfinishedIfBranch(s: string)
    requires s == "_if 1 _then 2"
    ensures ParseExprSpec(At(s, 11)) == Parsed(N(2), Spent(s))
  {
    PastEnd(AtEof(s, 13));
    IfBranchOperand(s);
    OperandClimbs(At(s, 11));
  }

  /** What follows `_if` in "_if 1 _then 2": the `_else` is missing. */
  lemma {:induction false} UnfinishedIf(s: string)
    requires s == "_if 1 _then 2"
    ensures ParseIfSpec(At(s, 3)) == Thrown(MissingThen, Spent(s))
  {
    var e := Spent(s);
    assert PeekAfterSpacesSpec(At(s, 3)) == CharRead('1', At(s, 4));
    assert AlphabeticSpec(e, "_") == WordRead("_", e);
    PastEnd(AtEof(s, 13));
    ThenKeyword(s);
    UnfinishedIfCondition(s);
    UnfinishedIfBranch(s);
    IfForm(At(s, 3), At(s, 4), Parsed(N(1), At(s, 6)), Parsed(N(2), e), Thrown(MissingThen, e));
  }

  lemma {:induction false} IfKeyword(s: string)
    requires s == "_if 1 _then 2"
    ensures ParseKeywordSpec(At(s, 0)) == WordRead("_if", At(s, 3))
  {
    assert s[1..3] == "if";
    assert "_" + "if" == "_if";
    KeywordRead(At(s, 0), "if");
  }

  lemma {:induction false} UnfinishedIfThrows(s: string)
    requires s == "_if 1 _then 2"
    ensures ParseInnerSpec(At(s, 0)) == Thrown(MissingThen, Spent(s))
  {
    assert PeekAfterSpacesSpec(At(s, 0)) == CharRead('_', At(s, 0));
    IfKeyword(s);
    InnerOfKeyword(At(s, 0));
    UnfinishedIf(s);
  }

  /** "_if 1 _then 2": a missing `_else` is reported with the message for a missing `_then`. */
  lemma MissingElseKeyword()
    ensures ParseSpec("_if 1 _then 2") == Fail(MissingThen)
  {
    var s := "_if 1 _then 2";
    UnfinishedIfThrows(s);
    FailedInput(At(s, 0));
  }

  // ---------------------------------------------------------------- quirks

  lemma {:induction false} LoneEqualsOperand(s: string)
    requires s == "1 ="
    ensures ParseInnerSpec(At(s, 0)) == Parsed(N(1), At(s, 1))
  {
    assert PeekAfterSpacesSpec(At(s, 0)) == CharRead('1', At(s, 0));
    DigitOperand(At(s, 0));
  }

  lemma {:induction false} LoneEqualsExpr(s: string)
    requires s == "1 ="
    ensures ParseExprSpec(At(s, 0)) == Parsed(N(1), AtEof(s, 3))
  {
    assert PeekAfterSpacesSpec(At(s, 1)) == CharRead('=', At(s, 2));
    assert PeekAfterSpacesSpec(At(s, 2)) == CharRead('=', At(s, 2));
    assert ExtractCharSpec(At(s, 2)) == CharRead('=', At(s, 3));
    assert PeekAfterSpacesSpec(At(s, 3)) == CharRead(EOF, AtEof(s, 3));
    LoneEqualsOperand(s);
    MulticandOfInner(At(s, 0));
    AddendOfMulticand(At(s, 0));
    CompargOfAddend(At(s, 0));
    LoneEqualsIsDropped(At(s, 0));
  }

  /** "1 =": a lone `=` after an expression is consumed and dropped. */
  lemma LoneEquals()
    ensures ParseSpec("1 =") == Ok(N(1))
  {
    var s := "1 =";
    LoneEqualsExpr(s);
    PastEnd(AtEof(s, 3));
    StreamOfExpr(At(s, 0));
  }

  lemma {:induction false} LoneMinusRead(s: string)
    requires s == "-"
    ensures ParseInnerSpec(At(s, 0)) == Parsed(N(0), Spent(s))
  {
    assert PeekAfterSpacesSpec(At(s, 0)) == CharRead('-', At(s, 0));
    assert GetSpec(At(s, 0)) == CharRead('-', At(s, 1));
    assert ExtractIntSpec(At(s, 1)) == IntRead(0, Spent(s));
    InnerOfMinus(At(s, 0));
  }

  /** "-": a minus sign with no number after it is the number 0, read by a failed `>>`. */
  lemma LoneMinus()
    ensures ParseSpec("-") == Ok(N(0))
  {
    var s := "-";
    LoneMinusRead(s);
    WholeInput(At(s, 0), N(0), Spent(s));
  }

  /** "--2147483648", a minus sign before the printed least `int`: the inner `>>` reads the least `int`, and negating it overflows. */
  lemma {:induction false} NegatedLeastInt(s: string)
    requires s == "-" + Int32.ToString(MIN as int32)
    ensures ParseInnerSpec(At(s, 0)) == Overflow(Cursor(s, |s|, true, false))
  {
    assert s[0] == '-' && s[1] == '-';
    assert s[2..] == NatToDecimal(-MIN);
    assert PeekAfterSpacesSpec(At(s, 0)) == CharRead('-', At(s, 0));
    assert GetSpec(At(s, 0)) == CharRead('-', At(s, 1));
    ReadsNegativeDecimal(s, 1, -MIN);
    InnerOfMinus(At(s, 0));
  }

  /** "--2147483648" is undefined behaviour in the source: the result of `-INT_MIN`. */
  lemma DoubleMinusOverflows()
    ensures ParseSpec("-" + Int32.ToString(MIN as int32)) == Undefined
  {
    var s := "-" + Int32.ToString(MIN as int32);
    NegatedLeastInt(s);
    FailedInput(At(s, 0));
  }
}
