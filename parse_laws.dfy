/**
 * Laws of the grammar functions of `Parser`: whitespace, the end of the
 * stream, and how an operand climbs the precedence levels of `parse_expr`,
 * `parse_comparg`, `parse_addend` and `parse_multicand` when no operator of a
 * level follows it.
 */
module ParserLaws {

  import opened Int32
  import opened Syntax
  import opened Outcomes
  import opened Parser

  /** Two rounds of `peek_after_spaces` settle: another one sees the same character and changes nothing. */
  lemma PeekSettles(c: Cursor)
    requires Valid(c)
    ensures var p := PeekAfterSpacesSpec(c); var q := PeekAfterSpacesSpec(p.rest);
      q.ch == p.ch && PeekAfterSpacesSpec(q.rest) == q && (Good(p.rest) ==> q == p)
  {
    var p := PeekAfterSpacesSpec(c);
    if Good(p.rest) {
      assert PeekSpec(p.rest) == p;
    } else {
      var q := PeekAfterSpacesSpec(p.rest);
      assert q == CharRead(EOF, p.rest.(fail := true));
      assert PeekSpec(q.rest) == q;
    }
  }

  /** The state in which the repeated peeks of the levels above an operand leave the stream. */
  function Settled(c: Cursor): (d: Cursor)
    requires Valid(c)
    ensures Advances(c, d) && PeekAfterSpacesSpec(d) == CharRead(PeekAfterSpacesSpec(c).ch, d)
  {
    PeekSettles(c);
    PeekAfterSpacesSpec(PeekAfterSpacesSpec(c).rest).rest
  }

  /** Once a read has failed or hit the end, every peek fails and sees the end marker, and the state stays put. */
  lemma PastEnd(c: Cursor)
    requires Valid(c) && !Good(c)
    ensures var d := c.(fail := true);
      PeekAfterSpacesSpec(c) == CharRead(EOF, d) && PeekAfterSpacesSpec(d) == CharRead(EOF, d) && Settled(c) == d
  {
  }

  /** No operator of any level, and no argument, starts with `ch`. */
  predicate Ends(ch: char)
  {
    ch != '(' && ch != '*' && ch != '+' && ch != '='
  }

  /** A failure, or `e` combined by `op` with the tree of a success. */
  function Combine(op: char, e: Expr, r: Parsed): Parsed
  {
    if !r.Parsed? then r
    else if op == '*' then Parsed(MultExpr(e, r.tree), r.rest)
    else if op == '+' then Parsed(AddExpr(e, r.tree), r.rest)
    else Parsed(CompareExpr(e, r.tree), r.rest)
  }

  /** `parse_multicand`: an inner expression not followed by `(` is the whole multiplicand; an error is passed on. */
  lemma MulticandOfInner(c: Cursor)
    requires Valid(c)
    ensures var i := ParseInnerSpec(c);
      (!i.Parsed? ==> ParseMulticandSpec(c) == i)
      && (i.Parsed? && PeekAfterSpacesSpec(i.rest).ch != '(' ==>
            ParseMulticandSpec(c) == Parsed(i.tree, PeekAfterSpacesSpec(i.rest).rest))
  {
  }

  /** `parse_addend`: a multiplicand followed by `*` takes an addend as right operand; otherwise it is the addend. */
  lemma AddendOfMulticand(c: Cursor)
    requires Valid(c)
    ensures var m := ParseMulticandSpec(c);
      (!m.Parsed? ==> ParseAddendSpec(c) == m)
      && (m.Parsed? && PeekAfterSpacesSpec(m.rest).ch != '*' ==>
            ParseAddendSpec(c) == Parsed(m.tree, PeekAfterSpacesSpec(m.rest).rest))
      && (m.Parsed? && PeekAfterSpacesSpec(m.rest).ch == '*' ==>
            ParseAddendSpec(c) == Combine('*', m.tree, ParseAddendSpec(GetSpec(PeekAfterSpacesSpec(m.rest).rest).rest)))
  {
  }

  /** `parse_comparg`: an addend followed by `+` takes a comparison operand as right operand; otherwise it is the operand. */
  lemma CompargOfAddend(c: Cursor)
    requires Valid(c)
    ensures var a := ParseAddendSpec(c);
      (!a.Parsed? ==> ParseCompargSpec(c) == a)
      && (a.Parsed? && PeekAfterSpacesSpec(a.rest).ch != '+' ==>
            ParseCompargSpec(c) == Parsed(a.tree, PeekAfterSpacesSpec(a.rest).rest))
      && (a.Parsed? && PeekAfterSpacesSpec(a.rest).ch == '+' ==>
            ParseCompargSpec(c) == Combine('+', a.tree, ParseCompargSpec(ExtractCharSpec(PeekAfterSpacesSpec(a.rest).rest).rest)))
  {
  }

  /**
   * `parse_expr`: an operand followed by `==` takes an expression as right
   * operand; an operand followed by anything but `=` is the expression.
   */
  lemma ExprOfComparg(c: Cursor)
    requires Valid(c)
    ensures var a := ParseCompargSpec(c);
      (!a.Parsed? ==> ParseExprSpec(c) == a)
      && (a.Parsed? && PeekAfterSpacesSpec(a.rest).ch != '=' ==>
            ParseExprSpec(c) == Parsed(a.tree, PeekAfterSpacesSpec(a.rest).rest))
  {
  }

  /**
   * The quirk of `parse_expr`: an `=` not followed by a second `=` is consumed
   * and dropped, and the operand before it is the whole expression.
   */
  lemma LoneEqualsIsDropped(c: Cursor)
    requires Valid(c)
    ensures var a := ParseCompargSpec(c);
      a.Parsed? && PeekAfterSpacesSpec(a.rest).ch == '=' ==>
        var q := PeekAfterSpacesSpec(ExtractCharSpec(PeekAfterSpacesSpec(a.rest).rest).rest);
        (q.ch != '=' ==> ParseExprSpec(c) == Parsed(a.tree, q.rest))
        && (q.ch == '=' ==> ParseExprSpec(c) == Combine('=', a.tree, ParseExprSpec(ExtractCharSpec(q.rest).rest)))
  {
  }

  /** `parse_inner` on a digit: `parse_number`, which reads the number with `>>`. */
  lemma InnerOfNumber(c: Cursor)
    requires Valid(c)
    ensures var p := PeekAfterSpacesSpec(c);
      IsDigit(p.ch) ==>
        var n := ExtractIntSpec(p.rest);
        ParseInnerSpec(c) == Parsed(NumExpr(n.num), n.rest)
  {
  }

  /**
   * A number that `parse_inner` reads at a digit: the value of the run of
   * digits there, when it fits, with the stream after the run.
   */
  lemma {:induction false} NumberOperand(c: Cursor)
    requires Valid(c)
    ensures var p := PeekAfterSpacesSpec(c);
      IsDigit(p.ch) ==>
        var s := p.rest.data;
        var q := DigitRunEnd(s, p.rest.pos);
        var m := Accumulate(s, p.rest.pos, 0);
        m <= MAX ==> ParseInnerSpec(c) == Parsed(NumExpr(m as int32), p.rest.(pos := q, eof := q == |s|))
  {
    var p := PeekAfterSpacesSpec(c);
    if IsDigit(p.ch) {
      InnerOfNumber(c);
      assert SkipSpaces(p.rest.data, p.rest.pos) == p.rest.pos;
    }
  }

  /** A number of one digit: its value, with the stream after the digit. */
  lemma {:induction false} DigitOperand(c: Cursor)
    requires Valid(c)
    ensures var p := PeekAfterSpacesSpec(c);
      var q := p.rest.pos + 1;
      IsDigit(p.ch) && (q < |c.data| ==> !IsDigit(c.data[q])) ==>
        ParseInnerSpec(c) == Parsed(NumExpr((p.ch as int - '0' as int) as int32), p.rest.(pos := q, eof := q == |c.data|))
  {
    var p := PeekAfterSpacesSpec(c);
    var q := p.rest.pos + 1;
    if IsDigit(p.ch) && (q < |c.data| ==> !IsDigit(c.data[q])) {
      var s := c.data;
      var d := p.ch as int - '0' as int;
      assert DigitRunEnd(s, q) == q && Accumulate(s, q, d) == d;
      assert DigitRunEnd(s, q - 1) == q && Accumulate(s, q - 1, 0) == d;
      NumberOperand(c);
    }
  }

  /** `parse_inner` on `-`: `parse_negative_number`. */
  lemma InnerOfMinus(c: Cursor)
    requires Valid(c)
    ensures var p := PeekAfterSpacesSpec(c);
      p.ch == '-' ==> ParseInnerSpec(c) == ParseNegativeNumberSpec(p.rest)
  {
  }

  /** `parse_inner` on a letter: `parse_variable`, which reads the letters that follow. */
  lemma InnerOfVariable(c: Cursor)
    requires Valid(c)
    ensures var p := PeekAfterSpacesSpec(c);
      IsAlpha(p.ch) ==>
        var name := AlphabeticSpec(p.rest, "");
        ParseInnerSpec(c) == Parsed(VarExpr(name.word), name.rest)
  {
  }

  /**
   * `parse_inner` on `(`: the expression inside, which must be followed by
   * `)`, else "expected a close parenthesis".
   */
  lemma InnerOfParenthesis(c: Cursor)
    requires Valid(c)
    ensures var p := PeekAfterSpacesSpec(c);
      p.ch == '(' ==>
        var e := ParseExprSpec(GetSpec(p.rest).rest);
        (!e.Parsed? ==> ParseInnerSpec(c) == e)
        && (e.Parsed? && PeekAfterSpacesSpec(e.rest).ch == ')' ==>
              ParseInnerSpec(c) == Parsed(e.tree, GetSpec(PeekAfterSpacesSpec(e.rest).rest).rest))
        && (e.Parsed? && PeekAfterSpacesSpec(e.rest).ch != ')' ==>
              ParseInnerSpec(c) == Thrown("expected a close parenthesis", PeekAfterSpacesSpec(e.rest).rest))
  {
  }

  /** Whether `w` is all letters. */
  predicate AllLetters(w: string)
  {
    w == [] || (IsAlpha(w[0]) && AllLetters(w[1..]))
  }

  /** `parse_alphabetic` over the letters `w` and then no letter: `prefix` and `w`, with the stream after them. */
  lemma {:induction false} LettersRead(c: Cursor, prefix: string, w: string)
    requires Valid(c) && Good(c) && c.pos + |w| <= |c.data|
    requires c.data[c.pos..c.pos + |w|] == w && AllLetters(w)
    requires c.pos + |w| < |c.data| ==> !IsAlpha(c.data[c.pos + |w|])
    ensures AlphabeticSpec(c, prefix) == WordRead(prefix + w, c.(pos := c.pos + |w|, eof := c.pos + |w| == |c.data|))
    decreases |w|
  {
    if w != [] {
      assert c.data[c.pos] == w[0];
      assert c.data[c.pos + 1..c.pos + |w|] == w[1..];
      LettersRead(c.(pos := c.pos + 1), prefix + [w[0]], w[1..]);
      assert prefix + [w[0]] + w[1..] == prefix + w;
    }
  }

  /** `parse_keyword` over `_` and the letters `w`, then no letter: the keyword `_w`, with the stream after it. */
  lemma {:induction false} KeywordRead(c: Cursor, w: string)
    requires Valid(c) && Good(c) && c.pos + |w| < |c.data| && c.data[c.pos] == '_'
    requires c.data[c.pos + 1..c.pos + 1 + |w|] == w && AllLetters(w)
    requires c.pos + 1 + |w| < |c.data| ==> !IsAlpha(c.data[c.pos + 1 + |w|])
    ensures ParseKeywordSpec(c) == WordRead("_" + w, c.(pos := c.pos + 1 + |w|, eof := c.pos + 1 + |w| == |c.data|))
  {
    var d := c.(pos := c.pos + 1);
    assert GetSpec(c).rest == d;
    LettersRead(d, "_", w);
  }

  /** `parse_inner` on `_`: the keyword read by `parse_keyword` chooses the form; an unknown one is an error. */
  lemma InnerOfKeyword(c: Cursor)
    requires Valid(c)
    ensures var p := PeekAfterSpacesSpec(c);
      p.ch == '_' ==>
        var k := ParseKeywordSpec(p.rest);
        ParseInnerSpec(c) ==
          if k.word == "_true" then Parsed(BoolExpr(true), k.rest)
          else if k.word == "_false" then Parsed(BoolExpr(false), k.rest)
          else if k.word == "_let" then ParseLetSpec(k.rest)
          else if k.word == "_if" then ParseIfSpec(k.rest)
          else if k.word == "_fun" then ParseFunSpec(k.rest)
          else Thrown("unexpected keyword " + k.word, k.rest)
  {
  }

  /**
   * `parse_let` in terms of its parts: the name read after the keyword, one
   * character consumed where `=` belongs, the right-hand side from `start`,
   * and what `_in` and the body give.
   */
  lemma LetForm(c: Cursor, name: WordRead, start: Cursor, rhs: Parsed, body: Parsed)
    requires Valid(c) && AlphabeticSpec(PeekAfterSpacesSpec(c).rest, "") == name
    requires GetSpec(PeekAfterSpacesSpec(name.rest).rest).rest == start
    requires ParseExprSpec(start) == rhs && rhs.Parsed?
    requires AfterKeywordSpec(rhs.rest, "_in", MissingIn) == body
    ensures ParseLetSpec(c) == if body.Parsed? then Parsed(LetExpr(name.word, rhs.tree, body.tree), body.rest) else body
  {
  }

  /** `parse_if` in terms of its parts: the condition from `start`, and what `_then` and `_else` give. */
  lemma IfForm(c: Cursor, start: Cursor, condition: Parsed, thenPart: Parsed, elsePart: Parsed)
    requires Valid(c) && PeekAfterSpacesSpec(c).rest == start
    requires ParseExprSpec(start) == condition && condition.Parsed?
    requires AfterKeywordSpec(condition.rest, "_then", MissingThen) == thenPart
    requires thenPart.Parsed? ==> AfterKeywordSpec(thenPart.rest, "_else", MissingThen) == elsePart
    ensures ParseIfSpec(c) ==
      if !thenPart.Parsed? then thenPart
      else if !elsePart.Parsed? then elsePart
      else Parsed(IfExpr(condition.tree, thenPart.tree, elsePart.tree), elsePart.rest)
  {
  }

  /** `parse_fun` in terms of its parts: the expression from `start` naming the parameter, and the body from `bodyStart`. */
  lemma FunForm(c: Cursor, start: Cursor, formal: Parsed, bodyStart: Cursor, body: Parsed)
    requires Valid(c) && PeekAfterSpacesSpec(c).rest == start
    requires ParseExprSpec(start) == formal && formal.Parsed?
    requires PeekAfterSpacesSpec(formal.rest).rest == bodyStart
    requires ParseExprSpec(bodyStart) == body && body.Parsed?
    ensures ParseFunSpec(c) == Parsed(FunExpr(Exprs.ToString(formal.tree), body.tree), body.rest)
  {
  }

  /** `parse_inner` on anything else: "expected a digit or open parenthesis at" that character. */
  lemma InnerOfOther(c: Cursor)
    requires Valid(c)
    ensures var p := PeekAfterSpacesSpec(c);
      p.ch != '(' && p.ch != '-' && !IsDigit(p.ch) && !IsAlpha(p.ch) && p.ch != '_' ==>
        ParseInnerSpec(c) == Thrown("expected a digit or open parenthesis at " + [p.ch], p.rest)
  {
  }

  /** A parenthesised operand followed by `)` is the operand, with the `)` consumed. */
  lemma {:induction false} ParenthesisedOperand(c: Cursor)
    requires Valid(c)
    ensures var p := PeekAfterSpacesSpec(c);
      p.ch == '(' ==>
        var i := ParseInnerSpec(GetSpec(p.rest).rest);
        i.Parsed? && PeekAfterSpacesSpec(i.rest).ch == ')' ==>
          ParseInnerSpec(c) == Parsed(i.tree, GetSpec(Settled(i.rest)).rest)
  {
    var p := PeekAfterSpacesSpec(c);
    if p.ch == '(' {
      var i := ParseInnerSpec(GetSpec(p.rest).rest);
      if i.Parsed? && PeekAfterSpacesSpec(i.rest).ch == ')' {
        OperandClimbs(GetSpec(p.rest).rest);
        InnerOfParenthesis(c);
      }
    }
  }

  /** The loop of `parse_multicand`: each `(` that shows applies the tree so far to the next inner expression. */
  lemma CallsOfInner(e: Expr, c: Cursor)
    requires Valid(c)
    ensures var p := PeekAfterSpacesSpec(c);
      (p.ch != '(' ==> CallsSpec(e, c) == Parsed(e, p.rest))
      && (p.ch == '(' ==>
            var arg := ParseInnerSpec(p.rest);
            (!arg.Parsed? ==> CallsSpec(e, c) == arg)
            && (arg.Parsed? ==> CallsSpec(e, c) == CallsSpec(CallExpr(e, arg.tree), arg.rest)))
  {
  }

  /**
   * A multiplicand followed by nothing that continues it is the whole
   * expression at every level above it.
   */
  lemma {:induction false} MulticandClimbs(c: Cursor)
    requires Valid(c)
    ensures var m := ParseMulticandSpec(c);
      m.Parsed? && Ends(PeekAfterSpacesSpec(m.rest).ch) ==>
        var r := Parsed(m.tree, Settled(m.rest));
        ParseAddendSpec(c) == Parsed(m.tree, PeekAfterSpacesSpec(m.rest).rest)
        && ParseCompargSpec(c) == r && ParseExprSpec(c) == r
  {
    var m := ParseMulticandSpec(c);
    if m.Parsed? && Ends(PeekAfterSpacesSpec(m.rest).ch) {
      var p := PeekAfterSpacesSpec(m.rest);
      var q := PeekAfterSpacesSpec(p.rest);
      PeekSettles(m.rest);
      AddendOfMulticand(c);
      assert ParseAddendSpec(c) == Parsed(m.tree, p.rest);
      CompargOfAddend(c);
      assert ParseCompargSpec(c) == Parsed(m.tree, q.rest);
      ExprOfComparg(c);
    }
  }

  /**
   * An inner expression followed by nothing that continues it is the whole
   * expression at every level; an error of the inner expression is the error
   * of every level.
   */
  lemma {:induction false} OperandClimbs(c: Cursor)
    requires Valid(c)
    ensures var i := ParseInnerSpec(c);
      (!i.Parsed? ==> ParseExprSpec(c) == i && ParseCompargSpec(c) == i)
      && (i.Parsed? && Ends(PeekAfterSpacesSpec(i.rest).ch) ==>
            var r := Parsed(i.tree, Settled(i.rest));
            ParseAddendSpec(c) == r && ParseCompargSpec(c) == r && ParseExprSpec(c) == r)
  {
    var i := ParseInnerSpec(c);
    MulticandOfInner(c);
    if i.Parsed? && Ends(PeekAfterSpacesSpec(i.rest).ch) {
      PeekSettles(i.rest);
      MulticandClimbs(c);
    } else {
      AddendOfMulticand(c);
      CompargOfAddend(c);
      ExprOfComparg(c);
    }
  }

  /** `parse`: an expression followed by the end of the stream is the result; anything else visible is an error. */
  lemma StreamOfExpr(c: Cursor)
    requires Valid(c)
    ensures var e := ParseExprSpec(c);
      (!e.Parsed? ==> ParseStreamSpec(c) == Tree(e))
      && (e.Parsed? && PeekAfterSpacesSpec(e.rest).rest.eof ==> ParseStreamSpec(c) == Ok(e.tree))
      && (e.Parsed? && !PeekAfterSpacesSpec(e.rest).rest.eof ==>
            ParseStreamSpec(c) == Fail("expected end of file at " + [PeekAfterSpacesSpec(e.rest).ch]))
  {
  }

  // ---------------------------------------------------------------- whitespace

  /** `peek_after_spaces` from a good state gives what it gives after the whitespace there. */
  lemma {:induction false} PeekSkipsSpaces(c: Cursor)
    requires Valid(c) && Good(c)
    ensures PeekAfterSpacesSpec(c) == PeekAfterSpacesSpec(c.(pos := SkipSpaces(c.data, c.pos)))
    decreases |c.data| - c.pos
  {
    if c.pos < |c.data| && IsSpace(c.data[c.pos]) {
      assert PeekAfterSpacesSpec(c) == PeekAfterSpacesSpec(c.(pos := c.pos + 1));
      PeekSkipsSpaces(c.(pos := c.pos + 1));
    }
  }

  /** `parse_inner` depends on the stream only through what `peek_after_spaces` does. */
  lemma InnerFollowsPeek(c: Cursor, d: Cursor)
    requires Valid(c) && Valid(d) && PeekAfterSpacesSpec(c) == PeekAfterSpacesSpec(d)
    ensures ParseInnerSpec(c) == ParseInnerSpec(d)
  {
  }

  /** `parse_multicand` depends on the stream only through what `parse_inner` does. */
  lemma MulticandFollowsInner(c: Cursor, d: Cursor)
    requires Valid(c) && Valid(d) && ParseInnerSpec(c) == ParseInnerSpec(d)
    ensures ParseMulticandSpec(c) == ParseMulticandSpec(d)
  {
  }

  /** `parse_addend` depends on the stream only through what `parse_multicand` does. */
  lemma AddendFollowsMulticand(c: Cursor, d: Cursor)
    requires Valid(c) && Valid(d) && ParseMulticandSpec(c) == ParseMulticandSpec(d)
    ensures ParseAddendSpec(c) == ParseAddendSpec(d)
  {
  }

  /** `parse_comparg` depends on the stream only through what `parse_addend` does. */
  lemma CompargFollowsAddend(c: Cursor, d: Cursor)
    requires Valid(c) && Valid(d) && ParseAddendSpec(c) == ParseAddendSpec(d)
    ensures ParseCompargSpec(c) == ParseCompargSpec(d)
  {
  }

  /** `parse_expr`, and so `parse`, depend on the stream only through what `parse_comparg` does. */
  lemma ExprFollowsComparg(c: Cursor, d: Cursor)
    requires Valid(c) && Valid(d) && ParseCompargSpec(c) == ParseCompargSpec(d)
    ensures ParseExprSpec(c) == ParseExprSpec(d) && ParseStreamSpec(c) == ParseStreamSpec(d)
  {
  }

  /**
   * Whitespace before an expression is ignored: `parse_inner`, every level
   * above it, and `parse` itself give from a good state exactly what they give
   * after the whitespace there.
   */
  lemma LeadingSpacesIgnored(c: Cursor)
    requires Valid(c) && Good(c)
    ensures var d := c.(pos := SkipSpaces(c.data, c.pos));
      ParseInnerSpec(c) == ParseInnerSpec(d) && ParseExprSpec(c) == ParseExprSpec(d)
      && ParseStreamSpec(c) == ParseStreamSpec(d)
  {
    var d := c.(pos := SkipSpaces(c.data, c.pos));
    PeekSkipsSpaces(c);
    InnerFollowsPeek(c, d);
    MulticandFollowsInner(c, d);
    AddendFollowsMulticand(c, d);
    CompargFollowsAddend(c, d);
    ExprFollowsComparg(c, d);
  }

  // ---------------------------------------------------------------- numbers

  /**
   * `>>` on the printed form of a natural number, up to the end of the
   * stream: the number, or the greatest `int` and `failbit` when it does not fit.
   */
  lemma ReadsDecimal(s: string, p: nat, n: nat)
    requires p < |s| && s[p..] == NatToDecimal(n)
    ensures ExtractIntSpec(Cursor(s, p, false, false))
         == IntRead(if n <= MAX then n as int32 else MAX as int32, Cursor(s, |s|, true, n > MAX))
  {
    AccumulateIsDigitsValue(s, p, p);
    assert s[p..p] == [];
    assert s[p..|s|] == s[p..];
    DecimalRoundTrip(n);
    assert SkipSpaces(s, p) == p;
    assert DigitRunEnd(s, p) == |s|;
  }

  /**
   * `>>` on a minus sign and the printed form of a natural number, up to the
   * end of the stream: its negation, or the least `int` and `failbit` when
   * that does not fit.
   */
  lemma ReadsNegativeDecimal(s: string, p: nat, n: nat)
    requires p + 1 < |s| && s[p] == '-' && s[p + 1..] == NatToDecimal(n)
    ensures ExtractIntSpec(Cursor(s, p, false, false))
         == IntRead(if n <= -MIN then (-(n as int)) as int32 else MIN as int32, Cursor(s, |s|, true, n > -MIN))
  {
    AccumulateIsDigitsValue(s, p + 1, p + 1);
    assert s[p + 1..p + 1] == [];
    assert s[p + 1..|s|] == s[p + 1..];
    DecimalRoundTrip(n);
    assert SkipSpaces(s, p) == p;
    assert DigitRunEnd(s, p + 1) == |s|;
  }

  /** An operand that throws, or overflows, is what `parse` reports. */
  lemma FailedInput(c: Cursor)
    requires Valid(c) && !ParseInnerSpec(c).Parsed?
    ensures ParseStreamSpec(c) == Tree(ParseInnerSpec(c))
  {
    OperandClimbs(c);
    StreamOfExpr(c);
  }

  /** An operand that ends where the stream ends is the whole of what `parse` reads. */
  lemma WholeInput(c: Cursor, e: Expr, end: Cursor)
    requires Valid(c) && ParseInnerSpec(c) == Parsed(e, end)
    requires end.pos == |end.data| && (end.eof || Good(end))
    ensures ParseStreamSpec(c) == Ok(e)
  {
    OperandClimbs(c);
    StreamOfExpr(c);
  }

  /**
   * `std::to_string` followed by `parse` gives back the number, except for the
   * least `int`: its digits are read as a positive `int`, which clamps one
   * short of it, so the negation gives the least `int` plus one.
   */
  lemma {:induction false} PrintedNumberParses(n: int32)
    ensures n as int != MIN ==> ParseSpec(Int32.ToString(n)) == Ok(NumExpr(n))
    ensures n as int == MIN ==> ParseSpec(Int32.ToString(n)) == Ok(NumExpr((MIN + 1) as int32))
  {
    var s := Int32.ToString(n);
    var c := Start(s);
    ToStringRoundTrip(n);
    assert PeekAfterSpacesSpec(c) == CharRead(s[0], c);
    if n < 0 {
      ReadsDecimal(s, 1, -(n as int));
      var m: int32 := if n as int == MIN then (MIN + 1) as int32 else n;
      assert ParseInnerSpec(c) == Parsed(NumExpr(m), Cursor(s, |s|, true, n as int == MIN));
      WholeInput(c, NumExpr(m), Cursor(s, |s|, true, n as int == MIN));
    } else {
      ReadsDecimal(s, 0, n as int);
      assert ParseInnerSpec(c) == Parsed(NumExpr(n), Cursor(s, |s|, true, false));
      WholeInput(c, NumExpr(n), Cursor(s, |s|, true, false));
    }
  }

  /** A literal beyond `int` parses as the greatest `int`: `>>` clamps it and `parse` does not look at `failbit`. */
  lemma {:induction false} OversizedLiteralClamps(n: nat)
    requires n > MAX
    ensures ParseSpec(NatToDecimal(n)) == Ok(NumExpr(MAX as int32))
  {
    var s := NatToDecimal(n);
    var c := Start(s);
    assert s[0..] == s;
    ReadsDecimal(s, 0, n);
    assert PeekAfterSpacesSpec(c) == CharRead(s[0], c);
    assert ParseInnerSpec(c) == Parsed(NumExpr(MAX as int32), Cursor(s, |s|, true, true));
    WholeInput(c, NumExpr(MAX as int32), Cursor(s, |s|, true, true));
  }
}
