/**
 * parse.cpp: the recursive-descent parser over a `std::istream`.
 *
 * The stream is modelled as its characters, a read position and the two
 * state bits the parser can observe, `eofbit` and `failbit`; its operations
 * behave as the C++ library specifies them: `peek` and `get` return the end
 * marker once the stream is not good, and `>>` skips whitespace first.
 * Every parsing function is specified by a function from the stream state
 * before to the parsed tree and the state after (or to the exception it
 * throws), and implemented by a method on the `Stream` object that follows
 * the source statement by statement.
 */
module Parser {

  import opened Int32
  import opened Syntax
  import opened Outcomes
  import Exprs

  // ---------------------------------------------------------------- characters

  /** `(char) EOF`: what `char c = in.peek()` holds at the end of the stream. */
  const EOF: char := 'ÿ'

  /** `isspace` in the C locale. */
  predicate IsSpace(ch: char)
  {
    ch == ' ' || ch == '\t' || ch == '\n' || ch == '\U{000B}' || ch == '\U{000C}' || ch == '\r'
  }

  /** `isalpha` in the C locale. */
  predicate IsAlpha(ch: char)
  {
    'a' <= ch <= 'z' || 'A' <= ch <= 'Z'
  }

  // ---------------------------------------------------------------- stream states

  /** The observable state of an input stream over `data`. */
  datatype Cursor = Cursor(data: string, pos: nat, eof: bool, fail: bool)

  /** A fresh `std::istringstream` over `s`. */
  function Start(s: string): Cursor
  {
    Cursor(s, 0, false, false)
  }

  predicate Valid(c: Cursor)
  {
    c.pos <= |c.data|
  }

  /** `std::ios::good()`. */
  predicate Good(c: Cursor)
  {
    !c.eof && !c.fail
  }

  /** `d` is a later state of the same stream as `c`. */
  predicate Advances(c: Cursor, d: Cursor)
  {
    d.data == c.data && c.pos <= d.pos <= |c.data|
  }

  /** A character read from the stream, with the state after it. */
  datatype CharRead = CharRead(ch: char, rest: Cursor)

  /** A word read from the stream, with the state after it. */
  datatype WordRead = WordRead(word: string, rest: Cursor)

  /** A number read from the stream, with the state after it. */
  datatype IntRead = IntRead(num: int32, rest: Cursor)

  /**
   * What a parsing function does: returns a tree, throws
   * `runtime_error(msg)`, or reaches behaviour C++ leaves undefined (a signed
   * overflow); each leaves the stream in state `rest`.
   */
  datatype Parsed = Parsed(tree: Expr, rest: Cursor) | Thrown(msg: string, rest: Cursor) | Overflow(rest: Cursor)
  {
    predicate IsFailure() { !Parsed? }

    function PropagateFailure(): Parsed
      requires !Parsed?
    {
      this
    }

    function Extract(): Parsed
      requires Parsed?
    {
      this
    }
  }

  /** What `peek` shows on `c`: the character at the read position of a good stream; the end marker otherwise. */
  predicate Sees(ch: char, c: Cursor)
  {
    if Good(c) then c.pos < |c.data| && c.data[c.pos] == ch else ch == EOF
  }

  /** `istream::peek`: the next character, not consumed; `eofbit` at the end, `failbit` once not good. */
  function PeekSpec(c: Cursor): (r: CharRead)
    requires Valid(c)
    ensures Advances(c, r.rest) && r.rest.pos == c.pos && Sees(r.ch, r.rest)
    ensures r.ch != EOF ==> r.rest == c
  {
    if !Good(c) then CharRead(EOF, c.(fail := true))
    else if c.pos == |c.data| then CharRead(EOF, c.(eof := true))
    else CharRead(c.data[c.pos], c)
  }

  /** `istream::get`: the next character, consumed; at the end `eofbit` and `failbit` and the end marker. */
  function GetSpec(c: Cursor): (r: CharRead)
    requires Valid(c)
    ensures Advances(c, r.rest)
    ensures Good(c) && c.pos < |c.data| ==> r == CharRead(c.data[c.pos], c.(pos := c.pos + 1))
    ensures !(Good(c) && c.pos < |c.data|) ==> r.ch == EOF && r.rest.pos == c.pos && r.rest.fail
  {
    if !Good(c) then CharRead(EOF, c.(fail := true))
    else if c.pos == |c.data| then CharRead(EOF, c.(eof := true, fail := true))
    else CharRead(c.data[c.pos], c.(pos := c.pos + 1))
  }

  /** The first position at or after `p` that does not hold whitespace. */
  function SkipSpaces(s: string, p: nat): (q: nat)
    requires p <= |s|
    ensures p <= q <= |s| && (q < |s| ==> !IsSpace(s[q]))
    ensures forall i :: p <= i < q ==> IsSpace(s[i])
    decreases |s| - p
  {
    if p < |s| && IsSpace(s[p]) then SkipSpaces(s, p + 1) else p
  }

  /** The end of the run of decimal digits that starts at `p`. */
  function DigitRunEnd(s: string, p: nat): (q: nat)
    requires p <= |s|
    ensures p <= q <= |s| && (q < |s| ==> !IsDigit(s[q]))
    ensures AllDigits(s[p..q])
    decreases |s| - p
  {
    if p < |s| && IsDigit(s[p]) then
      var q := DigitRunEnd(s, p + 1);
      assert s[p..q] == [s[p]] + s[p + 1..q];
      q
    else p
  }

  /** The value of the digits from `p` up to the end of their run, accumulated onto `acc` as `num_get` does. */
  function Accumulate(s: string, p: nat, acc: nat): (r: nat)
    requires p <= |s|
    ensures r >= acc
    decreases |s| - p
  {
    if p < |s| && IsDigit(s[p]) then Accumulate(s, p + 1, acc * 10 + (s[p] as int - '0' as int)) else acc
  }

  /** Accumulating a run of digits computes the value of its decimal text. */
  lemma {:induction false} AccumulateIsDigitsValue(s: string, start: nat, p: nat)
    requires start <= p <= |s| && AllDigits(s[start..p])
    ensures var q := DigitRunEnd(s, p);
      AllDigits(s[start..q]) && Accumulate(s, p, DigitsValue(s[start..p])) == DigitsValue(s[start..q])
    decreases |s| - p
  {
    if p < |s| && IsDigit(s[p]) {
      var next := s[start..p + 1];
      assert next[..|next| - 1] == s[start..p];
      assert AllDigits(next);
      AccumulateIsDigitsValue(s, start, p + 1);
    }
  }

  /** `in >> c` for a `char`: whitespace skipped, then one character consumed. */
  function ExtractCharSpec(c: Cursor): (r: CharRead)
    requires Valid(c)
    ensures Advances(c, r.rest)
    ensures Good(c) && c.pos < |c.data| && !IsSpace(c.data[c.pos]) ==> r == CharRead(c.data[c.pos], c.(pos := c.pos + 1))
  {
    if !Good(c) then CharRead(EOF, c.(fail := true))
    else
      var q := SkipSpaces(c.data, c.pos);
      if q == |c.data| then CharRead(EOF, c.(pos := q, eof := true, fail := true))
      else CharRead(c.data[q], c.(pos := q + 1))
  }

  /**
   * `in >> num` for an `int` initialised to 0: whitespace, an optional sign,
   * then decimal digits. No digits: 0 and `failbit`. A value beyond `int`:
   * the nearest bound and `failbit`. `eofbit` when the scan reached the end.
   * A stream that is not good leaves the 0.
   */
  function ExtractIntSpec(c: Cursor): (r: IntRead)
    requires Valid(c)
    ensures Advances(c, r.rest)
  {
    if !Good(c) then IntRead(0, c.(fail := true))
    else
      var q := SkipSpaces(c.data, c.pos);
      if q == |c.data| then IntRead(0, c.(pos := q, eof := true, fail := true))
      else
        var negative := c.data[q] == '-';
        var start := if c.data[q] == '-' || c.data[q] == '+' then q + 1 else q;
        var end := DigitRunEnd(c.data, start);
        var magnitude := Accumulate(c.data, start, 0);
        IntRead(Convert(negative, magnitude, end == start),
             c.(pos := end, eof := end == |c.data|, fail := end == start || Clamps(negative, magnitude)))
  }

  // ---------------------------------------------------------------- the grammar

  /** `peek_after_spaces`: `peek`, consuming whitespace with `get` until something else shows. */
  function PeekAfterSpacesSpec(c: Cursor): (r: CharRead)
    requires Valid(c)
    ensures Advances(c, r.rest) && Sees(r.ch, r.rest) && !IsSpace(r.ch)
    decreases |c.data| - c.pos
  {
    var p := PeekSpec(c);
    if !IsSpace(p.ch) then p
    else PeekAfterSpacesSpec(GetSpec(p.rest).rest)
  }

  /** `parse_alphabetic`: `prefix` followed by the letters that come next. */
  function AlphabeticSpec(c: Cursor, prefix: string): (r: WordRead)
    requires Valid(c)
    ensures Advances(c, r.rest)
    decreases |c.data| - c.pos
  {
    var p := PeekSpec(c);
    if !IsAlpha(p.ch) then WordRead(prefix, p.rest)
    else
      var g := GetSpec(p.rest);
      AlphabeticSpec(g.rest, prefix + [g.ch])
  }

  /** What a caller of a parsing function sees: the tree, or the exception. */
  function Tree(r: Parsed): Result<Expr>
  {
    match r
    case Parsed(tree, _) => Ok(tree)
    case Thrown(msg, _) => Fail(msg)
    case Overflow(_) => Undefined
  }

  /**
   * A parsing method ended in stream state `after` with result `r` as its
   * specification `spec` says: the same tree or exception, in the same state.
   */
  predicate Agrees(after: Cursor, r: Result<Expr>, spec: Parsed)
  {
    r == Tree(spec) && after == spec.rest
  }

  /** `parse`: an expression, then nothing but whitespace up to the end of the stream. */
  function ParseStreamSpec(c: Cursor): (r: Result<Expr>)
    requires Valid(c)
  {
    var e := ParseExprSpec(c);
    if !e.Parsed? then Tree(e)
    else
      var p := PeekAfterSpacesSpec(e.rest);
      if !p.rest.eof then Fail("expected end of file at " + [p.ch])
      else Ok(e.tree)
  }

  /** `parse` on a fresh stream over `s`. */
  function ParseSpec(s: string): Result<Expr>
  {
    ParseStreamSpec(Start(s))
  }

  /** `parse_expr`: a comparison operand, optionally `==` and an expression; a lone `=` is consumed and dropped. */
  function ParseExprSpec(c: Cursor): (r: Parsed)
    requires Valid(c)
    ensures Advances(c, r.rest)
    decreases |c.data| - c.pos, 6
  {
    var lhs :- ParseCompargSpec(c);
    var p := PeekAfterSpacesSpec(lhs.rest);
    if p.ch != '=' then Parsed(lhs.tree, p.rest)
    else
      var c1 := ExtractCharSpec(p.rest).rest;
      var q := PeekAfterSpacesSpec(c1);
      if q.ch != '=' then Parsed(lhs.tree, q.rest)
      else
        var c2 := ExtractCharSpec(q.rest).rest;
        var rhs :- ParseExprSpec(c2);
        Parsed(CompareExpr(lhs.tree, rhs.tree), rhs.rest)
  }

  /** `parse_comparg`: an addend, optionally `+` and a comparison operand (so `+` groups to the right). */
  function ParseCompargSpec(c: Cursor): (r: Parsed)
    requires Valid(c)
    ensures Advances(c, r.rest)
    decreases |c.data| - c.pos, 5
  {
    var lhs :- ParseAddendSpec(c);
    var p := PeekAfterSpacesSpec(lhs.rest);
    if p.ch != '+' then Parsed(lhs.tree, p.rest)
    else
      var rhs :- ParseCompargSpec(ExtractCharSpec(p.rest).rest);
      Parsed(AddExpr(lhs.tree, rhs.tree), rhs.rest)
  }

  /** `parse_addend`: a multiplicand, optionally `*` and an addend (so `*` groups to the right). */
  function ParseAddendSpec(c: Cursor): (r: Parsed)
    requires Valid(c)
    ensures Advances(c, r.rest)
    decreases |c.data| - c.pos, 4
  {
    var lhs :- ParseMulticandSpec(c);
    var p := PeekAfterSpacesSpec(lhs.rest);
    if p.ch != '*' then Parsed(lhs.tree, p.rest)
    else
      var rhs :- ParseAddendSpec(GetSpec(p.rest).rest);
      Parsed(MultExpr(lhs.tree, rhs.tree), rhs.rest)
  }

  /** `parse_multicand`: an inner expression applied to every parenthesised argument that follows. */
  function ParseMulticandSpec(c: Cursor): (r: Parsed)
    requires Valid(c)
    ensures Advances(c, r.rest)
    decreases |c.data| - c.pos, 3
  {
    var callee :- ParseInnerSpec(c);
    CallsSpec(callee.tree, callee.rest)
  }

  /** The loop of `parse_multicand`: while the next character is `(`, call `e` on the next inner expression. */
  function CallsSpec(e: Expr, c: Cursor): (r: Parsed)
    requires Valid(c)
    ensures Advances(c, r.rest)
    decreases |c.data| - c.pos, 2
  {
    var p := PeekAfterSpacesSpec(c);
    if p.ch != '(' then Parsed(e, p.rest)
    else
      var arg :- ParseInnerSpec(p.rest);
      CallsSpec(CallExpr(e, arg.tree), arg.rest)
  }

  /**
   * `parse_inner`: a parenthesised expression, a number, a variable or a
   * keyword form, chosen by the first character after whitespace. Whatever
   * it accepts, it has consumed at least one character.
   */
  function ParseInnerSpec(c: Cursor): (r: Parsed)
    requires Valid(c)
    ensures Advances(c, r.rest) && (r.Parsed? ==> r.rest.pos > c.pos)
    decreases |c.data| - c.pos, 1
  {
    var p := PeekAfterSpacesSpec(c);
    if p.ch == '(' then
      var e :- ParseExprSpec(GetSpec(p.rest).rest);
      var q := PeekAfterSpacesSpec(e.rest);
      if q.ch == ')' then Parsed(e.tree, GetSpec(q.rest).rest)
      else Thrown("expected a close parenthesis", q.rest)
    else if p.ch == '-' then ParseNegativeNumberSpec(p.rest)
    else if IsDigit(p.ch) then ParseNumberSpec(p.rest)
    else if IsAlpha(p.ch) then ParseVariableSpec(p.rest)
    else if p.ch == '_' then
      var keyword := ParseKeywordSpec(p.rest);
      if keyword.word == "_true" then Parsed(BoolExpr(true), keyword.rest)
      else if keyword.word == "_false" then Parsed(BoolExpr(false), keyword.rest)
      else if keyword.word == "_let" then ParseLetSpec(keyword.rest)
      else if keyword.word == "_if" then ParseIfSpec(keyword.rest)
      else if keyword.word == "_fun" then ParseFunSpec(keyword.rest)
      else Thrown("unexpected keyword " + keyword.word, keyword.rest)
    else Thrown("expected a digit or open parenthesis at " + [p.ch], p.rest)
  }

  /** `parse_number`: `in >> num` on a stream that shows a digit. */
  function ParseNumberSpec(c: Cursor): (r: Parsed)
    requires Valid(c) && Good(c) && c.pos < |c.data| && IsDigit(c.data[c.pos])
    ensures r.Parsed? && Advances(c, r.rest) && r.rest.pos > c.pos && r.tree.NumExpr?
  {
    var n := ExtractIntSpec(c);
    Parsed(NumExpr(n.num), n.rest)
  }

  /** `parse_negative_number`: the `-` consumed, `in >> num`, then `-num`, which overflows for the least `int`. */
  function ParseNegativeNumberSpec(c: Cursor): (r: Parsed)
    requires Valid(c) && Good(c) && c.pos < |c.data| && c.data[c.pos] == '-'
    ensures Advances(c, r.rest) && (r.Parsed? ==> r.rest.pos > c.pos && r.tree.NumExpr?)
  {
    var n := ExtractIntSpec(GetSpec(c).rest);
    if n.num as int == MIN then Overflow(n.rest)
    else Parsed(NumExpr(-n.num), n.rest)
  }

  /** `parse_variable`: the letters that come next. */
  function ParseVariableSpec(c: Cursor): (r: Parsed)
    requires Valid(c) && Good(c) && c.pos < |c.data| && IsAlpha(c.data[c.pos])
    ensures r.Parsed? && Advances(c, r.rest) && r.rest.pos > c.pos
    ensures r.tree.VarExpr?
  {
    var name := AlphabeticSpec(c, "");
    Parsed(VarExpr(name.word), name.rest)
  }

  /** `parse_keyword`: the `_` consumed, then `_` followed by the letters that come next. */
  function ParseKeywordSpec(c: Cursor): (r: WordRead)
    requires Valid(c) && Good(c) && c.pos < |c.data|
    ensures Advances(c, r.rest) && r.rest.pos > c.pos
  {
    AlphabeticSpec(GetSpec(c).rest, "_")
  }

  /** `peek_after_spaces`, one `get`, then `parse_alphabetic` with prefix `_`: how a keyword inside a form is read. */
  function KeywordAfterSpacesSpec(c: Cursor): (r: WordRead)
    requires Valid(c)
    ensures Advances(c, r.rest)
  {
    AlphabeticSpec(GetSpec(PeekAfterSpacesSpec(c).rest).rest, "_")
  }

  /**
   * The step `parse_let` and `parse_if` repeat: skip whitespace, consume one
   * character, read `_` and the letters after it; unless that is `keyword`,
   * throw `message`, else parse an expression.
   */
  function AfterKeywordSpec(c: Cursor, keyword: string, message: string): (r: Parsed)
    requires Valid(c)
    ensures Advances(c, r.rest)
    decreases |c.data| - c.pos, 7
  {
    var word := KeywordAfterSpacesSpec(c);
    if word.word != keyword then Thrown(message, word.rest) else ParseExprSpec(word.rest)
  }

  /** What `parse_let` throws when `_in` is missing. */
  const MissingIn := "expect a _in in this expression "

  /** What `parse_if` throws when `_then`, or `_else`, is missing. */
  const MissingThen := "expect _then in this expression "

  /**
   * `parse_let`: a name, any one character where `=` belongs, the right-hand
   * side, then `_in` and the body.
   */
  function ParseLetSpec(c: Cursor): (r: Parsed)
    requires Valid(c)
    ensures Advances(c, r.rest)
    decreases |c.data| - c.pos, 9
  {
    var name := AlphabeticSpec(PeekAfterSpacesSpec(c).rest, "");
    var equals := GetSpec(PeekAfterSpacesSpec(name.rest).rest);
    BindingSpec(name.word, equals.rest)
  }

  /** The rest of `parse_let` after the `=`: the right-hand side, `_in`, the body. */
  function BindingSpec(name: string, c: Cursor): (r: Parsed)
    requires Valid(c)
    ensures Advances(c, r.rest)
    decreases |c.data| - c.pos, 8
  {
    var rhs :- ParseExprSpec(c);
    var body :- AfterKeywordSpec(rhs.rest, "_in", MissingIn);
    Parsed(LetExpr(name, rhs.tree, body.tree), body.rest)
  }

  /** `parse_if`: the condition, `_then` and a branch, `_else` and a branch; both misses report the `_then` message. */
  function ParseIfSpec(c: Cursor): (r: Parsed)
    requires Valid(c)
    ensures Advances(c, r.rest)
    decreases |c.data| - c.pos, 9
  {
    var condition :- ParseExprSpec(PeekAfterSpacesSpec(c).rest);
    BranchesSpec(condition.tree, condition.rest)
  }

  /** The rest of `parse_if` after the condition: `_then`, an expression, `_else`, an expression. */
  function BranchesSpec(condition: Expr, c: Cursor): (r: Parsed)
    requires Valid(c)
    ensures Advances(c, r.rest)
    decreases |c.data| - c.pos, 8
  {
    var thenPart :- AfterKeywordSpec(c, "_then", MissingThen);
    var elsePart :- AfterKeywordSpec(thenPart.rest, "_else", MissingThen);
    Parsed(IfExpr(condition, thenPart.tree, elsePart.tree), elsePart.rest)
  }

  /** `parse_fun`: an expression whose printed text becomes the parameter name, then the body. */
  function ParseFunSpec(c: Cursor): (r: Parsed)
    requires Valid(c)
    ensures Advances(c, r.rest)
    decreases |c.data| - c.pos, 8
  {
    var formalArg :- ParseExprSpec(PeekAfterSpacesSpec(c).rest);
    var body :- ParseExprSpec(PeekAfterSpacesSpec(formalArg.rest).rest);
    Parsed(FunExpr(Exprs.ToString(formalArg.tree), body.tree), body.rest)
  }

  // ---------------------------------------------------------------- the stream object

  /** The scan `>>` makes over leading whitespace. */
  method ScanSpaces(s: string, p: nat) returns (q: nat)
    requires p <= |s|
    ensures q == SkipSpaces(s, p)
  {
    q := p;
    while q < |s| && IsSpace(s[q])
      invariant p <= q <= |s| && SkipSpaces(s, q) == SkipSpaces(s, p)
      decreases |s| - q
    {
      q := q + 1;
    }
  }

  /** The scan `>>` makes over a run of digits, accumulating their value. */
  method ScanDigits(s: string, p: nat) returns (q: nat, magnitude: nat)
    requires p <= |s|
    ensures q == DigitRunEnd(s, p) && magnitude == Accumulate(s, p, 0)
  {
    q, magnitude := p, 0;
    while q < |s| && IsDigit(s[q])
      invariant p <= q <= |s|
      invariant DigitRunEnd(s, q) == DigitRunEnd(s, p)
      invariant Accumulate(s, q, magnitude) == Accumulate(s, p, 0)
      decreases |s| - q
    {
      magnitude := magnitude * 10 + (s[q] as int - '0' as int);
      q := q + 1;
    }
  }

  /** A `std::istringstream` as the parser uses it: characters, a read position, `eofbit` and `failbit`. */
  class Stream {
    var data: string
    var pos: nat
    var eofBit: bool
    var failBit: bool

    /** The state as the specification functions see it. */
    function State(): Cursor
      reads this
    {
      Cursor(data, pos, eofBit, failBit)
    }

    predicate Valid()
      reads this
    {
      pos <= |data|
    }

    /** `std::istringstream in(s)`. */
    constructor (s: string)
      ensures Valid() && State() == Start(s)
    {
      data, pos, eofBit, failBit := s, 0, false, false;
    }

    /** `in.peek()`, as a `char`. */
    method Peek() returns (ch: char)
      requires Valid()
      modifies this
      ensures Valid() && CharRead(ch, State()) == PeekSpec(old(State()))
    {
      if eofBit || failBit {
        failBit := true;
        return EOF;
      }
      if pos == |data| {
        eofBit := true;
        return EOF;
      }
      ch := data[pos];
    }

    /** `in.get()`, as a `char`. */
    method Get() returns (ch: char)
      requires Valid()
      modifies this
      ensures Valid() && CharRead(ch, State()) == GetSpec(old(State()))
    {
      if eofBit || failBit {
        failBit := true;
        return EOF;
      }
      if pos == |data| {
        eofBit, failBit := true, true;
        return EOF;
      }
      ch := data[pos];
      pos := pos + 1;
    }

    /** `in >> c` for a `char`. */
    method ExtractChar() returns (ch: char)
      requires Valid()
      modifies this
      ensures Valid() && CharRead(ch, State()) == ExtractCharSpec(old(State()))
    {
      if eofBit || failBit {
        failBit := true;
        return EOF;
      }
      var p := ScanSpaces(data, pos);
      if p == |data| {
        pos, eofBit, failBit := p, true, true;
        return EOF;
      }
      ch := data[p];
      pos := p + 1;
    }

    /** `in >> num` for an `int` variable holding 0. */
    method ExtractInt() returns (num: int32)
      requires Valid()
      modifies this
      ensures Valid() && IntRead(num, State()) == ExtractIntSpec(old(State()))
    {
      if eofBit || failBit {
        failBit := true;
        return 0;
      }
      var s := data;
      var p := ScanSpaces(s, pos);
      if p == |s| {
        pos, eofBit, failBit := p, true, true;
        return 0;
      }
      var negative := s[p] == '-';
      if s[p] == '-' || s[p] == '+' {
        p := p + 1;
      }
      var start := p;
      var magnitude;
      p, magnitude := ScanDigits(s, start);
      num := Convert(negative, magnitude, p == start);
      pos, eofBit, failBit := p, p == |s|, p == start || Clamps(negative, magnitude);
    }
  }

  /** The `int` that `>>` stores for a signed run of digits: 0 when there were none, the nearest bound when out of range. */
  function Convert(negative: bool, magnitude: nat, noDigits: bool): int32
  {
    var value: int := if negative then -(magnitude as int) else magnitude;
    if noDigits then 0
    else if value > MAX then MAX as int32
    else if value < MIN then MIN as int32
    else value as int32
  }

  /** Whether the signed value of the digits falls outside `int`. */
  predicate Clamps(negative: bool, magnitude: nat)
  {
    var value: int := if negative then -(magnitude as int) else magnitude;
    value > MAX || value < MIN
  }

  // ---------------------------------------------------------------- the parsing functions

  /** `peek_after_spaces`. */
  method PeekAfterSpaces(stream: Stream) returns (ch: char)
    requires stream.Valid()
    modifies stream
    ensures stream.Valid() && CharRead(ch, stream.State()) == PeekAfterSpacesSpec(old(stream.State()))
  {
    while true
      invariant stream.Valid() && stream.data == old(stream.data)
      invariant PeekAfterSpacesSpec(stream.State()) == PeekAfterSpacesSpec(old(stream.State()))
      decreases |stream.data| - stream.pos
    {
      ch := stream.Peek();
      if !IsSpace(ch) {
        break;
      }
      ch := stream.Get();
    }
  }

  /** `parse_alphabetic`. */
  method ParseAlphabetic(stream: Stream, prefix: string) returns (name: string)
    requires stream.Valid()
    modifies stream
    ensures stream.Valid() && WordRead(name, stream.State()) == AlphabeticSpec(old(stream.State()), prefix)
  {
    name := prefix;
    while true
      invariant stream.Valid() && stream.data == old(stream.data)
      invariant AlphabeticSpec(stream.State(), name) == AlphabeticSpec(old(stream.State()), prefix)
      decreases |stream.data| - stream.pos
    {
      var ch := stream.Peek();
      if !IsAlpha(ch) {
        break;
      }
      ch := stream.Get();
      name := name + [ch];
    }
  }

  /** `parse`. */
  method Parse(stream: Stream) returns (r: Result<Expr>)
    requires stream.Valid()
    modifies stream
    ensures stream.Valid() && stream.data == old(stream.data)
    ensures r == ParseStreamSpec(old(stream.State()))
  {
    var e :- ParseExpr(stream);
    var ch := PeekAfterSpaces(stream);
    if !stream.eofBit {
      return Fail("expected end of file at " + [ch]);
    }
    return Ok(e);
  }

  /** `parse_expr`. */
  method ParseExpr(stream: Stream) returns (r: Result<Expr>)
    requires stream.Valid()
    modifies stream
    ensures Agrees(stream.State(), r, ParseExprSpec(old(stream.State())))
    decreases |stream.data| - stream.pos, 6
  {
    var e :- ParseComparg(stream);
    var ch := PeekAfterSpaces(stream);
    if ch == '=' {
      ch := stream.ExtractChar();
      var ch1 := PeekAfterSpaces(stream);
      if ch1 == '=' {
        ch1 := stream.ExtractChar();
        var rhs :- ParseExpr(stream);
        e := CompareExpr(e, rhs);
      }
    }
    return Ok(e);
  }

  /** `parse_comparg`. */
  method ParseComparg(stream: Stream) returns (r: Result<Expr>)
    requires stream.Valid()
    modifies stream
    ensures Agrees(stream.State(), r, ParseCompargSpec(old(stream.State())))
    decreases |stream.data| - stream.pos, 5
  {
    var e :- ParseAddend(stream);
    var ch := PeekAfterSpaces(stream);
    if ch == '+' {
      ch := stream.ExtractChar();
      var rhs :- ParseComparg(stream);
      e := AddExpr(e, rhs);
    }
    return Ok(e);
  }

  /** `parse_addend`. */
  method ParseAddend(stream: Stream) returns (r: Result<Expr>)
    requires stream.Valid()
    modifies stream
    ensures Agrees(stream.State(), r, ParseAddendSpec(old(stream.State())))
    decreases |stream.data| - stream.pos, 4
  {
    var e :- ParseMulticand(stream);
    var ch := PeekAfterSpaces(stream);
    if ch == '*' {
      ch := stream.Get();
      var rhs :- ParseAddend(stream);
      e := MultExpr(e, rhs);
    }
    return Ok(e);
  }

  /** `parse_multicand`. */
  method ParseMulticand(stream: Stream) returns (r: Result<Expr>)
    requires stream.Valid()
    modifies stream
    ensures Agrees(stream.State(), r, ParseMulticandSpec(old(stream.State())))
    decreases |stream.data| - stream.pos, 3
  {
    var e :- ParseInner(stream);
    while true
      invariant stream.Valid() && stream.data == old(stream.data) && old(stream.pos) <= stream.pos
      invariant CallsSpec(e, stream.State()) == ParseMulticandSpec(old(stream.State()))
      decreases |stream.data| - stream.pos
    {
      var ch := PeekAfterSpaces(stream);
      if ch != '(' {
        break;
      }
      var rhs :- ParseInner(stream);
      e := CallExpr(e, rhs);
    }
    return Ok(e);
  }

  /** `parse_inner`. */
  method ParseInner(stream: Stream) returns (r: Result<Expr>)
    requires stream.Valid()
    modifies stream
    ensures Agrees(stream.State(), r, ParseInnerSpec(old(stream.State())))
    decreases |stream.data| - stream.pos, 1
  {
    var ch := PeekAfterSpaces(stream);
    if ch == '(' {
      ch := stream.Get();
      var e :- ParseExpr(stream);
      ch := PeekAfterSpaces(stream);
      if ch == ')' {
        ch := stream.Get();
      } else {
        return Fail("expected a close parenthesis");
      }
      return Ok(e);
    } else if ch == '-' {
      r := ParseNegativeNumber(stream);
    } else if IsDigit(ch) {
      r := ParseNumber(stream);
    } else if IsAlpha(ch) {
      r := ParseVariable(stream);
    } else if ch == '_' {
      var keyword := ParseKeyword(stream);
      if keyword == "_true" {
        return Ok(BoolExpr(true));
      } else if keyword == "_false" {
        return Ok(BoolExpr(false));
      } else if keyword == "_let" {
        r := ParseLet(stream);
      } else if keyword == "_if" {
        r := ParseIf(stream);
      } else if keyword == "_fun" {
        r := ParseFun(stream);
      } else {
        return Fail("unexpected keyword " + keyword);
      }
    } else {
      return Fail("expected a digit or open parenthesis at " + [ch]);
    }
  }

  /** `parse_number`. */
  method ParseNumber(stream: Stream) returns (r: Result<Expr>)
    requires stream.Valid() && Good(stream.State()) && stream.pos < |stream.data| && IsDigit(stream.data[stream.pos])
    modifies stream
    ensures Agrees(stream.State(), r, ParseNumberSpec(old(stream.State())))
  {
    var num := stream.ExtractInt();
    return Ok(NumExpr(num));
  }

  /** `parse_negative_number`. */
  method ParseNegativeNumber(stream: Stream) returns (r: Result<Expr>)
    requires stream.Valid() && Good(stream.State()) && stream.pos < |stream.data| && stream.data[stream.pos] == '-'
    modifies stream
    ensures Agrees(stream.State(), r, ParseNegativeNumberSpec(old(stream.State())))
  {
    var ch := stream.Get();
    var num := stream.ExtractInt();
    if num as int == MIN {
      return Undefined;
    }
    return Ok(NumExpr(-num));
  }

  /** `parse_variable`. */
  method ParseVariable(stream: Stream) returns (r: Result<Expr>)
    requires stream.Valid() && Good(stream.State()) && stream.pos < |stream.data| && IsAlpha(stream.data[stream.pos])
    modifies stream
    ensures Agrees(stream.State(), r, ParseVariableSpec(old(stream.State())))
  {
    var name := ParseAlphabetic(stream, "");
    return Ok(VarExpr(name));
  }

  /** `parse_keyword`. */
  method ParseKeyword(stream: Stream) returns (keyword: string)
    requires stream.Valid() && Good(stream.State()) && stream.pos < |stream.data|
    modifies stream
    ensures stream.Valid() && WordRead(keyword, stream.State()) == ParseKeywordSpec(old(stream.State()))
  {
    var ch := stream.Get();
    keyword := ParseAlphabetic(stream, "_");
  }

  /** `parse_let`. */
  method ParseLet(stream: Stream) returns (r: Result<Expr>)
    requires stream.Valid()
    modifies stream
    ensures Agrees(stream.State(), r, ParseLetSpec(old(stream.State())))
    decreases |stream.data| - stream.pos, 9
  {
    var ch := PeekAfterSpaces(stream);
    var varStr := ParseAlphabetic(stream, "");
    ch := PeekAfterSpaces(stream);
    ch := stream.Get();
    r := ParseBinding(stream, varStr);
  }

  /** The right-hand side, `_in` and body of `parse_let`. */
  method ParseBinding(stream: Stream, varStr: string) returns (r: Result<Expr>)
    requires stream.Valid()
    modifies stream
    ensures Agrees(stream.State(), r, BindingSpec(varStr, old(stream.State())))
    decreases |stream.data| - stream.pos, 8
  {
    var rhs :- ParseExpr(stream);
    var body :- ParseAfterKeyword(stream, "_in", MissingIn);
    return Ok(LetExpr(varStr, rhs, body));
  }

  /** `parse_if`. */
  method ParseIf(stream: Stream) returns (r: Result<Expr>)
    requires stream.Valid()
    modifies stream
    ensures Agrees(stream.State(), r, ParseIfSpec(old(stream.State())))
    decreases |stream.data| - stream.pos, 9
  {
    var ch := PeekAfterSpaces(stream);
    var condition :- ParseExpr(stream);
    r := ParseBranches(stream, condition);
  }

  /** The `_then` and `_else` parts of `parse_if`. */
  method ParseBranches(stream: Stream, condition: Expr) returns (r: Result<Expr>)
    requires stream.Valid()
    modifies stream
    ensures Agrees(stream.State(), r, BranchesSpec(condition, old(stream.State())))
    decreases |stream.data| - stream.pos, 8
  {
    var thenPart :- ParseAfterKeyword(stream, "_then", MissingThen);
    var elsePart :- ParseAfterKeyword(stream, "_else", MissingThen);
    return Ok(IfExpr(condition, thenPart, elsePart));
  }

  /** The lines `parse_let` and `parse_if` repeat for each of `_in`, `_then` and `_else`. */
  method ParseAfterKeyword(stream: Stream, keyword: string, message: string) returns (r: Result<Expr>)
    requires stream.Valid()
    modifies stream
    ensures Agrees(stream.State(), r, AfterKeywordSpec(old(stream.State()), keyword, message))
    decreases |stream.data| - stream.pos, 7
  {
    var ch := PeekAfterSpaces(stream);
    ch := stream.Get();
    var word := ParseAlphabetic(stream, "_");
    assert WordRead(word, stream.State()) == KeywordAfterSpacesSpec(old(stream.State()));
    if word != keyword {
      return Fail(message);
    }
    r := ParseExpr(stream);
  }

  /** `parse_fun`. */
  method ParseFun(stream: Stream) returns (r: Result<Expr>)
    requires stream.Valid()
    modifies stream
    ensures Agrees(stream.State(), r, ParseFunSpec(old(stream.State())))
    decreases |stream.data| - stream.pos, 8
  {
    var ch := PeekAfterSpaces(stream);
    var formalArg :- ParseExpr(stream);
    ch := PeekAfterSpaces(stream);
    var body :- ParseExpr(stream);
    return Ok(FunExpr(Exprs.ToString(formalArg), body));
  }
}
