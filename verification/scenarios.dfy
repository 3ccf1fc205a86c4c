/** The parser's unit tests, stated for every choice of the numbers and for
    both dialects, over the token streams the lexer produces for them. */
module Scenarios {
  import opened Errors
  import opened Numbers
  import opened TokenTypes
  import opened Tokens
  import opened Streams
  import opened Parsing
  import opened Grammar
  import Agreement

  function N(r: real): Token { MakeNumber(Exact(r)) }
  function K(t: Type): Token { Token(t, Exact(0.0)) }

  /** A stream that reads `t` and then `st`. */
  function Cons(t: Token, st: Stream): Stream { Next(t, Ok(st)) }

  /** `k` unary minus signs in front of `st`. */
  function Minuses(k: nat, st: Stream): Stream {
    if k == 0 then st else Cons(K(Minus), Minuses(k - 1, st))
  }

  function Sign(k: nat): real {
    if k % 2 == 0 then 1.0 else -1.0
  }

  // ------------------------------------------------------ grammar steps

  /** The arithmetic of the operators on exact numbers. */
  lemma CombineExact(a: real, b: real)
    ensures Combine(Plus, Exact(a), Exact(b)) == Ok(Exact(a + b))
    ensures Combine(Minus, Exact(a), Exact(b)) == Ok(Exact(a - b))
    ensures Combine(Asterisk, Exact(a), Exact(b)) == Ok(Exact(a * b))
  {
    assert Product(Exact(a), Exact(b)) == Exact(a * b);
  }

  lemma NumberFactor(d: Dialect, v: real, rest: Stream)
    ensures RefFactor(d, Cons(N(v), rest)) == Ok((Exact(v), rest))
  {
  }

  lemma ParenFactor(d: Dialect, st: Stream, v: Num, rest: Stream)
    requires RefExpr(d, st) == Ok((v, Cons(K(RightParen), rest)))
    ensures RefFactor(d, Cons(K(LeftParen), st)) == Ok((v, rest))
  {
  }

  lemma MinusFactor(d: Dialect, st: Stream, v: Num, rest: Stream)
    requires RefFactor(d, st) == Ok((v, rest))
    ensures RefFactor(d, Cons(K(Minus), st)) == Ok((Negate(v), rest))
  {
  }

  /** Each unary minus negates what follows it. */
  lemma {:induction false} MinusesFactor(d: Dialect, k: nat, st: Stream, v: real, rest: Stream)
    requires RefFactor(d, st) == Ok((Exact(v), rest))
    ensures RefFactor(d, Minuses(k, st)) == Ok((Exact(Sign(k) * v), rest))
  {
    if k > 0 {
      MinusesFactor(d, k - 1, st, v, rest);
      assert Sign(k) * v == -(Sign(k - 1) * v);
    }
  }

  lemma TermStep(d: Dialect, acc: Num, op: Type, st: Stream, f: Num, rest: Stream, v: Num)
    requires op == Asterisk || op == Slash
    requires RefFactor(d, st) == Ok((f, rest))
    requires Combine(op, acc, f) == Ok(v)
    ensures RefTermTail(d, acc, Cons(K(op), st)) == RefTermTail(d, v, rest)
  {
  }

  lemma ExprStep(d: Dialect, acc: Num, op: Type, st: Stream, t: Num, rest: Stream, v: Num)
    requires op == Plus || op == Minus
    requires RefTerm(d, st) == Ok((t, rest))
    requires Combine(op, acc, t) == Ok(v)
    ensures RefExprTail(d, acc, Cons(K(op), st)) == RefExprTail(d, v, rest)
  {
  }

  lemma TermOf(d: Dialect, st: Stream, f: Num, rest: Stream, v: Num, rest': Stream)
    requires RefFactor(d, st) == Ok((f, rest))
    requires RefTermTail(d, f, rest) == Ok((v, rest'))
    ensures RefTerm(d, st) == Ok((v, rest'))
  {
  }

  lemma ExprOf(d: Dialect, st: Stream, t: Num, rest: Stream, v: Num, rest': Stream)
    requires RefTerm(d, st) == Ok((t, rest))
    requires !IsMultiplicative(rest)
    requires RefExprTail(d, t, rest) == Ok((v, rest'))
    ensures RefExpr(d, st) == Ok((v, rest'))
  {
  }

  // ------------------------------------------------------------- the tests

  /** " 2 * 1 + 3 " is 5: multiplication binds tighter. */
  lemma MultiplicationFirst(d: Dialect, a: real, b: real, c: real)
    ensures ExecStream(d, Cons(N(a), Cons(K(Asterisk), Cons(N(b), Cons(K(Plus), Cons(N(c), End)))))) == Ok(Exact(a * b + c))
  {
    var s4 := Cons(N(c), End);
    var s3 := Cons(K(Plus), s4);
    var s2 := Cons(N(b), s3);
    var s1 := Cons(K(Asterisk), s2);
    var s0 := Cons(N(a), s1);
    NumberFactor(d, a, s1);
    NumberFactor(d, b, s3);
    CombineExact(a, b);
    CombineExact(a * b, c);
    TermStep(d, Exact(a), Asterisk, s2, Exact(b), s3, Exact(a * b));
    TermOf(d, s0, Exact(a), s1, Exact(a * b), s3);
    NumberFactor(d, c, End);
    TermOf(d, s4, Exact(c), End, Exact(c), End);
    ExprStep(d, Exact(a * b), Plus, s4, Exact(c), End, Exact(a * b + c));
    ExprOf(d, s0, Exact(a * b), s3, Exact(a * b + c), End);
    Agreement.ExecAgrees(d, s0);
  }

  /** "" fails: an operand is expected. */
  lemma EmptyInput(d: Dialect)
    ensures ExecStream(d, End) == Err(ParserError(ExpectedOperand(d)))
  {
  }

  /** "1" is 1. */
  lemma SingleNumber(d: Dialect, a: real)
    ensures ExecStream(d, Cons(N(a), End)) == Ok(Exact(a))
  {
    NumberFactor(d, a, End);
    TermOf(d, Cons(N(a), End), Exact(a), End, Exact(a), End);
    ExprOf(d, Cons(N(a), End), Exact(a), End, Exact(a), End);
    Agreement.ExecAgrees(d, Cons(N(a), End));
  }

  /** " 1 + 2 " is 3. */
  lemma Addition(d: Dialect, a: real, b: real)
    ensures ExecStream(d, Cons(N(a), Cons(K(Plus), Cons(N(b), End)))) == Ok(Exact(a + b))
  {
    var s1 := Cons(K(Plus), Cons(N(b), End));
    NumberFactor(d, a, s1);
    TermOf(d, Cons(N(a), s1), Exact(a), s1, Exact(a), s1);
    NumberFactor(d, b, End);
    TermOf(d, Cons(N(b), End), Exact(b), End, Exact(b), End);
    CombineExact(a, b);
    ExprStep(d, Exact(a), Plus, Cons(N(b), End), Exact(b), End, Exact(a + b));
    ExprOf(d, Cons(N(a), s1), Exact(a), s1, Exact(a + b), End);
    Agreement.ExecAgrees(d, Cons(N(a), s1));
  }

  /** " 1 + " fails: the operator has no right operand. */
  lemma MissingOperand(d: Dialect, a: real)
    ensures ExecStream(d, Cons(N(a), Cons(K(Plus), End))) == Err(ParserError(ExpectedOperand(d)))
  {
    var s1 := Cons(K(Plus), End);
    NumberFactor(d, a, s1);
    TermOf(d, Cons(N(a), s1), Exact(a), s1, Exact(a), s1);
    assert RefTerm(d, End) == Err(ParserError(ExpectedOperand(d)));
    assert RefExprTail(d, Exact(a), s1) == Err(ParserError(ExpectedOperand(d)));
    Agreement.ExecAgrees(d, Cons(N(a), s1));
  }

  /** Operators of equal precedence fold from the left. */
  lemma LeftToRight(d: Dialect, a: real, b: real, c: real)
    ensures ExecStream(d, Cons(N(a), Cons(K(Minus), Cons(N(b), Cons(K(Minus), Cons(N(c), End)))))) == Ok(Exact((a - b) - c))
  {
    var s3 := Cons(K(Minus), Cons(N(c), End));
    var s1 := Cons(K(Minus), Cons(N(b), s3));
    var s0 := Cons(N(a), s1);
    NumberFactor(d, a, s1);
    TermOf(d, s0, Exact(a), s1, Exact(a), s1);
    NumberFactor(d, b, s3);
    TermOf(d, Cons(N(b), s3), Exact(b), s3, Exact(b), s3);
    NumberFactor(d, c, End);
    TermOf(d, Cons(N(c), End), Exact(c), End, Exact(c), End);
    CombineExact(a, b);
    CombineExact(a - b, c);
    ExprStep(d, Exact(a - b), Minus, Cons(N(c), End), Exact(c), End, Exact((a - b) - c));
    ExprStep(d, Exact(a), Minus, Cons(N(b), s3), Exact(b), s3, Exact(a - b));
    ExprOf(d, s0, Exact(a), s1, Exact((a - b) - c), End);
    Agreement.ExecAgrees(d, s0);
  }

  /** "( b + c )" followed by anything. */
  lemma SumInParens(d: Dialect, b: real, c: real, rest: Stream)
    ensures RefFactor(d, Cons(K(LeftParen), Cons(N(b), Cons(K(Plus), Cons(N(c), Cons(K(RightParen), rest))))))
      == Ok((Exact(b + c), rest))
  {
    var close := Cons(K(RightParen), rest);
    var s1 := Cons(K(Plus), Cons(N(c), close));
    NumberFactor(d, b, s1);
    TermOf(d, Cons(N(b), s1), Exact(b), s1, Exact(b), s1);
    NumberFactor(d, c, close);
    TermOf(d, Cons(N(c), close), Exact(c), close, Exact(c), close);
    CombineExact(b, c);
    ExprStep(d, Exact(b), Plus, Cons(N(c), close), Exact(c), close, Exact(b + c));
    ExprOf(d, Cons(N(b), s1), Exact(b), s1, Exact(b + c), close);
    ParenFactor(d, Cons(N(b), s1), Exact(b + c), rest);
  }

  /** " 2 * (1 + 3) " is 8: parentheses override precedence. */
  lemma Parentheses(d: Dialect, a: real, b: real, c: real)
    ensures ExecStream(d, Cons(N(a), Cons(K(Asterisk), Cons(K(LeftParen), Cons(N(b), Cons(K(Plus), Cons(N(c), Cons(K(RightParen), End))))))))
      == Ok(Product(Exact(a), Sum(Exact(b), Exact(c))))
  {
    var s2 := Cons(K(LeftParen), Cons(N(b), Cons(K(Plus), Cons(N(c), Cons(K(RightParen), End)))));
    var s1 := Cons(K(Asterisk), s2);
    var s0 := Cons(N(a), s1);
    var v := Product(Exact(a), Sum(Exact(b), Exact(c)));
    SumInParens(d, b, c, End);
    NumberFactor(d, a, s1);
    TermStep(d, Exact(a), Asterisk, s2, Exact(b + c), End, v);
    TermOf(d, s0, Exact(a), s1, v, End);
    ExprOf(d, s0, v, End, v, End);
    Agreement.ExecAgrees(d, s0);
  }


  /** " 2 * (1 + 3 " fails: the parenthesis is never closed. */
  lemma UnclosedParenthesis(d: Dialect, a: real, b: real, c: real)
    ensures ExecStream(d, Cons(N(a), Cons(K(Asterisk), Cons(K(LeftParen), Cons(N(b), Cons(K(Plus), Cons(N(c), End)))))))
      == Err(ParserError(MissingClosingParen))
  {
    var s3 := Cons(N(b), Cons(K(Plus), Cons(N(c), End)));
    var s2 := Cons(K(LeftParen), s3);
    var s1 := Cons(K(Asterisk), s2);
    var s0 := Cons(N(a), s1);
    var s4 := Cons(K(Plus), Cons(N(c), End));
    NumberFactor(d, b, s4);
    TermOf(d, s3, Exact(b), s4, Exact(b), s4);
    NumberFactor(d, c, End);
    TermOf(d, Cons(N(c), End), Exact(c), End, Exact(c), End);
    ExprStep(d, Exact(b), Plus, Cons(N(c), End), Exact(c), End, Sum(Exact(b), Exact(c)));
    ExprOf(d, s3, Exact(b), s4, Sum(Exact(b), Exact(c)), End);
    assert RefFactor(d, s2) == Err(ParserError(MissingClosingParen));
    NumberFactor(d, a, s1);
    assert RefTermTail(d, Exact(a), s1) == Err(ParserError(MissingClosingParen));
    assert RefTerm(d, s0) == Err(ParserError(MissingClosingParen));
    assert RefExpr(d, s0) == Err(ParserError(MissingClosingParen));
    Agreement.ExecAgrees(d, s0);
  }

  /** " 2 * (1 + 3) )" fails: a token is left after the expression. */
  lemma TrailingParenthesis(d: Dialect, a: real, b: real, c: real)
    ensures ExecStream(d, Cons(N(a), Cons(K(Asterisk), Cons(K(LeftParen), Cons(N(b), Cons(K(Plus), Cons(N(c),
      Cons(K(RightParen), Cons(K(RightParen), End)))))))))
      == Err(ParserError(ExpectedBinaryOperator))
  {
    var close := Cons(K(RightParen), End);
    var s2 := Cons(K(LeftParen), Cons(N(b), Cons(K(Plus), Cons(N(c), Cons(K(RightParen), close)))));
    var s1 := Cons(K(Asterisk), s2);
    var s0 := Cons(N(a), s1);
    var v := Product(Exact(a), Sum(Exact(b), Exact(c)));
    SumInParens(d, b, c, close);
    NumberFactor(d, a, s1);
    TermStep(d, Exact(a), Asterisk, s2, Exact(b + c), close, v);
    TermOf(d, s0, Exact(a), s1, v, close);
    ExprOf(d, s0, v, close, v, close);
    Agreement.ExecAgrees(d, s0);
  }

  /** "( e - - f )" followed by anything. */
  lemma DifferenceInParens(d: Dialect, e: real, f: real, rest: Stream)
    ensures RefFactor(d, Cons(K(LeftParen), Cons(N(e), Cons(K(Minus), Cons(K(Minus), Cons(N(f), Cons(K(RightParen), rest)))))))
      == Ok((Difference(Exact(e), Negate(Exact(f))), rest))
  {
    var close := Cons(K(RightParen), rest);
    var s2 := Cons(K(Minus), Cons(N(f), close));
    var s1 := Cons(K(Minus), s2);
    var s0 := Cons(N(e), s1);
    var v := Difference(Exact(e), Negate(Exact(f)));
    NumberFactor(d, e, s1);
    TermOf(d, s0, Exact(e), s1, Exact(e), s1);
    NumberFactor(d, f, close);
    MinusFactor(d, Cons(N(f), close), Exact(f), close);
    TermOf(d, s2, Negate(Exact(f)), close, Negate(Exact(f)), close);
    ExprStep(d, Exact(e), Minus, s2, Negate(Exact(f)), close, v);
    ExprOf(d, s0, Exact(e), s1, v, close);
    ParenFactor(d, s0, v, rest);
  }

  /** "( b + c * ( e - - f ) )" followed by anything. */
  lemma NestedSum(d: Dialect, b: real, c: real, e: real, f: real, rest: Stream)
    ensures RefFactor(d, Cons(K(LeftParen), Cons(N(b), Cons(K(Plus), Cons(N(c), Cons(K(Asterisk),
      Cons(K(LeftParen), Cons(N(e), Cons(K(Minus), Cons(K(Minus), Cons(N(f), Cons(K(RightParen), Cons(K(RightParen), rest)))))))))))))
      == Ok((Sum(Exact(b), Product(Exact(c), Difference(Exact(e), Negate(Exact(f))))), rest))
  {
    var close := Cons(K(RightParen), rest);
    var inner := Cons(K(LeftParen), Cons(N(e), Cons(K(Minus), Cons(K(Minus), Cons(N(f), Cons(K(RightParen), close))))));
    var x := Difference(Exact(e), Negate(Exact(f)));
    var cx := Product(Exact(c), x);
    var sum := Sum(Exact(b), cx);
    var s5 := Cons(K(Asterisk), inner);
    var s4 := Cons(N(c), s5);
    var s3 := Cons(K(Plus), s4);
    var s2 := Cons(N(b), s3);
    DifferenceInParens(d, e, f, close);
    NumberFactor(d, c, s5);
    TermStep(d, Exact(c), Asterisk, inner, x, close, cx);
    TermOf(d, s4, Exact(c), s5, cx, close);
    NumberFactor(d, b, s3);
    TermOf(d, s2, Exact(b), s3, Exact(b), s3);
    ExprStep(d, Exact(b), Plus, s4, cx, close, sum);
    ExprOf(d, s2, Exact(b), s3, sum, close);
    ParenFactor(d, s2, sum, rest);
  }

  /** " 2 * (1 + 3 * (1 - -3)) " is 26. */
  lemma NestedParentheses(d: Dialect, a: real, b: real, c: real, e: real, f: real)
    ensures ExecStream(d, Cons(N(a), Cons(K(Asterisk), Cons(K(LeftParen), Cons(N(b), Cons(K(Plus), Cons(N(c), Cons(K(Asterisk),
      Cons(K(LeftParen), Cons(N(e), Cons(K(Minus), Cons(K(Minus), Cons(N(f), Cons(K(RightParen), Cons(K(RightParen), End)))))))))))))))
      == Ok(Product(Exact(a), Sum(Exact(b), Product(Exact(c), Difference(Exact(e), Negate(Exact(f)))))))
  {
    var open := Cons(K(LeftParen), Cons(N(b), Cons(K(Plus), Cons(N(c), Cons(K(Asterisk),
      Cons(K(LeftParen), Cons(N(e), Cons(K(Minus), Cons(K(Minus), Cons(N(f), Cons(K(RightParen), Cons(K(RightParen), End))))))))))));
    var s1 := Cons(K(Asterisk), open);
    var s0 := Cons(N(a), s1);
    var sum := Sum(Exact(b), Product(Exact(c), Difference(Exact(e), Negate(Exact(f)))));
    var v := Product(Exact(a), sum);
    NestedSum(d, b, c, e, f, End);
    NumberFactor(d, a, s1);
    TermStep(d, Exact(a), Asterisk, open, sum, End, v);
    TermOf(d, s0, Exact(a), s1, v, End);
    ExprOf(d, s0, v, End, v, End);
    Agreement.ExecAgrees(d, s0);
  }

  /** "( b + - c )" followed by anything. */
  lemma NegatedSumInParens(d: Dialect, b: real, c: real, rest: Stream)
    ensures RefFactor(d, Cons(K(LeftParen), Cons(N(b), Cons(K(Plus), Cons(K(Minus), Cons(N(c), Cons(K(RightParen), rest)))))))
      == Ok((Sum(Exact(b), Negate(Exact(c))), rest))
  {
    var close := Cons(K(RightParen), rest);
    var neg := Cons(K(Minus), Cons(N(c), close));
    var s3 := Cons(K(Plus), neg);
    var s2 := Cons(N(b), s3);
    var sum := Sum(Exact(b), Negate(Exact(c)));
    NumberFactor(d, b, s3);
    TermOf(d, s2, Exact(b), s3, Exact(b), s3);
    NumberFactor(d, c, close);
    MinusFactor(d, Cons(N(c), close), Exact(c), close);
    TermOf(d, neg, Negate(Exact(c)), close, Negate(Exact(c)), close);
    ExprStep(d, Exact(b), Plus, neg, Negate(Exact(c)), close, sum);
    ExprOf(d, s2, Exact(b), s3, sum, close);
    ParenFactor(d, s2, sum, rest);
  }

  /** " -2 * ---- (3 + -100e-1)  " is 14: every unary minus negates. */
  lemma UnaryMinuses(d: Dialect, a: real, b: real, c: real)
    ensures ExecStream(d, Cons(K(Minus), Cons(N(a), Cons(K(Asterisk), Minuses(4,
      Cons(K(LeftParen), Cons(N(b), Cons(K(Plus), Cons(K(Minus), Cons(N(c), Cons(K(RightParen), End)))))))))))
      == Ok(Product(Negate(Exact(a)), Sum(Exact(b), Negate(Exact(c)))))
  {
    var paren := Cons(K(LeftParen), Cons(N(b), Cons(K(Plus), Cons(K(Minus), Cons(N(c), Cons(K(RightParen), End))))));
    var s1 := Cons(K(Asterisk), Minuses(4, paren));
    var s0 := Cons(K(Minus), Cons(N(a), s1));
    var sum := Sum(Exact(b), Negate(Exact(c)));
    var v := Product(Negate(Exact(a)), sum);
    NegatedSumInParens(d, b, c, End);
    MinusesFactor(d, 4, paren, sum.r, End);
    NumberFactor(d, a, s1);
    MinusFactor(d, Cons(N(a), s1), Exact(a), s1);
    TermStep(d, Negate(Exact(a)), Asterisk, Minuses(4, paren), sum, End, v);
    TermOf(d, s0, Negate(Exact(a)), s1, v, End);
    ExprOf(d, s0, v, End, v, End);
    Agreement.ExecAgrees(d, s0);
  }
}
