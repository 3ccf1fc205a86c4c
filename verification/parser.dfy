/** The precedence-climbing evaluator (Parser). It evaluates while it
    parses, so each function returns the value of what it read together
    with the stream left after it. The current parser and the legacy one
    differ only in the unary plus and in one message; `Dialect` selects. */
module Parsing {
  import opened Errors
  import opened Numbers
  import opened TokenTypes
  import opened Tokens
  import opened Operators
  import opened Streams

  datatype Dialect =
    | Current  // server/parser/parser.hpp
    | Legacy   // server/parser.hpp

  const ExpectedBinaryOperator: string := "expected a binary operator"
  const MissingClosingParen: string := "missing closing ')'"

  /** The message for a missing operand. */
  function ExpectedOperand(d: Dialect): string {
    match d
    case Current => "expected '-', '+', '(' or a number"
    case Legacy => "expected '-', '(' or a number"
  }

  /** peek_operator: the operator the next token stands for, if it is one. */
  function PeekOperator(st: Stream): (r: Option<BinaryOp>)
    ensures r.Some? <==> HasToken(st) && Is(st.token)
    ensures r.Some? ==> OperatorType(r.value) == st.token.kind
  {
    match PeekToken(st)
    case None => None
    case Some(t) =>
      // from_token cannot throw once is() has held
      if !Is(t) then None else Some(OfType(t.kind))
  }

  /** The next token is an operator binding at least as tightly as `minPrec`:
      the condition of the outer loop of exec_expr. */
  predicate Climbs(st: Stream, minPrec: nat) {
    PeekOperator(st).Some? && Precedence(PeekOperator(st).value) >= minPrec
  }

  /** The inner loop of exec_expr takes `next` into the right operand of an
      operator of precedence `prevPrec`. */
  predicate Absorbs(next: BinaryOp, prevPrec: nat) {
    || (IsLeftAssociative(next) && Precedence(next) > prevPrec)
    || (IsRightAssociative(next) && Precedence(next) == prevPrec)
  }

  /** exec_expr(): a factor, then every operator that follows. */
  function ExecExpr(d: Dialect, st: Stream): (r: Result<(Num, Stream)>)
    ensures r.Ok? ==> Len(r.value.1) < Len(st)
    ensures r.Ok? ==> !Climbs(r.value.1, MinPrecedence)
    decreases Len(st), 3
  {
    var f :- ExecFactor(d, st);
    ExprLoop(d, f.0, MinPrecedence, f.1)
  }

  /** exec_expr(lhs, min_prec), the outer loop: while the next operator
      binds at least as tightly as `minPrec`, read its right operand, let the
      inner loop absorb tighter operators into it, and apply. It stops in
      front of the first operator that binds more loosely, and it reads at
      least that operator's operand when it starts on one that does not. */
  function ExprLoop(d: Dialect, lhs: Num, minPrec: nat, st: Stream): (r: Result<(Num, Stream)>)
    ensures r.Ok? ==> Len(r.value.1) <= Len(st)
    ensures r.Ok? && Climbs(st, minPrec) ==> Len(r.value.1) < Len(st)
    ensures r.Ok? ==> !Climbs(r.value.1, minPrec)
    ensures !Climbs(st, minPrec) ==> r == Ok((lhs, st))
    decreases Len(st), 1
  {
    match PeekOperator(st)
    case None => Ok((lhs, st))
    case Some(op) =>
      if Precedence(op) < minPrec then Ok((lhs, st))
      else
        var st1 :- DropToken(st);
        var rhs :- ExecFactor(d, st1);
        var absorbed :- AbsorbLoop(d, rhs.0, Precedence(op), rhs.1);
        var v :- Exec(op, lhs, absorbed.0);
        ExprLoop(d, v, minPrec, absorbed.1)
  }

  /** The inner loop of exec_expr(lhs, min_prec): while the next operator is
      absorbed, evaluate the right operand further at that operator's
      precedence. It stops in front of the first operator not absorbed. */
  function AbsorbLoop(d: Dialect, rhs: Num, prevPrec: nat, st: Stream): (r: Result<(Num, Stream)>)
    ensures r.Ok? ==> Len(r.value.1) <= Len(st)
    ensures r.Ok? ==> PeekOperator(r.value.1).None? || !Absorbs(PeekOperator(r.value.1).value, prevPrec)
    decreases Len(st), 2
  {
    match PeekOperator(st)
    case None => Ok((rhs, st))
    case Some(next) =>
      if !Absorbs(next, prevPrec) then Ok((rhs, st))
      else
        var e :- ExprLoop(d, rhs, Precedence(next), st);
        AbsorbLoop(d, e.0, prevPrec, e.1)
  }

  /** exec_factor (exec_primary in the legacy parser): any number of unary
      minus signs (and, in the current parser, plus signs) before an atom. */
  function ExecFactor(d: Dialect, st: Stream): (r: Result<(Num, Stream)>)
    ensures r.Ok? ==> Len(r.value.1) < Len(st)
    ensures !HasToken(st) ==> r == Err(ParserError(ExpectedOperand(d)))
    decreases Len(st), 2
  {
    if !HasToken(st) then Err(ParserError(ExpectedOperand(d)))
    else
      var minus :- DropTokenOfType(st, Minus);
      if minus.0.Some? then
        var f :- ExecFactor(d, minus.1);
        Ok((Negate(f.0), f.1))
      else if d == Current then
        var plus :- DropTokenOfType(minus.1, Plus);
        if plus.0.Some? then ExecFactor(d, plus.1) else ExecAtom(d, plus.1)
      else
        ExecAtom(d, minus.1)
  }

  /** exec_atom (the rest of exec_primary in the legacy parser): a
      parenthesised expression or a number. */
  function ExecAtom(d: Dialect, st: Stream): (r: Result<(Num, Stream)>)
    ensures r.Ok? ==> Len(r.value.1) < Len(st)
    decreases Len(st), 1
  {
    if !HasToken(st) then Err(ParserError(ExpectedOperand(d)))
    else
      var paren :- DropTokenOfType(st, LeftParen);
      if paren.0.Some? then
        var inner :- ExecExpr(d, paren.1);
        if !HasToken(inner.1) then Err(ParserError(MissingClosingParen))
        else
          var close :- DropTokenOfType(inner.1, RightParen);
          if close.0.None? then Err(ParserError(MissingClosingParen))
          else Ok((inner.0, close.1))
      else
        var number :- DropTokenOfType(paren.1, Number);
        if number.0.Some? then
          // as_number() cannot throw: the token is a number
          Ok((AsNumber(number.0.value).value, number.1))
        else Err(ParserError(ExpectedOperand(d)))
  }

  /** exec: evaluate one expression, which must use up the whole stream. */
  function ExecStream(d: Dialect, st: Stream): (r: Result<Num>)
    ensures r.Ok? ==> ExecExpr(d, st).Ok? && !HasToken(ExecExpr(d, st).value.1)
    ensures ExecExpr(d, st).Ok? && HasToken(ExecExpr(d, st).value.1) ==> r == Err(ParserError(ExpectedBinaryOperator))
  {
    var e :- ExecExpr(d, st);
    if HasToken(e.1) then Err(ParserError(ExpectedBinaryOperator)) else Ok(e.0)
  }
}
