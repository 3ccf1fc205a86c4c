/** A reference semantics for the expression language, independent of the
    precedence-climbing algorithm: the usual two-level grammar

      expr   = term   { ("+" | "-") term }
      term   = factor { ("*" | "/") factor }
      factor = "-" factor | "+" factor | atom     (no "+" in the legacy dialect)
      atom   = "(" expr ")" | number

    with left-associative folding, evaluated over the same token streams and
    raising the same errors at the same tokens. */
module Grammar {
  import opened Errors
  import opened Numbers
  import opened TokenTypes
  import opened Tokens
  import opened Streams
  import Operators
  import Parsing

  predicate IsAdditive(st: Stream) {
    st.Next? && (st.token.kind == Plus || st.token.kind == Minus)
  }

  predicate IsMultiplicative(st: Stream) {
    st.Next? && (st.token.kind == Asterisk || st.token.kind == Slash)
  }

  /** The arithmetic of the four operators, with division by a zero
      divisor refused. */
  function Combine(k: Type, a: Num, b: Num): Result<Num> {
    if k == Plus then Ok(Sum(a, b))
    else if k == Minus then Ok(Difference(a, b))
    else if k == Asterisk then Ok(Product(a, b))
    else if b == Exact(0.0) then Err(ParserError(Operators.DivisionByZero))
    else Ok(Quotient(a, b))
  }

  function RefExpr(d: Parsing.Dialect, st: Stream): (r: Result<(Num, Stream)>)
    ensures r.Ok? ==> Len(r.value.1) < Len(st) && !IsAdditive(r.value.1) && !IsMultiplicative(r.value.1)
    decreases Len(st), 5
  {
    var t :- RefTerm(d, st);
    RefExprTail(d, t.0, t.1)
  }

  /** The repetition of expr, folding from the left into `acc`. */
  function RefExprTail(d: Parsing.Dialect, acc: Num, st: Stream): (r: Result<(Num, Stream)>)
    requires !IsMultiplicative(st)
    ensures r.Ok? ==> Len(r.value.1) <= Len(st) && !IsAdditive(r.value.1) && !IsMultiplicative(r.value.1)
    decreases Len(st), 4
  {
    if IsAdditive(st) then
      var st1 :- st.rest;
      var t :- RefTerm(d, st1);
      var v :- Combine(st.token.kind, acc, t.0);
      RefExprTail(d, v, t.1)
    else Ok((acc, st))
  }

  function RefTerm(d: Parsing.Dialect, st: Stream): (r: Result<(Num, Stream)>)
    ensures r.Ok? ==> Len(r.value.1) < Len(st) && !IsMultiplicative(r.value.1)
    decreases Len(st), 3
  {
    var f :- RefFactor(d, st);
    RefTermTail(d, f.0, f.1)
  }

  /** The repetition of term, folding from the left into `acc`. */
  function RefTermTail(d: Parsing.Dialect, acc: Num, st: Stream): (r: Result<(Num, Stream)>)
    ensures r.Ok? ==> Len(r.value.1) <= Len(st) && !IsMultiplicative(r.value.1)
    ensures !IsMultiplicative(st) ==> r == Ok((acc, st))
    decreases Len(st), 2
  {
    if IsMultiplicative(st) then
      var st1 :- st.rest;
      var f :- RefFactor(d, st1);
      var v :- Combine(st.token.kind, acc, f.0);
      RefTermTail(d, v, f.1)
    else Ok((acc, st))
  }

  function RefFactor(d: Parsing.Dialect, st: Stream): (r: Result<(Num, Stream)>)
    ensures r.Ok? ==> Len(r.value.1) < Len(st)
    decreases Len(st), 1
  {
    match st
    case End => Err(ParserError(Parsing.ExpectedOperand(d)))
    case Next(tok, rest) =>
      if tok.kind == Minus then
        var st1 :- rest;
        var f :- RefFactor(d, st1);
        Ok((Negate(f.0), f.1))
      else if tok.kind == Plus && d == Parsing.Current then
        var st1 :- rest;
        RefFactor(d, st1)
      else RefAtom(d, st)
  }

  function RefAtom(d: Parsing.Dialect, st: Stream): (r: Result<(Num, Stream)>)
    ensures r.Ok? ==> Len(r.value.1) < Len(st)
    decreases Len(st), 0
  {
    match st
    case End => Err(ParserError(Parsing.ExpectedOperand(d)))
    case Next(tok, rest) =>
      if tok.kind == LeftParen then
        var st1 :- rest;
        var e :- RefExpr(d, st1);
        if e.1.Next? && e.1.token.kind == RightParen then
          var st2 :- e.1.rest;
          Ok((e.0, st2))
        else Err(ParserError(Parsing.MissingClosingParen))
      else if tok.kind == Number then
        var st1 :- rest;
        Ok((tok.value, st1))
      else Err(ParserError(Parsing.ExpectedOperand(d)))
  }

  /** A whole input: one expression and nothing after it. */
  function RefExec(d: Parsing.Dialect, st: Stream): Result<Num> {
    var e :- RefExpr(d, st);
    if e.1.Next? then Err(ParserError(Parsing.ExpectedBinaryOperator)) else Ok(e.0)
  }

  // ------------------------------------------------ the two dialects compared

  /** Whatever the legacy dialect evaluates, the current one evaluates to the
      same value, leaving the same stream: unary plus only adds inputs. */
  lemma {:induction false} CurrentExtendsLegacyExpr(st: Stream)
    requires RefExpr(Parsing.Legacy, st).Ok?
    ensures RefExpr(Parsing.Current, st) == RefExpr(Parsing.Legacy, st)
    decreases Len(st), 5
  {
    var t := RefTerm(Parsing.Legacy, st).value;
    CurrentExtendsLegacyTerm(st);
    CurrentExtendsLegacyExprTail(t.0, t.1);
  }

  lemma {:induction false} CurrentExtendsLegacyExprTail(acc: Num, st: Stream)
    requires !IsMultiplicative(st)
    requires RefExprTail(Parsing.Legacy, acc, st).Ok?
    ensures RefExprTail(Parsing.Current, acc, st) == RefExprTail(Parsing.Legacy, acc, st)
    decreases Len(st), 4
  {
    if IsAdditive(st) {
      var st1 := st.rest.value;
      var t := RefTerm(Parsing.Legacy, st1).value;
      CurrentExtendsLegacyTerm(st1);
      var v := Combine(st.token.kind, acc, t.0).value;
      CurrentExtendsLegacyExprTail(v, t.1);
    }
  }

  lemma {:induction false} CurrentExtendsLegacyTerm(st: Stream)
    requires RefTerm(Parsing.Legacy, st).Ok?
    ensures RefTerm(Parsing.Current, st) == RefTerm(Parsing.Legacy, st)
    decreases Len(st), 3
  {
    var f := RefFactor(Parsing.Legacy, st).value;
    CurrentExtendsLegacyFactor(st);
    CurrentExtendsLegacyTermTail(f.0, f.1);
  }

  lemma {:induction false} CurrentExtendsLegacyTermTail(acc: Num, st: Stream)
    requires RefTermTail(Parsing.Legacy, acc, st).Ok?
    ensures RefTermTail(Parsing.Current, acc, st) == RefTermTail(Parsing.Legacy, acc, st)
    decreases Len(st), 2
  {
    if IsMultiplicative(st) {
      var st1 := st.rest.value;
      var f := RefFactor(Parsing.Legacy, st1).value;
      CurrentExtendsLegacyFactor(st1);
      var v := Combine(st.token.kind, acc, f.0).value;
      CurrentExtendsLegacyTermTail(v, f.1);
    }
  }

  lemma {:induction false} CurrentExtendsLegacyFactor(st: Stream)
    requires RefFactor(Parsing.Legacy, st).Ok?
    ensures RefFactor(Parsing.Current, st) == RefFactor(Parsing.Legacy, st)
    decreases Len(st), 1
  {
    match st
    case Next(tok, rest) =>
      if tok.kind == Minus {
        CurrentExtendsLegacyFactor(rest.value);
      } else {
        CurrentExtendsLegacyAtom(st);
      }
  }

  lemma {:induction false} CurrentExtendsLegacyAtom(st: Stream)
    requires RefAtom(Parsing.Legacy, st).Ok?
    ensures RefAtom(Parsing.Current, st) == RefAtom(Parsing.Legacy, st)
    decreases Len(st), 0
  {
    match st
    case Next(tok, rest) =>
      if tok.kind == LeftParen {
        CurrentExtendsLegacyExpr(rest.value);
      }
  }

  /** The current dialect accepts everything the legacy one accepts, with
      the same value. */
  lemma CurrentExtendsLegacy(st: Stream)
    requires RefExec(Parsing.Legacy, st).Ok?
    ensures RefExec(Parsing.Current, st) == RefExec(Parsing.Legacy, st)
  {
    CurrentExtendsLegacyExpr(st);
  }

  /** ... and strictly more: a unary plus is an error in the legacy dialect
      only. */
  lemma UnaryPlusOnlyInCurrent(a: real)
    ensures RefExec(Parsing.Current, FromTokens([Token(Plus, Exact(0.0)), MakeNumber(Exact(a))])) == Ok(Exact(a))
    ensures RefExec(Parsing.Legacy, FromTokens([Token(Plus, Exact(0.0)), MakeNumber(Exact(a))]))
      == Err(ParserError(Parsing.ExpectedOperand(Parsing.Legacy)))
  {
    var st := FromTokens([Token(Plus, Exact(0.0)), MakeNumber(Exact(a))]);
    var st1 := FromTokens([MakeNumber(Exact(a))]);
    assert st == Next(Token(Plus, Exact(0.0)), Ok(st1));
    assert st1 == Next(MakeNumber(Exact(a)), Ok(End));
    assert RefAtom(Parsing.Current, st1) == Ok((Exact(a), End));
    assert RefFactor(Parsing.Current, st1) == Ok((Exact(a), End));
    assert RefFactor(Parsing.Current, st) == Ok((Exact(a), End));
    assert RefTerm(Parsing.Current, st) == Ok((Exact(a), End));
    assert RefExpr(Parsing.Current, st) == Ok((Exact(a), End));
    assert RefAtom(Parsing.Legacy, st) == Err(ParserError(Parsing.ExpectedOperand(Parsing.Legacy)));
    assert RefFactor(Parsing.Legacy, st) == Err(ParserError(Parsing.ExpectedOperand(Parsing.Legacy)));
    assert RefTerm(Parsing.Legacy, st) == Err(ParserError(Parsing.ExpectedOperand(Parsing.Legacy)));
  }
}
