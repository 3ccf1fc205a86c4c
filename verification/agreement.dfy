/** The precedence-climbing evaluator computes exactly what the reference
    grammar computes, on every token stream and in both dialects: the same
    value, the same remaining stream, and the same error when there is one.

    The correspondence: the outer loop at the minimum precedence is the
    term-then-expression repetition, the outer loop one level up is the term
    repetition, and the inner loop at the minimum precedence absorbs exactly
    one term repetition. Since every operator is left-associative, the inner
    loop never absorbs anything one level up. */
module Agreement {
  import opened Errors
  import opened Numbers
  import opened Streams
  import opened Operators
  import opened Parsing
  import opened Grammar

  /** What the reference grammar does with the rest of an expression once
      its first factor has been read. */
  function AfterFactor(d: Dialect, f: Num, st: Stream): Result<(Num, Stream)> {
    var t :- RefTermTail(d, f, st);
    RefExprTail(d, t.0, t.1)
  }

  /** exec agrees with the grammar's arithmetic. */
  lemma ExecIsCombine(op: BinaryOp, a: Num, b: Num)
    ensures Exec(op, a, b) == Combine(OperatorType(op), a, b)
  {
  }

  /** One level above the minimum nothing is ever absorbed. */
  lemma AbsorbAtTop(d: Dialect, rhs: Num, st: Stream)
    ensures AbsorbLoop(d, rhs, MinPrecedence + 1, st) == Ok((rhs, st))
  {
  }

  lemma {:induction false} AtomAgrees(d: Dialect, st: Stream)
    ensures ExecAtom(d, st) == RefAtom(d, st)
    decreases Len(st), 0
  {
    if HasToken(st) && st.token.kind == TokenTypes.LeftParen && st.rest.Ok? {
      ExprAgrees(d, st.rest.value);
    }
  }

  lemma {:induction false} FactorAgrees(d: Dialect, st: Stream)
    ensures ExecFactor(d, st) == RefFactor(d, st)
    decreases Len(st), 1
  {
    if HasToken(st) {
      if st.token.kind == TokenTypes.Minus {
        if st.rest.Ok? {
          FactorAgrees(d, st.rest.value);
        }
      } else if st.token.kind == TokenTypes.Plus && d == Current {
        if st.rest.Ok? {
          FactorAgrees(d, st.rest.value);
        }
      } else {
        AtomAgrees(d, st);
      }
    }
  }

  /** The outer loop one level above the minimum is the term repetition. */
  lemma {:induction false} TermLoopAgrees(d: Dialect, lhs: Num, st: Stream)
    ensures ExprLoop(d, lhs, MinPrecedence + 1, st) == RefTermTail(d, lhs, st)
    decreases Len(st), 2
  {
    if Climbs(st, MinPrecedence + 1) && st.rest.Ok? {
      var op := PeekOperator(st).value;
      var st1 := st.rest.value;
      FactorAgrees(d, st1);
      if RefFactor(d, st1).Ok? {
        var f := RefFactor(d, st1).value;
        AbsorbAtTop(d, f.0, f.1);
        ExecIsCombine(op, lhs, f.0);
        if Combine(st.token.kind, lhs, f.0).Ok? {
          TermLoopAgrees(d, Combine(st.token.kind, lhs, f.0).value, f.1);
        }
      }
    }
  }

  /** The inner loop at the minimum precedence absorbs one term
      repetition. */
  lemma {:induction false} AbsorbZeroAgrees(d: Dialect, rhs: Num, st: Stream)
    ensures AbsorbLoop(d, rhs, MinPrecedence, st) == RefTermTail(d, rhs, st)
    decreases Len(st), 3
  {
    if IsMultiplicative(st) {
      TermLoopAgrees(d, rhs, st);
    }
  }

  /** The outer loop at the minimum precedence is the term repetition
      followed by the expression repetition. */
  lemma {:induction false} SumLoopAgrees(d: Dialect, lhs: Num, st: Stream)
    ensures ExprLoop(d, lhs, MinPrecedence, st) == AfterFactor(d, lhs, st)
    decreases Len(st), 3
  {
    if PeekOperator(st).Some? && st.rest.Ok? {
      var op := PeekOperator(st).value;
      var st1 := st.rest.value;
      FactorAgrees(d, st1);
      if RefFactor(d, st1).Ok? {
        var f := RefFactor(d, st1).value;
        ExecIsCombine(op, lhs, f.0);
        if IsMultiplicative(st) {
          AbsorbAtTop(d, f.0, f.1);
          assert Precedence(op) == MinPrecedence + 1;
          if Combine(st.token.kind, lhs, f.0).Ok? {
            var v := Combine(st.token.kind, lhs, f.0).value;
            SumLoopAgrees(d, v, f.1);
            assert RefTermTail(d, lhs, st) == RefTermTail(d, v, f.1);
          }
        } else {
          AbsorbZeroAgrees(d, f.0, f.1);
          assert Precedence(op) == MinPrecedence;
          if RefTermTail(d, f.0, f.1).Ok? {
            var t := RefTermTail(d, f.0, f.1).value;
            assert RefTerm(d, st1) == Ok(t);
            if Combine(st.token.kind, lhs, t.0).Ok? {
              var v := Combine(st.token.kind, lhs, t.0).value;
              SumLoopAgrees(d, v, t.1);
              assert RefTermTail(d, v, t.1) == Ok((v, t.1));
              assert RefExprTail(d, lhs, st) == RefExprTail(d, v, t.1);
            }
          } else {
            assert RefTerm(d, st1) == RefTermTail(d, f.0, f.1);
            assert RefExprTail(d, lhs, st) == RefTermTail(d, f.0, f.1).PropagateFailure();
          }
        }
      } else if IsMultiplicative(st) {
        assert RefTermTail(d, lhs, st) == RefFactor(d, st1).PropagateFailure();
      } else {
        assert RefTerm(d, st1) == RefFactor(d, st1).PropagateFailure();
        assert RefExprTail(d, lhs, st) == RefFactor(d, st1).PropagateFailure();
      }
    }
  }

  lemma {:induction false} ExprAgrees(d: Dialect, st: Stream)
    ensures ExecExpr(d, st) == RefExpr(d, st)
    decreases Len(st), 4
  {
    FactorAgrees(d, st);
    if RefFactor(d, st).Ok? {
      var f := RefFactor(d, st).value;
      SumLoopAgrees(d, f.0, f.1);
    }
  }

  /** Parser::exec computes the reference semantics of the whole input. */
  lemma ExecAgrees(d: Dialect, st: Stream)
    ensures ExecStream(d, st) == RefExec(d, st)
  {
    ExprAgrees(d, st);
  }
}
