/** parser::BinaryOp: the four binary operators, their precedence and their
    evaluation. The legacy parser's copy of the class is identical. */
module Operators {
  import opened Errors
  import opened Numbers
  import opened TokenTypes
  import opened Tokens

  datatype BinaryOp = Add | Sub | Mul | Div

  /** The token type an operator is read from. */
  function OperatorType(op: BinaryOp): Type {
    match op
    case Add => Plus
    case Sub => Minus
    case Mul => Asterisk
    case Div => Slash
  }

  predicate IsOperatorType(t: Type) {
    t == Plus || t == Minus || t == Asterisk || t == Slash
  }

  /** BinaryOp::is. */
  predicate Is(tok: Token) {
    IsOperatorType(tok.kind)
  }

  /** The operator read from a token of an operator type. */
  function OfType(t: Type): (op: BinaryOp)
    requires IsOperatorType(t)
    ensures OperatorType(op) == t
  {
    match t
    case Plus => Add
    case Minus => Sub
    case Asterisk => Mul
    case Slash => Div
  }

  const NotAnOperator: string := "internal: token is not a binary operator"

  /** BinaryOp::from_token: refuses a token that is not an operator. */
  function FromToken(tok: Token): (r: Result<BinaryOp>)
    ensures r.Ok? <==> Is(tok)
    ensures r.Ok? ==> OperatorType(r.value) == tok.kind
    ensures r.Err? ==> r.error == ParserError(NotAnOperator)
  {
    if !Is(tok) then Err(ParserError(NotAnOperator)) else Ok(OfType(tok.kind))
  }

  /** Reading an operator from its own token type gives it back, and the
      operator types are exactly the types of the four operators. */
  lemma OperatorTypeRoundTrip(op: BinaryOp, t: Type)
    ensures IsOperatorType(OperatorType(op)) && OfType(OperatorType(op)) == op
    ensures IsOperatorType(t) <==> exists o :: OperatorType(o) == t
  {
    if IsOperatorType(t) {
      assert OperatorType(OfType(t)) == t;
    }
  }

  const MinPrecedence: nat := 0

  /** get_precedence: additive operators bind at the minimum precedence,
      multiplicative ones one level tighter. */
  function Precedence(op: BinaryOp): (p: nat)
    ensures MinPrecedence <= p <= MinPrecedence + 1
    ensures p == MinPrecedence <==> op == Add || op == Sub
  {
    match op
    case Add => MinPrecedence
    case Sub => MinPrecedence
    case Mul => MinPrecedence + 1
    case Div => MinPrecedence + 1
  }

  /** Every operator is left-associative. The class as shipped declares no
      associativity queries although the parser calls them; all four
      arithmetic operators are left-associative, which is what the parser's
      tests expect. */
  predicate IsLeftAssociative(op: BinaryOp) {
    true
  }

  predicate IsRightAssociative(op: BinaryOp) {
    false
  }

  const DivisionByZero: string := "division by zero"

  /** exec: apply the operator; a divisor that compares equal to zero is
      refused. */
  function Exec(op: BinaryOp, lhs: Num, rhs: Num): (r: Result<Num>)
    ensures r.Err? <==> op == Div && rhs == Exact(0.0)
    ensures r.Err? ==> r.error == ParserError(DivisionByZero)
    ensures r.Ok? && lhs.Exact? && rhs.Exact? ==> r.value.Exact?
    ensures r.Ok? && (lhs.NaN? || rhs.NaN?) ==> r.value.NaN?
    ensures r.Ok? && lhs.Exact? && rhs.Exact? ==>
              r.value.r == (match op
                            case Add => lhs.r + rhs.r
                            case Sub => lhs.r - rhs.r
                            case Mul => lhs.r * rhs.r
                            case Div => lhs.r / rhs.r)
  {
    match op
    case Add => Ok(Sum(lhs, rhs))
    case Sub => Ok(Difference(lhs, rhs))
    case Mul => Ok(Product(lhs, rhs))
    case Div => if rhs == Exact(0.0) then Err(ParserError(DivisionByZero)) else Ok(Quotient(lhs, rhs))
  }

  /** Subtraction undoes addition and division undoes multiplication by a
      divisor other than zero. */
  lemma ExecInverses(a: real, b: real)
    ensures Exec(Sub, Exec(Add, Exact(a), Exact(b)).value, Exact(b)) == Ok(Exact(a))
    ensures b != 0.0 ==> Exec(Div, Exec(Mul, Exact(a), Exact(b)).value, Exact(b)) == Ok(Exact(a))
  {
    if b != 0.0 {
      var m := Exec(Mul, Exact(a), Exact(b)).value;
      assert m == Exact(a * b);
      assert (a * b) / b == a;
      assert Exec(Div, m, Exact(b)) == Ok(Exact((a * b) / b));
    }
  }
}
