/** lexer::Token and lexer::ParsedToken. */
module Tokens {
  import opened Errors
  import opened Numbers
  import opened TokenTypes

  /** A token: its type and its value. Only a number's value is observable;
      the value of any other token is the default-initialised 0.0. */
  datatype Token = Token(kind: Type, value: Num)

  const MustHaveValue: string := "internal: must have a value: "
  const NotANumber: string := "internal: not a number: "
  const CannotCompare: string := "internal: can't compare tokens of type: "

  /** Token(type): a token without a value; a type that needs a value is
      refused. */
  function MakeToken(t: Type): (r: Result<Token>)
    ensures r.Ok? <==> !TokenHasValue(t)
    ensures r.Ok? ==> r.value.kind == t
    ensures r.Err? ==> r.error == LexerError(MustHaveValue + TypeToIntString(t))
  {
    if TokenHasValue(t) then Err(LexerError(MustHaveValue + TypeToIntString(t)))
    else Ok(Token(t, Exact(0.0)))
  }

  /** Token(value): a number token. */
  function MakeNumber(v: Num): Token {
    Token(Number, v)
  }

  /** as_number: the value of a number token; any other token is refused. */
  function AsNumber(tok: Token): (r: Result<Num>)
    ensures r.Ok? <==> tok.kind == Number
    ensures r.Err? ==> r.error == LexerError(NotANumber + TypeToIntString(tok.kind))
  {
    if tok.kind != Number then Err(LexerError(NotANumber + TypeToIntString(tok.kind)))
    else Ok(tok.value)
  }

  /** A number token gives back the value it was built from. */
  lemma AsNumberOfMakeNumber(v: Num)
    ensures AsNumber(MakeNumber(v)) == Ok(v)
  {
  }

  /** operator==: tokens of different types differ; constant tokens of one
      type are equal; number tokens compare their values with NaN equal to
      NaN; comparing two whitespace tokens is an error. */
  function Equals(a: Token, b: Token): (r: Result<bool>)
    ensures a.kind != b.kind ==> r == Ok(false)
    ensures a.kind == b.kind && IsConstToken(a.kind) ==> r == Ok(true)
    ensures a.kind == b.kind == Number ==> r == Ok(a.value == b.value)
    ensures r.Err? <==> a.kind == b.kind == Whitespace
    ensures r.Err? ==> r.error == LexerError(CannotCompare + TypeToIntString(Whitespace))
  {
    if a.kind != b.kind then Ok(false)
    else if IsConstToken(a.kind) then Ok(true)
    else if a.kind == Number then
      // as_number() cannot throw here: both tokens are numbers
      Ok(NumbersEqual(AsNumber(a).value, AsNumber(b).value))
    else Err(LexerError(CannotCompare + TypeToIntString(a.kind)))
  }

  /** Where it is defined, token equality is an equivalence relation. */
  lemma EqualsIsEquivalence(a: Token, b: Token, c: Token)
    requires a.kind != Whitespace
    ensures Equals(a, a) == Ok(true)
    ensures Equals(a, b) == Equals(b, a)
    ensures Equals(a, b) == Ok(true) && Equals(b, c) == Ok(true) ==> Equals(a, c) == Ok(true)
  {
  }

  /** lexer::ParsedToken: a token with the offset and the text it was read
      from. */
  datatype ParsedToken = ParsedToken(token: Token, pos: nat, view: string)

  /** get_length: the length of the text the token was read from. */
  function Length(p: ParsedToken): nat {
    |p.view|
  }

  /** ParsedToken inherits Token::operator==. */
  function ParsedEquals(a: ParsedToken, b: ParsedToken): Result<bool> {
    Equals(a.token, b.token)
  }

  /** Where a token was read and how long its text was play no part in
      equality. */
  lemma ParsedEqualityIgnoresPlacement(a: ParsedToken, b: ParsedToken, a': ParsedToken, b': ParsedToken)
    requires a.token == a'.token && b.token == b'.token
    ensures ParsedEquals(a, b) == ParsedEquals(a', b')
  {
  }
}
