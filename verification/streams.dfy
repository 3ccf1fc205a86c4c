/** What a parser can observe of a lexer with one token of lookahead: the
    token it may peek at, and what dropping that token leads to, which is
    either the rest of the token stream or the error the lexer throws while
    reading the next token. Both lexers of the server are abstracted to this
    shape, and the parser is written against it. */
module Streams {
  import opened Errors
  import opened TokenTypes
  import opened Tokens

  datatype Stream =
    | End
    | Next(token: Token, rest: Result<Stream>)

  /** The number of tokens still to come, the failing read counted as one. */
  function Len(st: Stream): nat {
    match st
    case End => 0
    case Next(_, Ok(r)) => 1 + Len(r)
    case Next(_, Err(_)) => 1
  }

  const NoTokensToDrop: string := "internal: no tokens to drop"

  /** has_token. */
  predicate HasToken(st: Stream) {
    st.Next?
  }

  /** peek_token. */
  function PeekToken(st: Stream): (r: Option<Token>)
    ensures r.Some? <==> HasToken(st)
    ensures r.Some? ==> r.value == st.token
  {
    match st
    case End => None
    case Next(t, _) => Some(t)
  }

  /** drop_token: refused when there is nothing to drop; otherwise the lexer
      reads the next token, which may fail. */
  function DropToken(st: Stream): (r: Result<Stream>)
    ensures !HasToken(st) ==> r == Err(LexerError(NoTokensToDrop))
    ensures HasToken(st) ==> r == st.rest
    ensures r.Ok? ==> Len(r.value) + 1 == Len(st)
  {
    match st
    case End => Err(LexerError(NoTokensToDrop))
    case Next(_, rest) => rest
  }

  /** drop_token_of_type: nothing happens unless the next token has the
      given type; then that token is dropped and returned. */
  function DropTokenOfType(st: Stream, t: Type): (r: Result<(Option<Token>, Stream)>)
    ensures !HasToken(st) ==> r == Err(LexerError(NoTokensToDrop))
    ensures HasToken(st) && st.token.kind != t ==> r == Ok((None, st))
    ensures HasToken(st) && st.token.kind == t ==>
      (r.Err? <==> st.rest.Err?) && (r.Err? ==> r.error == st.rest.error)
    ensures r.Ok? && r.value.0.Some? ==>
      HasToken(st) && r.value.0.value == st.token && st.token.kind == t
      && st.rest == Ok(r.value.1) && Len(r.value.1) + 1 == Len(st)
    ensures r.Ok? && r.value.0.None? ==> r.value.1 == st
  {
    if !HasToken(st) then Err(LexerError(NoTokensToDrop))
    else if st.token.kind != t then Ok((None, st))
    else
      var rest :- DropToken(st);
      Ok((Some(st.token), rest))
  }

  /** Every token still to come, or the first error met on the way. */
  function TokensOf(st: Stream): (r: Result<seq<Token>>)
    ensures r.Ok? ==> |r.value| == Len(st)
    ensures r.Ok? && HasToken(st) ==> r.value[0] == st.token
  {
    match st
    case End => Ok([])
    case Next(t, Err(e)) => Err(e)
    case Next(t, Ok(st')) =>
      var ts :- TokensOf(st');
      Ok([t] + ts)
  }

  /** The error-free stream of the given tokens. */
  function FromTokens(ts: seq<Token>): (st: Stream)
    ensures Len(st) == |ts|
    ensures TokensOf(st) == Ok(ts)
  {
    if |ts| == 0 then End
    else
      assert ts == [ts[0]] + ts[1..];
      Next(ts[0], Ok(FromTokens(ts[1..])))
  }

  /** An error-free stream is determined by its tokens. */
  lemma {:induction false} TokensDetermineStream(st: Stream)
    requires TokensOf(st).Ok?
    ensures st == FromTokens(TokensOf(st).value)
  {
    if st.Next? {
      TokensDetermineStream(st.rest.value);
      assert TokensOf(st).value[1..] == TokensOf(st.rest.value).value;
    }
  }
}
