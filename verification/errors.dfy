/** Errors raised by the expression engine, and the failure-compatible
    wrappers the model uses instead of C++ exceptions.

    The server's exception classes form layers: every lexer or parser error is
    also a server error, and each layer puts its tag in front of the message
    of the layer below. */
module Errors {

  /** The exception class that was thrown, with the text given to its
      constructor. */
  datatype Error =
    | LexerError(what: string)   // LexerError, lexer::Error
    | ParserError(what: string)  // ParserError, parser::Error
    | LogicError(what: string)   // std::logic_error from the token-table checks

  const ServerTag: string := "server error: "
  const LexerTag: string := "lexer error: "
  const ParserTag: string := "parser error: "

  /** The text `what()` returns: server errors carry the server tag and then
      the tag of their own layer; a logic error carries no tag. */
  function Message(e: Error): string
  {
    match e
    case LexerError(w) => ServerTag + LexerTag + w
    case ParserError(w) => ServerTag + ParserTag + w
    case LogicError(w) => w
  }

  /** The layered tags identify the layer: a lexer error and a parser error
      never produce the same message, whatever their texts. */
  lemma TagsSeparateLayers(a: string, b: string)
    ensures Message(LexerError(a)) != Message(ParserError(b))
  {
    var m1 := Message(LexerError(a));
    var m2 := Message(ParserError(b));
    assert m1[|ServerTag|] == 'l';
    assert m2[|ServerTag|] == 'p';
  }

  /** Within one layer the message determines the error. */
  lemma MessageDeterminesServerError(e1: Error, e2: Error)
    requires !e1.LogicError? && !e2.LogicError?
    requires Message(e1) == Message(e2)
    ensures e1 == e2
  {
    if e1.LexerError? && e2.ParserError? {
      TagsSeparateLayers(e1.what, e2.what);
    } else if e1.ParserError? && e2.LexerError? {
      TagsSeparateLayers(e2.what, e1.what);
    } else if e1.LexerError? {
      var n := |ServerTag + LexerTag|;
      assert e1.what == Message(e1)[n..];
      assert e2.what == Message(e2)[n..];
    } else {
      var n := |ServerTag + ParserTag|;
      assert e1.what == Message(e1)[n..];
      assert e2.what == Message(e2)[n..];
    }
  }

  datatype Option<+T> = None | Some(value: T)

  /** A value, or the error that would have been thrown instead. */
  datatype Result<+T> = Ok(value: T) | Err(error: Error) {

    predicate IsFailure() {
      Err?
    }

    function PropagateFailure<U>(): Result<U>
      requires Err?
    {
      Err(error)
    }

    function Extract(): T
      requires Ok?
    {
      value
    }
  }
}
