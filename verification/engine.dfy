/** The expression engine end to end: a line of text is lexed and evaluated
    by the current engine (server/lexer, server/parser) or by the older
    single-header one (server/lexer.hpp, server/parser.hpp). */
module Engine {
  import opened Errors
  import opened Numbers
  import opened Tokens
  import opened InputCursor
  import Streams
  import Lexers
  import LegacyLexing
  import opened Parsing
  import Grammar
  import Agreement

  /** Parser(input).exec() of the current engine: the lexer reads the first
      token on construction, then one expression is evaluated. */
  function Evaluate(s: string): Result<Num> {
    var st :- Lexers.StreamOf(s);
    ExecStream(Current, st)
  }

  /** Parser(input).exec() of the older engine. */
  function LegacyEvaluate(s: string): Result<Num> {
    var st :- LegacyLexing.StreamOf(s);
    ExecStream(Legacy, st)
  }

  /** The types and values of a token sequence, without positions. */
  function Plain(ts: seq<ParsedToken>): (r: seq<Token>)
    ensures |r| == |ts|
    ensures forall i :: 0 <= i < |ts| ==> r[i] == ts[i].token
  {
    seq(|ts|, i requires 0 <= i < |ts| => ts[i].token)
  }

  /** Once a line lexes without error, the parser sees exactly its tokens. */
  lemma StreamOfTokens(s: string, ts: seq<ParsedToken>)
    requires Lexers.Tokenize(s) == Ok(ts)
    ensures Lexers.StreamOf(s) == Ok(Streams.FromTokens(Plain(ts)))
  {
    var lx := Lexers.New(s).value;
    Lexers.UpcomingTokens(lx, []);
    var st := Lexers.Upcoming(lx);
    assert Streams.TokensOf(st).value == Plain(ts);
    Streams.TokensDetermineStream(st);
  }

  /** The current engine computes the reference grammar's value over the
      tokens of the line. */
  lemma EvaluateIsGrammar(s: string)
    ensures Lexers.StreamOf(s).Ok? ==> Evaluate(s) == Grammar.RefExec(Current, Lexers.StreamOf(s).value)
    ensures Lexers.StreamOf(s).Err? ==> Evaluate(s) == Err(Lexers.StreamOf(s).error)
  {
    if Lexers.StreamOf(s).Ok? {
      Agreement.ExecAgrees(Current, Lexers.StreamOf(s).value);
    }
  }

  /** When `ts` is the tokenisation of the line (whitespace between tokens,
      each token the constant lexeme or longest number at its place), the
      current engine returns the grammar's value of those tokens. */
  lemma EvaluateTokenization(s: string, ts: seq<ParsedToken>)
    requires Lexers.Covers(ts, Fresh(s))
    ensures Evaluate(s) == Grammar.RefExec(Current, Streams.FromTokens(Plain(ts)))
  {
    Lexers.TokenizeCovers(s, ts);
    StreamOfTokens(s, ts);
    EvaluateIsGrammar(s);
  }

  /** The older engine reads the same stream and evaluates it in the legacy
      dialect of the same grammar. */
  lemma LegacyEvaluateIsGrammar(s: string)
    ensures Lexers.StreamOf(s).Ok? ==> LegacyEvaluate(s) == Grammar.RefExec(Legacy, Lexers.StreamOf(s).value)
    ensures Lexers.StreamOf(s).Err? ==> LegacyEvaluate(s) == Err(Lexers.StreamOf(s).error)
  {
    LegacyLexing.SameStream(s);
    if Lexers.StreamOf(s).Ok? {
      Agreement.ExecAgrees(Legacy, Lexers.StreamOf(s).value);
    }
  }

  /** Every line the older engine evaluates, the current one evaluates to
      the same value. */
  lemma CurrentExtendsLegacy(s: string)
    requires LegacyEvaluate(s).Ok?
    ensures Evaluate(s) == LegacyEvaluate(s)
  {
    LegacyEvaluateIsGrammar(s);
    EvaluateIsGrammar(s);
    Grammar.CurrentExtendsLegacy(Lexers.StreamOf(s).value);
  }
}
