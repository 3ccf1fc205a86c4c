/** The older single-header lexer (server/lexer.hpp). It recognises the same
    tokens with the same patterns, but it keeps no offsets, its tokens store
    a NaN where a constant token has no value, its constructor reads
    nothing, and the public parse_token leaves the buffer alone once the
    input is used up. The parser of the same vintage (server/parser.hpp) is
    the `Legacy` dialect of the shared evaluator. */
module LegacyLexing {
  import opened Errors
  import opened Numbers
  import opened TokenTypes
  import opened Tokens
  import opened Recognisers
  import opened InputCursor
  import Streams
  import Lexers

  /** Token::Type: the current types without whitespace. */
  type LegacyType = t: Type | t != Whitespace witness Plus

  /** lexer::Token: a type and a number value, NaN unless built from a
      number. */
  datatype LegacyToken = LegacyToken(kind: LegacyType, value: Num)

  /** Token(Type). */
  function OfType(t: LegacyType): LegacyToken {
    LegacyToken(t, NaN)
  }

  /** Token(double). */
  function OfNumber(v: Num): LegacyToken {
    LegacyToken(Number, v)
  }

  /** operator==: the same type, and values that are both NaN or equal. */
  predicate TokensEqual(a: LegacyToken, b: LegacyToken) {
    a.kind == b.kind && ((a.value.NaN? && b.value.NaN?) || IeeeEqual(a.value, b.value))
  }

  /** Because two NaNs count as equal, operator== is exactly structural
      equality, so it is an equivalence; in particular two constant tokens
      of one type are always equal. */
  lemma TokensEqualIsIdentity(a: LegacyToken, b: LegacyToken)
    ensures TokensEqual(a, b) <==> a == b
    ensures TokensEqual(OfType(a.kind), OfType(a.kind))
  {
  }

  const NotANumberToken: string := "token must be a number to query its value"

  /** get_number_value: only a number token has a value to query. */
  function GetNumberValue(t: LegacyToken): (r: Result<Num>)
    ensures r.Ok? <==> t.kind == Number
    ensures r.Err? ==> r.error == LexerError(NotANumberToken)
  {
    if t.kind != Number then Err(LexerError(NotANumberToken)) else Ok(t.value)
  }

  /** A number token gives back its number; a token built from a type gives
      back nothing, even Token(NUMBER), whose value is NaN. */
  lemma GetNumberValueRoundTrip(v: Num, t: LegacyType)
    ensures GetNumberValue(OfNumber(v)) == Ok(v)
    ensures GetNumberValue(OfType(t)).Ok? <==> t == Number
    ensures t == Number ==> GetNumberValue(OfType(t)) == Ok(NaN)
  {
  }

  /** The token the current lexer would report for this one: the same type
      and number, with the 0.0 the current tokens carry in place of NaN. */
  function Canon(t: LegacyToken): Token {
    Token(t.kind, if t.kind == Number then t.value else Exact(0.0))
  }

  // ---------------------------------------------------------- recognisers

  /** The table of parse_const_token, in the order it is written. */
  const ConstTable: seq<(Type, string)> := [
    (LeftParen, "("),
    (RightParen, ")"),
    (Plus, "+"),
    (Minus, "-"),
    (Asterisk, "*"),
    (Slash, "/")
  ]

  /** parse_const_token: the first entry of `table` whose lexeme starts `s`. */
  function ParseConstIn(table: seq<(Type, string)>, s: string): (r: Option<(Type, string)>)
    ensures r.Some? ==> r.value in table && StartsWith(s, r.value.1)
    ensures r.None? ==> forall i :: 0 <= i < |table| ==> !StartsWith(s, table[i].1)
  {
    if |table| == 0 then None
    else if StartsWith(s, table[0].1) then Some(table[0])
    else ParseConstIn(table[1..], s)
  }

  function Types(table: seq<(Type, string)>): (ts: seq<Type>)
    ensures |ts| == |table|
    ensures forall i :: 0 <= i < |table| ==> ts[i] == table[i].0
  {
    if |table| == 0 then [] else [table[0].0] + Types(table[1..])
  }

  /** Each lexeme of the legacy table is the current to-string of its type,
      and the table lists exactly the constant types. */
  lemma ConstTableIsTypeStrings()
    ensures forall i :: 0 <= i < |ConstTable| ==> ConstTable[i].1 == TypeToString(ConstTable[i].0)
    ensures forall t :: t in Types(ConstTable) <==> IsConstToken(t)
  {
    ConstTableLexemes();
    ConstTableTypes();
  }

  lemma ConstTableLexemes()
    ensures forall i :: 0 <= i < |ConstTable| ==> ConstTable[i].1 == TypeToString(ConstTable[i].0)
  {
    forall i | 0 <= i < |ConstTable| ensures ConstTable[i].1 == TypeToString(ConstTable[i].0) {
      EntryOfType(ConstTable[i].0);
      if i == 0 {} else if i == 1 {} else if i == 2 {} else if i == 3 {} else if i == 4 {} else {}
    }
  }

  lemma ConstTableEntryFacts(e: (Type, string))
    requires e in ConstTable
    ensures IsConstToken(e.0) && |e.1| == 1
  {
  }

  lemma ConstTableTypes()
    ensures forall t :: t in Types(ConstTable) <==> IsConstToken(t)
  {
    var ts := Types(ConstTable);
    assert ts == [LeftParen, RightParen, Plus, Minus, Asterisk, Slash];
  }

  lemma {:induction false} ParseConstInAgrees(table: seq<(Type, string)>, s: string)
    requires forall i :: 0 <= i < |table| ==> table[i].1 == TypeToString(table[i].0)
    ensures ParseConstIn(table, s) == ParseConstTokenIn(Types(table), s)
  {
    if |table| > 0 {
      assert Types(table)[1..] == Types(table[1..]);
      ParseConstInAgrees(table[1..], s);
    }
  }

  /** A table that pairs exactly the constant types with their current
      lexemes recognises exactly what the current lexer does, in whatever
      order the unordered_map walks it. */
  lemma ParseConstAgrees(table: seq<(Type, string)>, s: string)
    requires forall i :: 0 <= i < |table| ==> table[i].1 == TypeToString(table[i].0)
    requires forall t :: t in Types(table) <==> IsConstToken(t)
    ensures ParseConstIn(table, s) == ParseConstToken(s)
  {
    ParseConstInAgrees(table, s);
    ParseConstTokenOrderIrrelevant(Types(table), s);
  }

  /** The tail of the private parse_token(token_view), at text that does
      not start with whitespace: a constant lexeme, then a number, then
      invalid input. Returns the token and what is left after it. */
  function ReadLexeme(rest: string): (r: Result<(LegacyToken, string)>)
    ensures r.Ok? ==> |r.value.1| < |rest|
  {
    match ParseConstIn(ConstTable, rest)
    case Some((t, lexeme)) =>
      ConstTableEntryFacts((t, lexeme));
      Ok((OfType(t), rest[|lexeme|..]))
    case None =>
      var n :- ParseNumber(rest);
      match n
      case Some((v, lexeme)) => Ok((OfNumber(v), rest[|lexeme|..]))
      case None => Err(LexerError(Lexers.InvalidInput + rest))
  }

  /** The private parse_token(token_view): skip whitespace; at the end of
      the input there is no token; otherwise read one. Returns the token
      and what is left after it. */
  function ReadToken(s: string): (r: Result<(Option<LegacyToken>, string)>)
    ensures r.Ok? ==> |r.value.1| <= |s|
    ensures r.Ok? && r.value.0.Some? ==> |r.value.1| < |s|
    ensures r.Ok? && r.value.0.None? ==> r.value.1 == [] && AllSpace(s)
  {
    var ws := ParseWhitespace(s);
    var rest := s[|ws|..];
    if |rest| == 0 then
      assert s == ws;
      Ok((None, rest))
    else
      var p :- ReadLexeme(rest);
      Ok((Some(p.0), p.1))
  }

  // ----------------------------------------------------------------- lexer

  /** Lexer: the unread input and the buffered token. */
  datatype LegacyLexer = LegacyLexer(input: string, buffer: Option<LegacyToken>)

  function Size(lx: LegacyLexer): nat {
    |lx.input| + (if lx.buffer.Some? then 1 else 0)
  }

  /** Lexer(input): the constructor reads nothing. */
  function New(s: string): (lx: LegacyLexer)
    ensures lx.input == s && lx.buffer.None?
  {
    LegacyLexer(s, None)
  }

  /** The public parse_token(): nothing at all happens once the input is
      used up; otherwise the buffer is replaced by the next token, or by
      nothing when only whitespace is left. */
  function LexToken(lx: LegacyLexer): (r: Result<LegacyLexer>)
    ensures |lx.input| == 0 ==> r == Ok(lx)
    ensures |lx.input| > 0 && r.Ok? ==> Size(r.value) <= |lx.input|
    ensures |lx.input| > 0 && r.Ok? ==> (r.value.buffer.None? <==> AllSpace(lx.input))
  {
    if |lx.input| == 0 then Ok(lx)
    else
      var p :- ReadToken(lx.input);
      Ok(LegacyLexer(p.1, p.0))
  }

  /** A token buffered when the input still holds more is silently
      overwritten by parse_token(): reading ignores the buffer entirely. */
  lemma LexTokenOverwrites(lx: LegacyLexer)
    requires |lx.input| > 0
    ensures LexToken(lx) == LexToken(LegacyLexer(lx.input, None))
  {
  }

  /** For instance, a buffered token followed by "(" is lost. */
  lemma LexTokenOverwritesExample(t: LegacyToken)
    ensures LexToken(LegacyLexer("(", Some(t))).Ok?
    ensures LexToken(LegacyLexer("(", Some(t))).value.buffer == Some(OfType(LeftParen))
  {
    var s := "(";
    assert ParseWhitespace(s) == [];
    assert s[0..] == s;
    assert StartsWith(s, ConstTable[0].1);
  }

  predicate HasToken(lx: LegacyLexer) {
    lx.buffer.Some?
  }

  function PeekToken(lx: LegacyLexer): Option<LegacyToken> {
    lx.buffer
  }

  /** drop_token: refused when nothing is buffered; otherwise empty the
      buffer and read the next token. */
  function DropToken(lx: LegacyLexer): (r: Result<LegacyLexer>)
    ensures !HasToken(lx) ==> r == Err(LexerError(Streams.NoTokensToDrop))
    ensures r.Ok? ==> Size(r.value) < Size(lx)
  {
    if !HasToken(lx) then Err(LexerError(Streams.NoTokensToDrop))
    else LexToken(LegacyLexer(lx.input, None))
  }

  /** drop_token_if: drop and return the buffered token only when it has the
      given type. */
  function DropTokenIf(lx: LegacyLexer, t: LegacyType): (r: Result<(Option<LegacyToken>, LegacyLexer)>)
    ensures !HasToken(lx) ==> r == Err(LexerError(Streams.NoTokensToDrop))
    ensures HasToken(lx) && lx.buffer.value.kind != t ==> r == Ok((None, lx))
    ensures r.Ok? && r.value.0.Some? ==> r.value.0 == lx.buffer && r.value.0.value.kind == t
  {
    if !HasToken(lx) then Err(LexerError(Streams.NoTokensToDrop))
    else if lx.buffer.value.kind != t then Ok((None, lx))
    else
      var lx' :- DropToken(lx);
      Ok((lx.buffer, lx'))
  }

  /** The loop of for_each_token. */
  function ForEachBuffered<S>(lx: LegacyLexer, process: (S, LegacyToken) -> (S, bool), state: S): (r: Result<(S, bool)>)
    ensures lx.buffer.None? ==> r == Ok((state, true))
    ensures lx.buffer.Some? && !process(state, lx.buffer.value).1 ==> r == Ok((process(state, lx.buffer.value).0, false))
    ensures r.Ok? && !r.value.1 ==> lx.buffer.Some?
    decreases Size(lx)
  {
    match lx.buffer
    case None => Ok((state, true))
    case Some(t) =>
      var (state', go) := process(state, t);
      if !go then Ok((state', false))
      else
        var lx' :- DropToken(lx);
        ForEachBuffered(lx', process, state')
  }

  /** for_each_token: read the first token, then loop. */
  function ForEachToken<S>(lx: LegacyLexer, process: (S, LegacyToken) -> (S, bool), state: S): Result<(S, bool)> {
    var lx' :- LexToken(lx);
    ForEachBuffered(lx', process, state)
  }

  function Collect(acc: seq<LegacyToken>, t: LegacyToken): (seq<LegacyToken>, bool) {
    (acc + [t], true)
  }

  /** get_tokens. */
  function GetTokens(lx: LegacyLexer): Result<seq<LegacyToken>> {
    var p :- ForEachToken(lx, Collect, []);
    Ok(p.0)
  }

  // ------------------------------------------------------------ the parser's view

  /** The token stream a parser sees through has/peek/drop_token(_if). */
  function Upcoming(lx: LegacyLexer): (st: Streams.Stream)
    ensures Streams.HasToken(st) <==> HasToken(lx)
    decreases Size(lx)
  {
    match lx.buffer
    case None => Streams.End
    case Some(t) =>
      Streams.Next(Canon(t), match DropToken(lx) case Err(e) => Err(e) case Ok(next) => Ok(Upcoming(next)))
  }

  /** Parser::exec starts by reading the first token. */
  function StreamOf(s: string): Result<Streams.Stream> {
    var lx :- LexToken(New(s));
    Ok(Upcoming(lx))
  }

  /** The stream operations mirror the lexer's, up to the canonical form of
      the tokens. */
  lemma StreamMirrorsLexer(lx: LegacyLexer, t: LegacyType)
    ensures Streams.PeekToken(Upcoming(lx)) == (if lx.buffer.Some? then Some(Canon(lx.buffer.value)) else None)
    ensures Streams.DropToken(Upcoming(lx)) ==
      (match DropToken(lx) case Err(e) => Err(e) case Ok(next) => Ok(Upcoming(next)))
    ensures Streams.DropTokenOfType(Upcoming(lx), t) ==
      (match DropTokenIf(lx, t)
       case Err(e) => Err(e)
       case Ok((tok, next)) => Ok((if tok.Some? then Some(Canon(tok.value)) else None, Upcoming(next))))
  {
  }

  // ------------------------------------------------- the two lexers compared

  /** A current lexer and a legacy one in corresponding states: the same
      text left, and the same buffered token up to its canonical form. */
  predicate Corresponds(cur: Lexers.Lexer, leg: LegacyLexer) {
    && cur.input.rest == leg.input
    && (cur.buffer.None? <==> leg.buffer.None?)
    && (cur.buffer.Some? ==> cur.buffer.value.token == Canon(leg.buffer.value))
  }

  /** One read: consume_token of the current lexer and parse_token() of the
      legacy one, on an empty buffer, fail with the same error or reach
      corresponding states. */
  lemma LexemeAgrees(w: Input)
    ensures Lexers.ParseToken(w).Err? <==> ReadLexeme(w.rest).Err?
    ensures Lexers.ParseToken(w).Err? ==> Lexers.ParseToken(w).error == ReadLexeme(w.rest).error
    ensures Lexers.ParseToken(w).Ok? ==>
      var t := Lexers.ParseToken(w).value;
      && t.token == Canon(ReadLexeme(w.rest).value.0)
      && |t.view| <= |w.rest|
      && w.rest[|t.view|..] == ReadLexeme(w.rest).value.1
  {
    ConstTableIsTypeStrings();
    ParseConstAgrees(ConstTable, w.rest);
    match ParseConstToken(w.rest)
    case Some((t, lexeme)) =>
      ConstTokenOrderComplete(t);
      ParseConstTokenSpec(w.rest, t);
    case None =>
  }

  lemma ReadAgrees(inp: Input)
    ensures Lexers.ConsumeToken(inp).Err? <==> LexToken(LegacyLexer(inp.rest, None)).Err?
    ensures Lexers.ConsumeToken(inp).Err? ==>
      Lexers.ConsumeToken(inp).error == LexToken(LegacyLexer(inp.rest, None)).error
    ensures Lexers.ConsumeToken(inp).Ok? ==>
      Corresponds(Lexers.ConsumeToken(inp).value, LexToken(LegacyLexer(inp.rest, None)).value)
  {
    if !Empty(inp) {
      var w := Lexers.ConsumeWhitespace(inp);
      var ws := ParseWhitespace(inp.rest);
      assert w.rest == inp.rest[|ws|..];
      if !Empty(w) {
        LexemeAgrees(w);
      }
    }
  }

  /** Corresponding lexers present the parser with the same stream. */
  lemma {:induction false} UpcomingAgrees(cur: Lexers.Lexer, leg: LegacyLexer)
    requires Corresponds(cur, leg)
    ensures Lexers.Upcoming(cur) == Upcoming(leg)
    decreases Size(leg)
  {
    if cur.buffer.Some? {
      ReadAgrees(cur.input);
      if Lexers.DropToken(cur).Ok? {
        UpcomingAgrees(Lexers.DropToken(cur).value, DropToken(leg).value);
      }
    }
  }

  /** The two lexers hand the parser the same token stream on every line:
      the same tokens, and the same error at the same point. */
  lemma SameStream(s: string)
    ensures StreamOf(s) == Lexers.StreamOf(s)
  {
    ReadAgrees(Fresh(s));
    var c := Lexers.New(s);
    if c.Ok? {
      UpcomingAgrees(c.value, LexToken(New(s)).value);
    }
  }
  /** `got` is `acc` followed by tokens whose canonical forms are `ts`. */
  ghost predicate CollectedAfter(got: seq<LegacyToken>, acc: seq<LegacyToken>, ts: seq<Token>) {
    && |got| == |acc| + |ts|
    && got[..|acc|] == acc
    && forall i :: 0 <= i < |ts| ==> Canon(got[|acc| + i]) == ts[i]
  }

  lemma CollectedStep(got: seq<LegacyToken>, acc: seq<LegacyToken>, t: LegacyToken, ts: seq<Token>)
    requires CollectedAfter(got, acc + [t], ts)
    ensures CollectedAfter(got, acc, [Canon(t)] + ts)
  {
    assert got[..|acc| + 1] == acc + [t];
    assert got[..|acc|] == (acc + [t])[..|acc|];
    forall i | 0 <= i < 1 + |ts|
      ensures Canon(got[|acc| + i]) == ([Canon(t)] + ts)[i]
    {
      if i == 0 {
        assert got[|acc|] == got[..|acc| + 1][|acc|];
      } else {
        assert got[|acc| + i] == got[|acc + [t]| + (i - 1)];
      }
    }
  }

  /** The loop of for_each_token collects exactly the tokens of the stream
      the parser sees, and fails with the stream's error. */
  lemma {:induction false} BufferedTokens(lx: LegacyLexer, acc: seq<LegacyToken>)
    ensures Streams.TokensOf(Upcoming(lx)).Ok? <==> ForEachBuffered(lx, Collect, acc).Ok?
    ensures Streams.TokensOf(Upcoming(lx)).Ok? ==>
      CollectedAfter(ForEachBuffered(lx, Collect, acc).value.0, acc, Streams.TokensOf(Upcoming(lx)).value)
    ensures Streams.TokensOf(Upcoming(lx)).Err? ==>
      Streams.TokensOf(Upcoming(lx)).error == ForEachBuffered(lx, Collect, acc).error
    decreases Size(lx)
  {
    if lx.buffer.Some? {
      var t := lx.buffer.value;
      match DropToken(lx)
      case Err(e) =>
      case Ok(next) =>
        BufferedTokens(next, acc + [t]);
        var rest := Streams.TokensOf(Upcoming(next));
        if rest.Ok? {
          assert ForEachBuffered(lx, Collect, acc) == ForEachBuffered(next, Collect, acc + [t]);
          assert Streams.TokensOf(Upcoming(lx)).value == [Canon(t)] + rest.value;
          CollectedStep(ForEachBuffered(lx, Collect, acc).value.0, acc, t, rest.value);
        }
    }
  }

  /** On every line the older lexer's get_tokens and the current one's
      succeed together, fail with the same error, and return the same
      tokens up to their canonical form. */
  lemma GetTokensAgree(s: string)
    ensures GetTokens(New(s)).Ok? <==> Lexers.Tokenize(s).Ok?
    ensures GetTokens(New(s)).Err? ==> GetTokens(New(s)).error == Lexers.Tokenize(s).error
    ensures GetTokens(New(s)).Ok? ==>
      var leg := GetTokens(New(s)).value;
      var cur := Lexers.Tokenize(s).value;
      |leg| == |cur| && forall i :: 0 <= i < |leg| ==> Canon(leg[i]) == cur[i].token
  {
    ReadAgrees(Fresh(s));
    var c := Lexers.New(s);
    if c.Ok? {
      var lx := LexToken(New(s)).value;
      SameStream(s);
      var ts := Streams.TokensOf(Upcoming(lx));
      assert ts == Streams.TokensOf(Lexers.Upcoming(c.value));
      BufferedTokens(lx, []);
      Lexers.UpcomingTokens(c.value, []);
      var l := ForEachBuffered(lx, Collect, []);
      var r := Lexers.ForEachToken(c.value, Lexers.Collect, []);
      assert GetTokens(New(s)) == (if l.Ok? then Ok(l.value.0) else Err(l.error));
      assert Lexers.Tokenize(s) == (if r.Ok? then Ok(r.value.0) else Err(r.error));
      if ts.Ok? {
        AgreeOnTokens(l.value.0, r.value.0, ts.value);
      }
    }
  }

  lemma AgreeOnTokens(leg: seq<LegacyToken>, cur: seq<ParsedToken>, ts: seq<Token>)
    requires CollectedAfter(leg, [], ts) && Lexers.CollectedAfter(cur, [], ts)
    ensures |leg| == |cur| && forall i :: 0 <= i < |leg| ==> Canon(leg[i]) == cur[i].token
  {
    forall i | 0 <= i < |leg| ensures Canon(leg[i]) == cur[i].token {
      var noLeg: seq<LegacyToken> := [];
      var noCur: seq<ParsedToken> := [];
      assert Canon(leg[|noLeg| + i]) == ts[i];
      assert cur[|noCur| + i].token == ts[i];
    }
  }
}
