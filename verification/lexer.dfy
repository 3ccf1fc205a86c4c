/** The current lexer (server/lexer): a cursor over the input and a buffer
    holding the one token read ahead. Every operation that can throw returns
    a Result; the lexer state it returns replaces the old one. */
module Lexers {
  import opened Errors
  import opened Numbers
  import opened TokenTypes
  import opened Tokens
  import opened InputCursor
  import opened Recognisers
  import Streams

  datatype Lexer = Lexer(input: Input, buffer: Option<ParsedToken>)

  /** What is left to read: the unread characters and the buffered token. */
  function Size(lx: Lexer): nat {
    |lx.input.rest| + (if lx.buffer.Some? then 1 else 0)
  }

  const InvalidInput: string := "invalid input at: "

  // ------------------------------------------------------ the token grammar

  /** `t` is the token the text at the cursor `inp` starts with: a constant
      lexeme, or the longest number the number pattern matches there. */
  ghost predicate TokenAt(t: ParsedToken, inp: Input) {
    && t.pos == inp.pos
    && 0 < |t.view| <= |inp.rest|
    && t.view == inp.rest[..|t.view|]
    && (|| (IsConstToken(t.token.kind) && t.view == TypeToString(t.token.kind) && t.token.value == Exact(0.0))
        || (&& t.token.kind == Number
            && LongestMatch(inp.rest, |t.view|)
            && IsNumberLexeme(t.view)
            && t.token.value == Exact(LexemeValue(t.view))))
  }

  /** No token starts `s`: neither a constant lexeme nor a number. */
  ghost predicate NothingStarts(s: string) {
    && (forall t :: IsConstToken(t) ==> !StartsWith(s, TypeToString(t)))
    && (forall k {:trigger MatchesNumberRegex(s[..k])} :: 0 <= k <= |s| ==> !MatchesNumberRegex(s[..k]))
  }

  // --------------------------------------------------------------- scanning

  /** consume_whitespace: skip the whitespace at the cursor. */
  function ConsumeWhitespace(inp: Input): (r: Input)
    ensures inp.pos <= r.pos <= inp.pos + |inp.rest|
    ensures inp.rest == inp.rest[..r.pos - inp.pos] + r.rest
    ensures AllSpace(inp.rest[..r.pos - inp.pos])
    ensures |r.rest| > 0 ==> !IsSpace(r.rest[0])
  {
    var ws := ParseWhitespace(inp.rest);
    if |ws| == 0 then inp
    else
      // consume() cannot throw: the whitespace was read from the input
      Consume(inp, |ws|).value
  }

  /** parse_token: a constant lexeme first, then a number; anything else is
      invalid input. What it reads is stated by ParseTokenSound. */
  function ParseToken(inp: Input): (r: Result<ParsedToken>)
    ensures r.Ok? ==> r.value.pos == inp.pos && 0 < |r.value.view| <= |inp.rest|
  {
    match ParseConstToken(inp.rest)
    case Some((t, view)) =>
      ConstTokenOrderComplete(t);
      ConstLexemeChar(t);
      // Token(type) cannot throw: a constant type carries no value
      Ok(ParsedToken(MakeToken(t).value, inp.pos, view))
    case None =>
      var n :- ParseNumber(inp.rest);
      match n
      case Some((v, view)) => Ok(ParsedToken(MakeNumber(v), inp.pos, view))
      case None => Err(LexerError(InvalidInput + inp.rest))
  }

  /** parse_token reads the token the text starts with; it reports invalid
      input exactly when no token starts there, and otherwise fails only on
      a malformed number. */
  lemma ParseTokenSound(inp: Input)
    ensures ParseToken(inp).Ok? ==> TokenAt(ParseToken(inp).value, inp)
    ensures ParseToken(inp) == Err(LexerError(InvalidInput + inp.rest)) <==> NothingStarts(inp.rest)
    ensures ParseToken(inp).Err? && !NothingStarts(inp.rest) ==>
      MatchNumber(inp.rest).Err? && ParseToken(inp).error == MatchNumber(inp.rest).error
  {
    match ParseConstToken(inp.rest)
    case Some((t, view)) =>
      ConstTokenOrderComplete(t);
      ParseConstTokenSpec(inp.rest, t);
    case None =>
      ParseConstTokenNone(inp.rest);
      NumberErrorIsNotInvalidInput(inp.rest);
      ParseNumberSound(inp.rest);
  }

  lemma ParseConstTokenNone(s: string)
    requires ParseConstToken(s).None?
    ensures forall t :: IsConstToken(t) ==> !StartsWith(s, TypeToString(t))
  {
    forall t | IsConstToken(t) ensures !StartsWith(s, TypeToString(t)) {
      ConstTokenOrderComplete(t);
    }
  }

  lemma NumberErrorIsNotInvalidInput(s: string)
    ensures MatchNumber(s).Err? ==> MatchNumber(s).error != LexerError(InvalidInput + s)
  {
    if MatchNumber(s).Err? {
      MatchNumberSpec(s);
      var n: nat :| LongestMatch(s, n) && MatchNumber(s).error == LexerError(ExponentHasNoDigits + s[..n]);
      assert (ExponentHasNoDigits + s[..n])[0] == 'e';
      assert (InvalidInput + s)[0] == 'i';
    }
  }

  /** `t` is the first token at the cursor `inp`: it follows nothing but
      whitespace, and the text at its position starts with it. */
  ghost predicate FirstToken(inp: Input, t: ParsedToken) {
    && inp.pos <= t.pos
    && t.pos - inp.pos + |t.view| <= |inp.rest|
    && AllSpace(inp.rest[..t.pos - inp.pos])
    && TokenAt(t, Input(t.pos, inp.rest[t.pos - inp.pos..]))
  }

  /** The cursor just after the token `t`. */
  function After(inp: Input, t: ParsedToken): (r: Input)
    requires inp.pos <= t.pos && t.pos - inp.pos + |t.view| <= |inp.rest|
    ensures |r.rest| < |inp.rest| || |t.view| == 0
  {
    Input(t.pos + |t.view|, inp.rest[t.pos - inp.pos + |t.view|..])
  }

  lemma TokenAfterSpace(inp: Input, w: Input, t: ParsedToken)
    requires inp.pos <= w.pos <= inp.pos + |inp.rest|
    requires inp.rest == inp.rest[..w.pos - inp.pos] + w.rest
    requires AllSpace(inp.rest[..w.pos - inp.pos])
    requires TokenAt(t, w)
    ensures FirstToken(inp, t)
    ensures Consume(w, Length(t)) == Ok(After(inp, t))
  {
    SuffixAfterPrefix(inp.rest, w.pos - inp.pos, w.rest);
    assert Input(t.pos, inp.rest[w.pos - inp.pos..]) == w;
    ConsumeAfter(inp, w, t);
  }

  /** Consuming a token read after whitespace leaves the cursor just after
      the token. */
  lemma ConsumeAfter(inp: Input, w: Input, t: ParsedToken)
    requires inp.pos <= w.pos <= inp.pos + |inp.rest|
    requires inp.rest[w.pos - inp.pos..] == w.rest
    requires t.pos == w.pos && |t.view| <= |w.rest|
    ensures inp.pos <= t.pos && t.pos - inp.pos + |t.view| <= |inp.rest|
    ensures Consume(w, Length(t)) == Ok(After(inp, t))
  {
    assert w.rest[|t.view|..] == inp.rest[w.pos - inp.pos + |t.view|..];
  }

  lemma SuffixAfterPrefix(s: string, k: nat, u: string)
    requires k <= |s|
    requires s == s[..k] + u
    ensures s[k..] == u
  {
  }

  /** consume_token: skip whitespace and, unless that ends the input, read
      one token into the buffer. What it reads is stated by
      ConsumeTokenSound. */
  function ConsumeToken(inp: Input): (r: Result<Lexer>)
    ensures r.Ok? ==> Size(r.value) <= |inp.rest|
    ensures r.Ok? && r.value.buffer.None? ==> AllSpace(inp.rest) && r.value.input.rest == []
  {
    if Empty(inp) then Ok(Lexer(inp, None))
    else
      var w := ConsumeWhitespace(inp);
      if Empty(w) then
        assert inp.rest == inp.rest[..w.pos - inp.pos];
        Ok(Lexer(w, None))
      else
        var t :- ParseToken(w);
        // consume() cannot throw: the token was read from the input
        Ok(Lexer(Consume(w, Length(t)).value, Some(t)))
  }

  /** The token consume_token buffers is the first token at the cursor, and
      the cursor moves just past it. */
  lemma ConsumeTokenSound(inp: Input)
    ensures ConsumeToken(inp).Ok? && ConsumeToken(inp).value.buffer.Some? ==>
      var lx := ConsumeToken(inp).value;
      FirstToken(inp, lx.buffer.value) && lx.input == After(inp, lx.buffer.value)
  {
    if !Empty(inp) {
      var w := ConsumeWhitespace(inp);
      if !Empty(w) && ParseToken(w).Ok? {
        ParseTokenSound(w);
        TokenAfterSpace(inp, w, ParseToken(w).value);
      }
    }
  }

  /** Lexer(input): read the first token at once. */
  function New(s: string): Result<Lexer> {
    ConsumeToken(Fresh(s))
  }

  // ------------------------------------------------ the lookahead interface

  predicate HasToken(lx: Lexer) {
    lx.buffer.Some?
  }

  function PeekToken(lx: Lexer): Option<ParsedToken> {
    lx.buffer
  }

  /** drop_token: refused when nothing is buffered; otherwise read the next
      token, which may fail. */
  function DropToken(lx: Lexer): (r: Result<Lexer>)
    ensures !HasToken(lx) ==> r == Err(LexerError(Streams.NoTokensToDrop))
    ensures r.Ok? ==> Size(r.value) < Size(lx)
  {
    if !HasToken(lx) then Err(LexerError(Streams.NoTokensToDrop))
    else ConsumeToken(lx.input)
  }

  /** drop_token_of_type: drop and return the buffered token only if it has
      the given type. */
  function DropTokenOfType(lx: Lexer, t: Type): (r: Result<(Option<ParsedToken>, Lexer)>)
    ensures !HasToken(lx) ==> r == Err(LexerError(Streams.NoTokensToDrop))
    ensures HasToken(lx) && lx.buffer.value.token.kind != t ==> r == Ok((None, lx))
    ensures r.Ok? && r.value.0.Some? ==> r.value.0 == lx.buffer && r.value.0.value.token.kind == t
  {
    if !HasToken(lx) then Err(LexerError(Streams.NoTokensToDrop))
    else if lx.buffer.value.token.kind != t then Ok((None, lx))
    else
      var lx' :- DropToken(lx);
      Ok((lx.buffer, lx'))
  }

  /** for_each_token: hand every token to `process`, threading the state the
      callback keeps, until it declines one or the tokens run out. A declined
      token ends the walk before the next token is read, so a lexer error
      further on in the line is never raised. */
  function ForEachToken<S>(lx: Lexer, process: (S, ParsedToken) -> (S, bool), state: S): (r: Result<(S, bool)>)
    ensures lx.buffer.None? ==> r == Ok((state, true))
    ensures lx.buffer.Some? && !process(state, lx.buffer.value).1 ==> r == Ok((process(state, lx.buffer.value).0, false))
    ensures r.Ok? && !r.value.1 ==> lx.buffer.Some?
    decreases Size(lx)
  {
    match lx.buffer
    case None => Ok((state, true))
    case Some(t) =>
      var (state', go) := process(state, t);
      if !go then Ok((state', false))
      else
        var lx' :- DropToken(lx);
        ForEachToken(lx', process, state')
  }

  /** The callback of get_tokens: keep every token. */
  function Collect(acc: seq<ParsedToken>, t: ParsedToken): (seq<ParsedToken>, bool) {
    (acc + [t], true)
  }

  /** get_tokens. */
  function GetTokens(lx: Lexer): Result<seq<ParsedToken>> {
    var p :- ForEachToken(lx, Collect, []);
    Ok(p.0)
  }

  /** All tokens of a line. */
  function Tokenize(s: string): Result<seq<ParsedToken>> {
    var lx :- New(s);
    GetTokens(lx)
  }

  // ------------------------------------------------------------ the parser's view

  /** The token stream a parser sees through has/peek/drop_token. */
  function Upcoming(lx: Lexer): (st: Streams.Stream)
    ensures Streams.HasToken(st) <==> HasToken(lx)
    decreases Size(lx)
  {
    match lx.buffer
    case None => Streams.End
    case Some(t) =>
      Streams.Next(t.token, match DropToken(lx) case Err(e) => Err(e) case Ok(next) => Ok(Upcoming(next)))
  }

  /** The stream of a whole line, or the error reading its first token. */
  function StreamOf(s: string): Result<Streams.Stream> {
    var lx :- New(s);
    Ok(Upcoming(lx))
  }

  /** Abstracting the lexer commutes with every operation of the lookahead
      interface, so a parser written against streams observes exactly what
      it would observe through the lexer. */
  lemma StreamMirrorsLexer(lx: Lexer, t: Type)
    ensures Streams.PeekToken(Upcoming(lx)) == (if lx.buffer.Some? then Some(lx.buffer.value.token) else None)
    ensures Streams.DropToken(Upcoming(lx)) ==
      (match DropToken(lx) case Err(e) => Err(e) case Ok(next) => Ok(Upcoming(next)))
    ensures Streams.DropTokenOfType(Upcoming(lx), t) ==
      (match DropTokenOfType(lx, t)
       case Err(e) => Err(e)
       case Ok((tok, next)) => Ok((if tok.Some? then Some(tok.value.token) else None, Upcoming(next))))
  {
    UpcomingUnfolds(lx);
    DropOfTypeMirrors(lx, t);
  }

  lemma UpcomingUnfolds(lx: Lexer)
    ensures lx.buffer.None? ==> Upcoming(lx) == Streams.End
    ensures lx.buffer.Some? ==> Upcoming(lx) == Streams.Next(lx.buffer.value.token,
      match DropToken(lx) case Err(e) => Err(e) case Ok(next) => Ok(Upcoming(next)))
  {
  }

  lemma DropOfTypeMirrors(lx: Lexer, t: Type)
    ensures Streams.DropTokenOfType(Upcoming(lx), t) ==
      (match DropTokenOfType(lx, t)
       case Err(e) => Err(e)
       case Ok((tok, next)) => Ok((if tok.Some? then Some(tok.value.token) else None, Upcoming(next))))
  {
    UpcomingUnfolds(lx);
  }

  /** The parser sees exactly the tokens get_tokens returns. */
  lemma {:induction false} UpcomingTokens(lx: Lexer, acc: seq<ParsedToken>)
    ensures Streams.TokensOf(Upcoming(lx)).Ok? <==> ForEachToken(lx, Collect, acc).Ok?
    ensures Streams.TokensOf(Upcoming(lx)).Ok? ==>
      CollectedAfter(ForEachToken(lx, Collect, acc).value.0, acc, Streams.TokensOf(Upcoming(lx)).value)
    ensures Streams.TokensOf(Upcoming(lx)).Err? ==>
      Streams.TokensOf(Upcoming(lx)).error == ForEachToken(lx, Collect, acc).error
    decreases Size(lx)
  {
    if lx.buffer.Some? {
      var t := lx.buffer.value;
      match DropToken(lx)
      case Err(e) =>
      case Ok(next) =>
        UpcomingTokens(next, acc + [t]);
        var rest := Streams.TokensOf(Upcoming(next));
        if rest.Ok? {
          assert ForEachToken(lx, Collect, acc) == ForEachToken(next, Collect, acc + [t]);
          assert Streams.TokensOf(Upcoming(lx)).value == [t.token] + rest.value;
          CollectedStep(ForEachToken(lx, Collect, acc).value.0, acc, t, rest.value);
        }
    }
  }

  /** `got` is `acc` followed by tokens carrying `ts`. */
  ghost predicate CollectedAfter(got: seq<ParsedToken>, acc: seq<ParsedToken>, ts: seq<Token>) {
    && |got| == |acc| + |ts|
    && got[..|acc|] == acc
    && forall i :: 0 <= i < |ts| ==> got[|acc| + i].token == ts[i]
  }

  lemma CollectedStep(got: seq<ParsedToken>, acc: seq<ParsedToken>, t: ParsedToken, ts: seq<Token>)
    requires CollectedAfter(got, acc + [t], ts)
    ensures CollectedAfter(got, acc, [t.token] + ts)
  {
    assert got[..|acc| + 1] == acc + [t];
    assert got[..|acc|] == (acc + [t])[..|acc|];
    forall i | 0 <= i < 1 + |ts|
      ensures got[|acc| + i].token == ([t.token] + ts)[i]
    {
      if i == 0 {
        assert got[|acc|] == got[..|acc| + 1][|acc|];
      } else {
        assert got[|acc| + i] == got[|acc + [t]| + (i - 1)];
      }
    }
  }

  // ------------------------------------------- what the lexer is proved to do

  /** A token never starts with whitespace. */
  lemma TokenStartsWithNonSpace(t: ParsedToken, inp: Input)
    requires TokenAt(t, inp)
    ensures |inp.rest| > 0 && !IsSpace(inp.rest[0])
  {
    assert t.view[0] == inp.rest[0];
    if IsConstToken(t.token.kind) {
      ConstLexemeChar(t.token.kind);
    } else {
      NumberLexemeStart(t.view);
    }
  }

  /** Parsing a token is complete: whatever token the text starts with, that
      is the token read. */
  lemma ParseTokenComplete(t: ParsedToken, inp: Input)
    requires TokenAt(t, inp)
    ensures ParseToken(inp) == Ok(t)
  {
    var s := inp.rest;
    if IsConstToken(t.token.kind) && t.view == TypeToString(t.token.kind) && t.token.value == Exact(0.0) {
      ParseConstTokenSpec(s, t.token.kind);
    } else {
      NumberLexemeStart(t.view);
      assert s[0] == t.view[0];
      if ParseConstToken(s).Some? {
        var c := ParseConstToken(s).value.0;
        ConstTokenOrderComplete(c);
        ConstLexemeChar(c);
        assert false;
      }
      SearchNumberFindsLongestMatch(s);
      var g := SearchNumber(s).value;
      LongestMatchUnique(s, g.end, |t.view|);
      assert s[..g.end] == t.view;
    }
  }

  /** A token that follows only whitespace starts at the first character
      that is not whitespace. */
  lemma FirstTokenPosition(inp: Input, t: ParsedToken, k: nat)
    requires FirstToken(inp, t)
    requires k <= |inp.rest| && AllSpace(inp.rest[..k])
    requires k < |inp.rest| ==> !IsSpace(inp.rest[k])
    ensures t.pos == inp.pos + k
  {
    FirstTokenStart(inp, t);
    FirstNonSpaceUnique(inp.rest, t.pos - inp.pos, k);
  }

  /** The first token starts at a character that is not whitespace, after
      nothing but whitespace. */
  lemma FirstTokenStart(inp: Input, t: ParsedToken)
    requires FirstToken(inp, t)
    ensures inp.pos <= t.pos < inp.pos + |inp.rest|
    ensures AllSpace(inp.rest[..t.pos - inp.pos]) && !IsSpace(inp.rest[t.pos - inp.pos])
  {
    var j := t.pos - inp.pos;
    TokenStartsWithNonSpace(t, Input(t.pos, inp.rest[j..]));
    assert inp.rest[j..][0] == inp.rest[j];
  }

  /** Two positions each preceded only by whitespace and each at a character
      that is not whitespace (or at the end) are the same position. */
  lemma FirstNonSpaceUnique(s: string, a: nat, b: nat)
    requires a <= |s| && AllSpace(s[..a]) && (a < |s| ==> !IsSpace(s[a]))
    requires b <= |s| && AllSpace(s[..b]) && (b < |s| ==> !IsSpace(s[b]))
    ensures a == b
  {
    if a < b {
      SpaceAt(s, b, a);
    } else if b < a {
      SpaceAt(s, a, b);
    }
  }

  lemma SpaceAt(s: string, k: nat, i: nat)
    requires i < k <= |s| && AllSpace(s[..k])
    ensures IsSpace(s[i])
  {
    assert s[..k][i] == s[i];
  }

  /** Only one token can come first. */
  lemma FirstTokenUnique(inp: Input, a: ParsedToken, b: ParsedToken)
    requires FirstToken(inp, a) && FirstToken(inp, b)
    ensures a == b
  {
    FirstTokenStart(inp, a);
    FirstTokenStart(inp, b);
    FirstNonSpaceUnique(inp.rest, a.pos - inp.pos, b.pos - inp.pos);
    TokenAtUnique(a, b, Input(a.pos, inp.rest[a.pos - inp.pos..]));
  }

  /** Only one token starts any text. */
  lemma TokenAtUnique(a: ParsedToken, b: ParsedToken, w: Input)
    requires TokenAt(a, w) && TokenAt(b, w)
    ensures a == b
  {
    ParseTokenComplete(a, w);
    ParseTokenComplete(b, w);
  }

  /** consume_token reads whatever token comes first. */
  lemma ConsumeTokenComplete(inp: Input, t: ParsedToken)
    requires FirstToken(inp, t)
    ensures ConsumeToken(inp) == Ok(Lexer(After(inp, t), Some(t)))
  {
    var j := t.pos - inp.pos;
    var w := ConsumeWhitespace(inp);
    FirstTokenPosition(inp, t, w.pos - inp.pos);
    assert inp.rest[j..] == w.rest;
    assert w == Input(t.pos, inp.rest[j..]);
    ParseTokenComplete(t, w);
    TokenAfterSpace(inp, w, t);
  }

  /** Nothing but whitespace: consume_token reads no token. */
  lemma SpaceConsumesNothing(inp: Input)
    requires AllSpace(inp.rest)
    ensures ConsumeToken(inp).Ok? && ConsumeToken(inp).value.buffer.None?
  {
  }

  /** Text with a token in it is not all whitespace. */
  lemma FirstTokenNotSpace(inp: Input, t: ParsedToken)
    requires FirstToken(inp, t)
    ensures !AllSpace(inp.rest)
  {
    FirstTokenStart(inp, t);
  }

  /** `ts` splits what is left at the cursor into tokens: whitespace between
      them, each one the token its position starts with, and only whitespace
      after the last. */
  ghost predicate Covers(ts: seq<ParsedToken>, inp: Input)
    decreases |ts|
  {
    if |ts| == 0 then AllSpace(inp.rest)
    else FirstToken(inp, ts[0]) && Covers(ts[1..], After(inp, ts[0]))
  }

  /** get_tokens without the callback: every token from the cursor on,
      appended to `acc`. */
  function Lex(inp: Input, acc: seq<ParsedToken>): Result<seq<ParsedToken>>
    decreases |inp.rest|
  {
    match ConsumeToken(inp)
    case Err(e) => Err(e)
    case Ok(lx) =>
      match lx.buffer
      case None => Ok(acc)
      case Some(t) => Lex(lx.input, acc + [t])
  }

  /** get_tokens is Lex once the first token has been read. */
  lemma {:induction false} ForEachIsLex(lx: Lexer, acc: seq<ParsedToken>)
    ensures lx.buffer.None? ==> ForEachToken(lx, Collect, acc) == Ok((acc, true))
    ensures lx.buffer.Some? ==>
      var r := ForEachToken(lx, Collect, acc);
      (if r.Ok? then Ok(r.value.0) else Err(r.error)) == Lex(lx.input, acc + [lx.buffer.value])
    decreases Size(lx)
  {
    if lx.buffer.Some? {
      var t := lx.buffer.value;
      match ConsumeToken(lx.input)
      case Err(e) =>
      case Ok(next) =>
        ForEachIsLex(next, acc + [t]);
    }
  }

  /** What Lex returns extends what it was given. */
  lemma {:induction false} LexExtends(inp: Input, acc: seq<ParsedToken>)
    requires Lex(inp, acc).Ok?
    ensures |Lex(inp, acc).value| >= |acc| && Lex(inp, acc).value[..|acc|] == acc
    decreases |inp.rest|
  {
    var c := ConsumeToken(inp);
    if c.value.buffer.Some? {
      var t := c.value.buffer.value;
      LexExtends(c.value.input, acc + [t]);
      assert (acc + [t])[..|acc|] == acc;
    }
  }

  lemma AppendFirst<T>(acc: seq<T>, ts: seq<T>)
    requires |ts| > 0
    ensures acc + ts == (acc + [ts[0]]) + ts[1..]
  {
    assert ts == [ts[0]] + ts[1..];
  }

  /** The lexer reads exactly the token sequences that cover the rest of the
      input; induction along the input. */
  lemma {:induction false} LexCovers(inp: Input, acc: seq<ParsedToken>, ts: seq<ParsedToken>)
    ensures Lex(inp, acc) == Ok(acc + ts) <==> Covers(ts, inp)
    decreases |inp.rest|, 1
  {
    var c := ConsumeToken(inp);
    if c.Err? {
      LexFails(inp, acc, ts);
    } else if c.value.buffer.None? {
      LexAtEnd(inp, acc, ts);
    } else {
      LexStep(inp, acc, ts, c.value.buffer.value, c.value.input);
    }
  }

  lemma LexFails(inp: Input, acc: seq<ParsedToken>, ts: seq<ParsedToken>)
    requires ConsumeToken(inp).Err?
    ensures Lex(inp, acc).Err?
    ensures !Covers(ts, inp)
  {
    if |ts| == 0 && Covers(ts, inp) {
      SpaceConsumesNothing(inp);
    } else if Covers(ts, inp) {
      ConsumeTokenComplete(inp, ts[0]);
    }
  }

  lemma LexAtEnd(inp: Input, acc: seq<ParsedToken>, ts: seq<ParsedToken>)
    requires ConsumeToken(inp).Ok? && ConsumeToken(inp).value.buffer.None?
    ensures Lex(inp, acc) == Ok(acc)
    ensures Lex(inp, acc) == Ok(acc + ts) <==> Covers(ts, inp)
  {
    if |ts| > 0 {
      assert |acc + ts| > |acc|;
      if Covers(ts, inp) {
        FirstTokenNotSpace(inp, ts[0]);
      }
    } else {
      assert acc + ts == acc;
    }
  }

  lemma {:induction false} LexStep(inp: Input, acc: seq<ParsedToken>, ts: seq<ParsedToken>, t: ParsedToken, n: Input)
    requires ConsumeToken(inp) == Ok(Lexer(n, Some(t)))
    ensures Lex(inp, acc) == Ok(acc + ts) <==> Covers(ts, inp)
    decreases |inp.rest|, 0
  {
    assert Lex(inp, acc) == Lex(n, acc + [t]);
    ConsumeTokenSound(inp);
    if |ts| == 0 {
      FirstTokenNotSpace(inp, t);
      LexStepNoMore(inp, acc, ts, t, n);
    } else if ts[0] != t {
      LexStepOther(inp, acc, ts, t, n);
    } else {
      LexCovers(n, acc + [t], ts[1..]);
      LexStepSame(inp, acc, ts, t, n);
    }
  }

  /** A split starting with the token read matches exactly when its rest
      matches what follows. */
  lemma LexStepSame(inp: Input, acc: seq<ParsedToken>, ts: seq<ParsedToken>, t: ParsedToken, n: Input)
    requires FirstToken(inp, t) && n == After(inp, t)
    requires Lex(inp, acc) == Lex(n, acc + [t])
    requires |ts| > 0 && ts[0] == t
    requires Lex(n, acc + [t]) == Ok(acc + [t] + ts[1..]) <==> Covers(ts[1..], n)
    ensures Lex(inp, acc) == Ok(acc + ts) <==> Covers(ts, inp)
  {
    AppendFirst(acc, ts);
  }

  /** A token was read, so the lexer does not stop where `acc` ends. */
  lemma LexStepNoMore(inp: Input, acc: seq<ParsedToken>, ts: seq<ParsedToken>, t: ParsedToken, n: Input)
    requires !AllSpace(inp.rest)
    requires Lex(inp, acc) == Lex(n, acc + [t])
    requires |ts| == 0
    ensures Lex(inp, acc) != Ok(acc + ts) && !Covers(ts, inp)
  {
    assert acc + ts == acc;
    if Lex(n, acc + [t]).Ok? {
      LexExtends(n, acc + [t]);
    }
  }

  /** A token was read, so no split starting with another token matches. */
  lemma LexStepOther(inp: Input, acc: seq<ParsedToken>, ts: seq<ParsedToken>, t: ParsedToken, n: Input)
    requires FirstToken(inp, t)
    requires Lex(inp, acc) == Lex(n, acc + [t])
    requires |ts| > 0 && ts[0] != t
    ensures Lex(inp, acc) != Ok(acc + ts) && !Covers(ts, inp)
  {
    if Covers(ts, inp) {
      FirstTokenUnique(inp, ts[0], t);
    }
    if Lex(n, acc + [t]).Ok? {
      LexExtends(n, acc + [t]);
      assert Lex(n, acc + [t]).value[..|acc| + 1][|acc|] == t;
      assert (acc + ts)[|acc|] == ts[0];
    }
  }

  /** The lexer's tokens are exactly the tokenisation of the line: whitespace
      between tokens, each token the constant lexeme or the longest number
      at its position, and nothing but whitespace after the last. */
  lemma TokenizeCovers(s: string, ts: seq<ParsedToken>)
    ensures Tokenize(s) == Ok(ts) <==> Covers(ts, Fresh(s))
  {
    var c := New(s);
    if c.Ok? {
      ForEachIsLex(c.value, []);
      assert Tokenize(s) == Lex(Fresh(s), []);
    }
    LexCovers(Fresh(s), [], ts);
    assert [] + ts == ts;
  }
}
