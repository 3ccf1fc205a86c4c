# math-server expression engine, modelled in Dafny

The math server evaluates one arithmetic expression per line of text that a
client sends. This project models the expression engine and the session
registry:

- **Lexer.** Its parts are:
  - the input cursor;
  - the closed table of token types and its string conversions;
  - tokens and their equality rules;
  - the single-token recognisers: whitespace, constant lexemes, and the
    number pattern `(?:\d+(?:\.\d*)?|\.\d+)(e[+-]?(\d*))?`, matched
    ignoring case;
  - the lexer with one token of lookahead.
- **Parser.** The operator table (precedence, checked division) and the
  precedence-climbing evaluator, with unary `-` and `+` and parentheses.
- **The older single-header engine** (`server/lexer.hpp`,
  `server/parser.hpp`). It has no unary `+`, its lexer reads nothing until
  asked, and its operand message is different.
- **The session registry** (`SessionManager`): the live set, and the
  `start()`/`stop()` calls it issues. A session's `stop()` throws when its
  socket fails to shut down or close (`server/main/session.cpp:59-66`);
  which sessions fail is a parameter, because it depends on the operating
  system. When that happens inside `stop_all`, the set is not cleared, and
  a session already stopped can be stopped again later by its own failed
  read. The model shows such a history.

Layout, one module per file:

| file | module | models |
|---|---|---|
| `errors.dfy` | `Errors` | the layered error classes, `Result`, `Option` |
| `numbers.dfy` | `Numbers` | numbers as exact reals plus NaN |
| `input.dfy` | `InputCursor` | `lexer::Input` |
| `token_type.dfy` | `TokenTypes` | `token::Type` and `token_type.cpp` |
| `token.dfy` | `Tokens` | `Token`, `ParsedToken` |
| `parse.dfy` | `Recognisers` | `lexer::details` |
| `streams.dfy` | `Streams` | what a parser observes through `has/peek/drop_token` |
| `lexer.dfy` | `Lexers` | the current `Lexer` |
| `legacy.dfy` | `LegacyLexing` | the older lexer, compared with the current one |
| `operator.dfy` | `Operators` | `parser::BinaryOp` |
| `parser.dfy` | `Parsing` | both `Parser`s, as two dialects of one evaluator |
| `grammar.dfy` | `Grammar` | a reference two-level grammar with left folding |
| `agreement.dfy` | `Agreement` | the evaluator computes what the grammar computes |
| `engine.dfy` | `Engine` | text to value, for both engines |
| `sessions.dfy` | `Sessions` | `SessionManager` |
| `scenarios.dfy` | `Scenarios` | the parser's unit-test expressions, for every choice of numbers |

Each C++ exception becomes an `Err` of a `Result`; the state a call returns
replaces the old one. The parser is written once, over `Streams.Stream`.
`Lexers.Upcoming` and `LegacyLexing.Upcoming` abstract each lexer to a
stream. `StreamMirrorsLexer` proves that this abstraction commutes with
`peek_token`, `drop_token` and `drop_token_of_type`/`drop_token_if`. So the
parser observes through a stream exactly what it observes through the
lexer, including where a lexer error surfaces.

Main results:

- `Lexers.TokenizeCovers`: the current lexer's tokens are exactly the
  tokenisation of the line, and nothing else.
- `Agreement.ExecAgrees`: on every token stream, in both dialects, the
  evaluator computes the reference grammar's value or its error.
- `Engine.EvaluateTokenization` joins the two: the value of a line is the
  grammar's value of its tokens.
- `LegacyLexing.SameStream` and `LegacyLexing.GetTokensAgree`: the older
  lexer hands the parser the same stream as the current one.
- `Engine.CurrentExtendsLegacy`: the current engine accepts every line the
  older one accepts, with the same value. `Grammar.UnaryPlusOnlyInCurrent`
  shows that it accepts strictly more.

Two readings of the code:

- The current parser asks the operators for an associativity, but
  `server/parser/operator.hpp` declares no such queries. The model makes
  all four operators left-associative. With that reading, the current
  parser's inner loop absorbs only operators of strictly higher precedence,
  as the older parser's does (`server/parser.hpp:122`).
- The lexer's recognisers are the `std::regex` functions of
  `server/lexer/lexer.cpp:17-104`, which `Lexer::parse_whitespace`,
  `Lexer::parse_const_token` and `Lexer::parse_number` call
  (`server/lexer/lexer.cpp:178-197`).
  `server/lexer/details/parse.cpp` holds a second copy of them, with a
  `std::regex` and a Boost matcher on the same pattern; its own
  `parse_number` picks the Boost one, but the lexer does not call that
  file. All of these are modelled by one function per recogniser, such as
  `Recognisers.MatchNumber`. Its result is stated against the pattern's
  language: the longest matching prefix.

## Model

| member | source | states |
|---|---|---|
| Errors.TagsSeparateLayers | server/parser/error.hpp:9-14 | a lexer error and a parser error never have the same message, because each layer puts its own tag after "server error: " |
| Errors.MessageDeterminesServerError | server/common/error.hpp:8-13 | within the lexer and parser layers, the message `what()` returns determines the error |
| Numbers.NumbersEqual | server/lexer/token.cpp:17-22 | numbers_equal holds exactly when the two numbers are identical, two NaNs included |
| Numbers.IeeeEqualNotReflexive | server/lexer/token.cpp:13-22 | `==` on doubles is false for NaN and NaN, while numbers_equal is true |
| InputCursor.Fresh | server/lexer/input.hpp:17 | a new cursor is at offset 0 with the whole line left |
| InputCursor.Consume | server/lexer/input.hpp:27-33 | consume(len) fails with "internal: not enough input to consume" exactly when fewer than len characters are left; otherwise the offset moves by len and exactly the first len characters are dropped |
| InputCursor.ConsumeView | server/lexer/input.hpp:35 | consume(sub) succeeds exactly when sub is no longer than what is left, and then drops as many characters as sub has |
| InputCursor.ConsumeStaysOver | server/lexer/input.hpp:17-33 | consuming preserves the invariant: offset plus remaining length is the length of the line, and what is left is the line from the offset on |
| InputCursor.ConsumeAdditive | server/lexer/input.hpp:27-33 | consuming a then b characters is consuming a+b |
| TokenTypes.AllTypesIndexedByInt | server/lexer/token_type.cpp:109-111 | type_to_int is a bijection onto 0..7 in declaration order |
| TokenTypes.TypeToIntString | server/lexer/token_type.cpp:113-115 | type_to_int_string is the one decimal digit of the underlying value |
| TokenTypes.CheckForDuplicates | server/lexer/token_type.cpp:44-52 | the duplicate check passes exactly when no two entries share a string; otherwise it throws a logic_error whose message names a string that two entries share |
| TokenTypes.ToStringEntriesDistinct | server/lexer/token_type.cpp:27-36 | the to-string table has no repeated string, so the check never throws |
| TokenTypes.BuildFromString | server/lexer/token_type.cpp:71-80 | build_map succeeds exactly when the strings are distinct, and then maps each entry's string back to its type, with no other keys |
| TokenTypes.EntryOfType | server/lexer/token_type.cpp:141-148 | the table has an entry for every type, so type_to_string never reports an unsupported type |
| TokenTypes.FromStringMap | server/lexer/token_type.cpp:85-88 | the inverse table maps every type's string back to that type, and has no other keys |
| TokenTypes.TypeFromString | server/lexer/token_type.cpp:150-157 | type_from_string succeeds exactly on the strings of types and inverts type_to_string there; any other string fails with "type_from_string: unsupported token: " and the string |
| TokenTypes.TypeStringRoundTrip | server/lexer/token_type.cpp:141-157 | type_from_string(type_to_string(t)) is t for every type |
| TokenTypes.ConstTokens | server/lexer/token_type.cpp:90-130 | const_tokens() is exactly {PLUS, MINUS, ASTERISK, SLASH, LEFT_PAREN, RIGHT_PAREN}, the types for which is_const_token holds |
| TokenTypes.TokenHasValue | server/lexer/token_type.cpp:132-139 | only NUMBER carries a value: exactly the type that is neither whitespace nor constant |
| TokenTypes.ConstLexemesPrefixFree | server/lexer/token_type.cpp:27-36 | each constant lexeme is one character, different types have different lexemes, and no constant lexeme is a prefix of another |
| Tokens.MakeToken | server/lexer/token.cpp:26-32 | Token(type) fails with "internal: must have a value: " and the type's number exactly for types that carry a value |
| Tokens.AsNumber | server/lexer/token.cpp:51-57 | as_number succeeds exactly on NUMBER tokens, and otherwise fails with "internal: not a number: " and the type's number |
| Tokens.AsNumberOfMakeNumber | server/lexer/token.cpp:34-36 | a token built from a number gives that number back |
| Tokens.Equals | server/lexer/token.cpp:38-49 | tokens of different types differ; constant tokens of one type are equal; numbers compare by numbers_equal; comparing two whitespace tokens, and only that, fails with "internal: can't compare tokens of type: 0" |
| Tokens.EqualsIsEquivalence | server/lexer/token.cpp:38-49 | where defined, token equality is reflexive, symmetric and transitive |
| Tokens.ParsedEqualityIgnoresPlacement | server/lexer/token.hpp:38-50 | ParsedToken equality does not depend on position or matched text |
| Recognisers.ScanWhile | server/lexer/lexer.cpp:93 | the scan stops at the first character at or after its start that fails the test |
| Recognisers.ParseWhitespace | server/lexer/lexer.cpp:92-104 | parse_whitespace returns the maximal run of whitespace at the start, empty when the input does not start with whitespace |
| Recognisers.MantissaBound | server/lexer/lexer.cpp:24 | every mantissa that prefixes the input ends no later than the scanned mantissa |
| Recognisers.SearchNumberFindsLongestMatch | server/lexer/lexer.cpp:24-33 | the anchored search fails exactly when no prefix matches the number pattern; otherwise it returns the longest matching prefix, and its exponent group is empty exactly when that prefix ends in a bare `e`, `e+` or `e-` |
| Recognisers.LongestMatchUnique | server/lexer/lexer.cpp:24 | the longest match is unique |
| Recognisers.MatchNumberSpec | server/lexer/lexer.cpp:17-45 | match finds nothing exactly when no prefix matches; it returns the longest match when that has exponent digits or no exponent; otherwise it fails with "exponent has no digits: " and the matched text |
| Recognisers.NumberLexemeStart | server/lexer/lexer.cpp:24 | a number starts with a digit or a point, so "e12" is not a number |
| Recognisers.ConstLexemeChar | server/lexer/token_type.cpp:29-34 | a constant lexeme is one character that cannot start a number or whitespace |
| Recognisers.ParseNumber | server/lexer/lexer.cpp:47-60 | parse_number fails exactly when match_number fails, with its error; the text it reads is a non-empty prefix of the input |
| Recognisers.ParseNumberSound | server/lexer/lexer.cpp:47-60 | parse_number reads the longest prefix matching the number pattern, when that is an accepted lexeme, with its decimal value; it reads nothing exactly when no prefix matches |
| Recognisers.ParseConstTokenIn | server/lexer/lexer.cpp:67-76 | the constant token returned is one whose lexeme starts the input, with that lexeme as its text; nothing is returned only when no tried lexeme starts the input |
| Recognisers.OneConstLexemeAtATime | server/lexer/lexer.cpp:67-76 | at most one constant lexeme starts any input |
| Recognisers.ParseConstTokenSpec | server/lexer/lexer.cpp:67-76 | parse_const_token returns type t, with t's lexeme as text, exactly when the input starts with t's lexeme |
| Recognisers.ParseConstTokenOrderIrrelevant | server/lexer/lexer.cpp:68 | every order of walking the unordered set of constant types gives the same result |
| Streams.DropToken | server/lexer/lexer.cpp:137-143 | drop_token with nothing buffered fails with "internal: no tokens to drop"; otherwise it yields the rest of the stream, one token shorter |
| Streams.DropTokenOfType | server/lexer/lexer.cpp:145-155 | drop_token_of_type with nothing buffered fails; with a token of another type it returns nothing and changes nothing; on a match it returns the token and the rest of the stream, or the error reading it |
| Streams.TokensDetermineStream | server/lexer/lexer.hpp:36-45 | an error-free stream is determined by its tokens |
| Lexers.ConsumeWhitespace | server/lexer/lexer.cpp:157-163 | consume_whitespace skips exactly the leading whitespace: what it skips is all whitespace, and what follows does not start with whitespace |
| Lexers.ParseTokenSound | server/lexer/lexer.cpp:204-212 | parse_token reads the constant lexeme or the longest number at the cursor, at the cursor's offset; it fails with "invalid input at: " and the rest exactly when no token starts there; otherwise it fails only with the number matcher's error |
| Lexers.ParseTokenComplete | server/lexer/lexer.cpp:204-212 | whatever token starts the text, parse_token reads that token |
| Lexers.TokenAtUnique | server/lexer/lexer.cpp:204-212 | only one token starts any text |
| Lexers.ConsumeTokenSound | server/lexer/lexer.cpp:165-176 | the token consume_token buffers follows only whitespace, and the cursor moves just past it by the token's length |
| Lexers.ConsumeTokenComplete | server/lexer/lexer.cpp:165-176 | consume_token buffers whatever token comes first after whitespace |
| Lexers.SpaceConsumesNothing | server/lexer/lexer.cpp:165-172 | when only whitespace is left, no token is buffered, so "" yields no tokens |
| Lexers.FirstTokenPosition | server/lexer/lexer.cpp:173-175 | a token's position is the cursor offset after the skipped whitespace |
| Lexers.FirstTokenUnique | server/lexer/lexer.cpp:165-176 | only one token can come first at a cursor |
| Lexers.DropToken | server/lexer/lexer.cpp:137-143 | drop_token with nothing buffered fails with "internal: no tokens to drop"; otherwise less is left to read |
| Lexers.DropTokenOfType | server/lexer/lexer.cpp:145-155 | drop_token_of_type with nothing buffered fails; with another type buffered it returns nothing and leaves the lexer unchanged; on a match it returns the buffered token |
| Lexers.StreamMirrorsLexer | server/lexer/lexer.hpp:36-45 | the stream abstraction commutes with peek_token, drop_token and drop_token_of_type |
| Lexers.ForEachToken | server/lexer/lexer.cpp:119-126 | for_each_token returns true when no token is buffered; when the callback declines the buffered token it returns false with the callback's state, before the next token is read, so no later lexer error is raised; false comes only from a declined token |
| Lexers.UpcomingTokens | server/lexer/lexer.cpp:119-135 | for_each_token collecting every token returns exactly the tokens of the parser's stream, in order, and fails with the stream's error |
| Lexers.ForEachIsLex | server/lexer/lexer.cpp:119-135 | get_tokens collects the buffered token and then every token consume_token reads, in input order |
| Lexers.LexCovers | server/lexer/lexer.cpp:119-176 | from any cursor, the lexer returns exactly the token sequences that split the rest of the text into whitespace and tokens |
| Lexers.TokenizeCovers | server/lexer/lexer.cpp:109-135 | Lexer(line).get_tokens() returns ts exactly when ts is the tokenisation of the line: whitespace between tokens, each token the constant lexeme or longest number at its place, only whitespace after the last |
| LegacyLexing.TokensEqualIsIdentity | server/lexer.hpp:39-51 | the older operator== is structural equality, NaNs included, so two constant tokens of one type are equal |
| LegacyLexing.GetNumberValue | server/lexer.hpp:57-62 | get_number_value succeeds exactly on NUMBER tokens and otherwise fails with "token must be a number to query its value" |
| LegacyLexing.GetNumberValueRoundTrip | server/lexer.hpp:39-62 | a number token gives back its number; Token(NUMBER) gives NaN; no other type gives a value |
| LegacyLexing.ParseConstIn | server/lexer.hpp:124-150 | the older parse_const_token returns a table entry whose lexeme starts the input, or nothing when no lexeme does |
| LegacyLexing.ConstTableIsTypeStrings | server/lexer.hpp:130-137 | the older table lists exactly the constant types, each with its current lexeme |
| LegacyLexing.ParseConstAgrees | server/lexer.hpp:124-150 | the older parse_const_token answers as the current one does for every order of a table pairing exactly the constant types with their lexemes, so the unordered_map's walk order cannot matter |
| LegacyLexing.ReadLexeme | server/lexer.hpp:248-254 | reading a token at non-whitespace text consumes at least one character |
| LegacyLexing.ReadToken | server/lexer.hpp:243-255 | the private parse_token finds no token exactly at whitespace-only text, and consumes it all; a token read consumes at least one character |
| LegacyLexing.New | server/lexer.hpp:173-175 | the constructor reads nothing |
| LegacyLexing.LexToken | server/lexer.hpp:198-207 | the public parse_token does nothing at the end of the input; otherwise it buffers a token unless only whitespace is left |
| LegacyLexing.LexTokenOverwrites | server/lexer.hpp:198-207 | calling parse_token with a token already buffered replaces that token: with input left, the result does not depend on the buffer |
| LegacyLexing.LexTokenOverwritesExample | server/lexer.hpp:198-207 | a token buffered in front of "(" is lost, and "(" is buffered instead |
| LegacyLexing.DropToken | server/lexer.hpp:217-223 | drop_token with nothing buffered fails with "internal: no tokens to drop"; otherwise less is left to read |
| LegacyLexing.DropTokenIf | server/lexer.hpp:225-235 | drop_token_if with nothing buffered fails; with another type buffered it returns nothing and does not advance; on a match it returns the buffered token |
| LegacyLexing.StreamMirrorsLexer | server/lexer.hpp:209-235 | the stream abstraction commutes with peek_token, drop_token and drop_token_if |
| LegacyLexing.LexemeAgrees | server/lexer.hpp:243-255 | at non-whitespace text the older and current lexers read the same token, consume the same text, and fail with the same error |
| LegacyLexing.ReadAgrees | server/lexer.hpp:198-207 | one read of the older lexer and consume_token of the current one fail together with the same error, or reach corresponding states |
| LegacyLexing.SameStream | server/lexer.hpp:198-255 | on every line both lexers hand the parser the same token stream, errors included |
| LegacyLexing.ForEachBuffered | server/lexer.hpp:181-186 | the loop returns true when no token is buffered; when the callback declines the buffered token it returns false with the callback's state, without reading another token; false comes only from a declined token |
| LegacyLexing.BufferedTokens | server/lexer.hpp:179-187 | the loop of for_each_token collects exactly the tokens of the parser's stream, and fails with its error |
| LegacyLexing.GetTokensAgree | server/lexer.hpp:189-196 | the older get_tokens succeeds exactly when the current one does, with the same error, and returns the same tokens up to the NaN stored in constant tokens |
| Operators.OfType | server/parser/operator.hpp:72-74 | an operator read from an operator type has that type |
| Operators.FromToken | server/parser/operator.hpp:28-33 | from_token succeeds exactly on PLUS, MINUS, ASTERISK and SLASH tokens, and otherwise fails with "internal: token is not a binary operator" |
| Operators.OperatorTypeRoundTrip | server/parser/operator.hpp:15-26 | is() holds exactly for the four operator types, and reading each operator from its type gives it back |
| Operators.Precedence | server/parser/operator.hpp:35-50 | precedences are min_precedence() = 0 for + and -, and 1 for * and / |
| Operators.Exec | server/parser/operator.hpp:52-69 | exec fails with "division by zero" exactly for / by zero; otherwise `+`, `-`, `*` and `/` give the sum, difference, product and quotient of exact operands, and NaN when an operand is NaN |
| Operators.ExecInverses | server/parser/operator.hpp:52-65 | - undoes + and / undoes * by a non-zero divisor |
| Parsing.PeekOperator | server/parser/parser.hpp:72-78 | peek_operator returns an operator exactly when the next token is one, and the operator of that token |
| Parsing.ExecExpr | server/parser/parser.hpp:38-40 | exec_expr() consumes at least one token and stops at no operator |
| Parsing.ExprLoop | server/parser/parser.hpp:42-70 | the outer loop stops in front of the first operator binding more loosely than min_prec, consumes tokens when it starts on one that does not, and returns lhs unchanged otherwise |
| Parsing.AbsorbLoop | server/parser/parser.hpp:50-65 | the inner loop stops in front of the first operator it does not absorb |
| Parsing.ExecFactor | server/parser/parser.hpp:80-94 | exec_factor consumes at least one token, and fails with "expected '-', '+', '(' or a number" at the end of the stream |
| Parsing.ExecAtom | server/parser/parser.hpp:96-116 | exec_atom consumes at least one token when it succeeds |
| Parsing.ExecStream | server/parser/parser.hpp:29-35 | exec succeeds only when the expression uses up the stream, and fails with "expected a binary operator" when a token is left |
| Agreement.AbsorbAtTop | server/parser/parser.hpp:50-65 | under left associativity nothing binds tighter than * and /, so the inner loop absorbs nothing after them |
| Agreement.AtomAgrees | server/parser/parser.hpp:96-116 | exec_atom is the grammar's atom on every stream |
| Agreement.FactorAgrees | server/parser/parser.hpp:80-94 | exec_factor is the grammar's factor on every stream: each unary - negates, unary + (current dialect only) keeps the value |
| Agreement.TermLoopAgrees | server/parser/parser.hpp:42-70 | the outer loop at precedence 1 folds * and / from the left, as the term repetition does |
| Agreement.AbsorbZeroAgrees | server/parser/parser.hpp:50-65 | the inner loop after + or - absorbs exactly the following * and / operators, as a term does |
| Agreement.SumLoopAgrees | server/parser/parser.hpp:42-70 | the outer loop at precedence 0 is the term repetition followed by the left-folding expression repetition |
| Agreement.ExprAgrees | server/parser/parser.hpp:38-70 | exec_expr() is the grammar's expression on every stream |
| Agreement.ExecAgrees | server/parser/parser.hpp:29-116 | Parser::exec computes the grammar's value of the whole stream, or the grammar's error, in both dialects |
| Grammar.CurrentExtendsLegacy | server/parser/parser.hpp:80-94 | the current dialect evaluates every stream the legacy one evaluates, to the same value |
| Grammar.UnaryPlusOnlyInCurrent | server/parser.hpp:139-148 | a leading unary + is accepted by the current dialect and fails with "expected '-', '(' or a number" in the legacy one |
| Engine.StreamOfTokens | server/lexer/lexer.cpp:109-135 | once a line lexes, the parser's stream consists of exactly its tokens |
| Engine.EvaluateIsGrammar | server/parser/parser.hpp:25-35 | the current engine evaluates a line to the grammar's value of its token stream, or fails with the lexer's first error |
| Engine.EvaluateTokenization | server/parser/parser.hpp:25-35 | the current engine's value of a line is the grammar's value of its tokenisation |
| Engine.LegacyEvaluateIsGrammar | server/parser.hpp:98-109 | the older engine evaluates a line to the legacy grammar's value of the same token stream |
| Engine.CurrentExtendsLegacy | server/parser/parser.hpp:80-94 | every line the older engine evaluates, the current engine evaluates to the same value |
| Sessions.Init | server/main/session_manager.hpp:21-32 | a new registry has no live sessions and has made no calls |
| Sessions.InitValid | server/main/session_manager.hpp:21-32 | the new registry satisfies both invariants: every live session was started, every stop() follows a start(), and no session has been stopped more often than it was started |
| Sessions.MakeSession | server/main/session_manager.cpp:16-18 | make_session neither registers nor calls the new session; it returns a session that is not live and has no calls, and keeps both invariants |
| Sessions.MadeSessionHasNoHistory | server/main/session_manager.cpp:16-18 | a session fresh from make_session has never been started or stopped |
| Sessions.Start | server/main/session_manager.cpp:20-24 | start adds the session to the live set (re-adding changes nothing) and then records one start() on it; for a session make_session handed out it keeps both invariants |
| Sessions.Stop | server/main/session_manager.cpp:26-32 | stop erases the session and calls its stop() only if it was live; that stop() throws exactly when the session's socket fails to close, and the session stays erased; stopping an absent session changes nothing and cannot throw; both invariants are kept |
| Sessions.StopIdempotent | server/main/session_manager.cpp:26-32 | a second stop finds nothing to do and cannot throw |
| Sessions.StoppedAtMostOncePerStart | server/main/session_manager.cpp:20-32 | while the registry is balanced, every session has been stopped at most as often as it was started, and strictly less often while it is live |
| Sessions.StopAll | server/main/session_manager.cpp:34-41 | stop_all throws exactly when some live session's stop() fails. If none does, every live session gets exactly one stop(), nothing else is called and the set is emptied. If one does, the walk ends at the first failing session in the set's order: it and the sessions before it get one stop() each, the rest none, and the set is left as it was. Validity is kept on both paths, balance on the normal one |
| Sessions.StopEach | server/main/session_manager.cpp:37-39 | the loop calls stop() on the sessions in order and ends at the first one whose stop() throws, or after the last |
| Sessions.StopAllThrew | server/main/session_manager.cpp:37-39 | when the loop ends at a session whose stop() throws, everything stop_all promises holds: that session and the ones before it are stopped once each, the set is unchanged, and the registry stays valid |
| Sessions.StopAllDone | server/main/session_manager.cpp:37-40 | when the loop completes, everything stop_all promises holds: each live session is stopped exactly once, the set is emptied, and both invariants are kept |
| Sessions.CompletedWalk | server/main/session_manager.cpp:37-40 | a completed walk calls stop() exactly once on each live session and on nothing else, and clearing the set afterwards keeps both invariants |
| Sessions.StopCallsOnce | server/main/session_manager.cpp:37-39 | walking distinct live sessions makes only stop() calls, on live sessions, at most one per session |
| Sessions.WalkKeepsBalanced | server/main/session_manager.cpp:37-40 | stopping the sessions of a walk of the live set in turn, then clearing the set, keeps the registry balanced |
| Sessions.CountStopCalls | server/main/session_manager.cpp:37-39 | walking distinct sessions stops each of them once and starts none |
| Sessions.StopsKeepBalanced | server/main/session_manager.cpp:37-40 | one stop() per live session followed by clearing the set keeps the registry balanced |
| Sessions.ThrowingStopAll | server/main/server.cpp:86-91 | when stop_all throws in the signal handler at the second of two sessions, both have had stop() called and both are still registered; the handler only logs the error |
| Sessions.StopAllThrowsThenReadFails | server/main/session.cpp:78-82 | after that throw, the first session's failing read stops it through the registry a second time: it has been started once and stopped twice, so the registry stays valid but is no longer balanced |
| Scenarios.EmptyInput | test/unit_tests/parser.cpp:9-10 | "" fails with the missing-operand error |
| Scenarios.SingleNumber | test/unit_tests/parser.cpp:13-14 | "1" evaluates to its number |
| Scenarios.MissingOperand | test/unit_tests/parser.cpp:17-18 | " 1 + " fails with the missing-operand error |
| Scenarios.Addition | test/unit_tests/parser.cpp:21-22 | " 1 + 2 " evaluates to the sum |
| Scenarios.MultiplicationFirst | test/unit_tests/parser.cpp:25-26 | " 2 * 1 + 3 " evaluates as (2 * 1) + 3 |
| Scenarios.Parentheses | test/unit_tests/parser.cpp:29-30 | " 2 * (1 + 3) " evaluates as 2 * (1 + 3) |
| Scenarios.UnclosedParenthesis | test/unit_tests/parser.cpp:33-34 | " 2 * (1 + 3 " fails with "missing closing ')'" |
| Scenarios.TrailingParenthesis | test/unit_tests/parser.cpp:37-38 | " 2 * (1 + 3) )" fails with "expected a binary operator" |
| Scenarios.NestedParentheses | test/unit_tests/parser.cpp:41-42 | " 2 * (1 + 3 * (1 - -3)) " evaluates as 2 * (1 + 3 * (1 - (-3))) |
| Scenarios.UnaryMinuses | test/unit_tests/parser.cpp:45-46 | " -2 * ---- (3 + -100e-1) " evaluates as (-2) * (3 + (-10)): each unary minus negates, so the four in a row cancel |
| Scenarios.LeftToRight | server/parser.hpp:116-129 | a - b - c evaluates as (a - b) - c |

## Left out

- Sockets, sessions' reads and writes, the server's thread pool, and the
  registry's mutex are not modelled. Each registry operation is treated as
  atomic, and a session is an identifier standing for its shared pointer.
- Log output in `stop_all` is not modelled.
- The message of the error a failing `stop()` throws is the operating
  system's text, so it is not modelled; the model records only which
  session threw.
- A session's `start()` only initiates an asynchronous read, whose failure
  arrives later through `stop()`; the model treats `start()` as never
  throwing.
- Numbers are exact reals plus NaN. IEEE rounding, infinities and signed
  zeros are not modelled.
- Recognisers.ParseNumber: `std::stod` throws `out_of_range` when a lexeme's
  value overflows a double (`1e999`) or underflows it (`1e-400`), and the
  lexer turns that into "internal: couldn't parse number from: "; the model
  reads every lexeme as its exact value, so that error has no counterpart.
- Recognisers.LexemeValue: gives the exact decimal value of a lexeme, where
  `std::stod` gives the nearest double.
- The regular-expression engines are not modelled. The number and
  whitespace patterns are anchored prefix scanners, proved against the
  pattern's language. The line-anchored `^` of the Boost matcher in
  `server/lexer/details/parse.cpp` is not modelled either. It matters only
  to that unused copy, and only on input with more than one line.
- Whitespace is the C-locale `\s` set; locales are not modelled.
- Operators.IsLeftAssociative: holds for all four operators, because the
  operator class declares no associativity queries although the current
  parser calls them. The server has no right-associative operator.
- The older engine's own `server/error.hpp` is not part of this model. Its
  errors are assumed to carry the same "server error: " prefix.
- Parsing.ExprLoop: its contract gives termination and where the loop
  stops. What it computes is stated through `Agreement.SumLoopAgrees` and
  `Agreement.TermLoopAgrees`.
- The operator<< printing of tokens and types is not modelled.
- The lexer's unit-test vectors (`test/unit_tests/lexer.cpp`) are covered
  by the general statements above, not as concrete strings.
- The scenarios are stated over token streams, with arbitrary numbers in
  place of the literals. The lexing half of each test is covered by
  `Lexers.TokenizeCovers`.
