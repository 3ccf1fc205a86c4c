/** Single-token recognisers (lexer::details): whitespace, constant lexemes
    and the number grammar. The lexer runs anchored regular expressions; the
    model scans the same prefixes directly and relates the scan to the
    regular language it stands for. */
module Recognisers {
  import opened Errors
  import opened Numbers
  import opened TokenTypes

  predicate IsDigit(c: char) {
    '0' <= c <= '9'
  }

  /** `\s` for narrow characters in the C locale. */
  predicate IsSpace(c: char) {
    c == ' ' || c == '\t' || c == '\n' || c == '\U{000B}' || c == '\U{000C}' || c == '\r'
  }

  /** The exponent marker; the number pattern is matched case-insensitively,
      so both cases are accepted. */
  predicate IsExpMarker(c: char) {
    c == 'e' || c == 'E'
  }

  predicate IsSign(c: char) {
    c == '+' || c == '-'
  }

  /** The first index at or after `i` whose character fails `p`. */
  function ScanWhile(s: string, i: nat, p: char -> bool): (j: nat)
    requires i <= |s|
    ensures i <= j <= |s|
    ensures forall k :: i <= k < j ==> p(s[k])
    ensures j < |s| ==> !p(s[j])
    decreases |s| - i
  {
    if i < |s| && p(s[i]) then ScanWhile(s, i + 1, p) else i
  }

  /** starts_with(a, b). */
  predicate StartsWith(a: string, b: string) {
    |a| >= |b| && a[..|b|] == b
  }

  // ---------------------------------------------------------------- whitespace

  ghost predicate AllSpace(w: string) {
    forall i :: 0 <= i < |w| ==> IsSpace(w[i])
  }

  /** parse_whitespace: the text matched by `^\s+`, or the empty text when the
      input does not start with whitespace. */
  function ParseWhitespace(s: string): (w: string)
    ensures |w| <= |s| && w == s[..|w|]
    ensures AllSpace(w)
    ensures |w| < |s| ==> !IsSpace(s[|w|])
  {
    s[..ScanWhile(s, 0, IsSpace)]
  }

  // ------------------------------------------------------------ number grammar

  ghost predicate AllDigits(w: string) {
    forall i :: 0 <= i < |w| ==> IsDigit(w[i])
  }

  /** `\d+(?:\.\d*)?|\.\d+` matches all of `w`. */
  ghost predicate IsMantissa(w: string) {
    || (|w| > 0 && AllDigits(w))
    || (exists k :: 0 < k < |w| && w[k] == '.' && AllDigits(w[..k]) && AllDigits(w[k + 1..]))
    || (|w| > 1 && w[0] == '.' && AllDigits(w[1..]))
  }

  /** `e[+-]?(\d*)` matches all of `x`, ignoring case. */
  ghost predicate IsExponent(x: string) {
    && |x| > 0
    && IsExpMarker(x[0])
    && (AllDigits(x[1..]) || (|x| > 1 && IsSign(x[1]) && AllDigits(x[2..])))
  }

  /** The whole number pattern `(?:\d+(?:\.\d*)?|\.\d+)(e[+-]?(\d*))?` matches
      all of `w`. */
  ghost predicate MatchesNumberRegex(w: string) {
    exists m {:trigger IsMantissa(w[..m])} :: 0 < m <= |w| && IsMantissa(w[..m]) && (m == |w| || IsExponent(w[m..]))
  }

  /** `s[..n]` is the longest prefix of `s` the number pattern matches. With
      greedy quantifiers and nothing after the optional exponent, the match
      an ECMAScript search anchored at the start finds is this prefix. */
  ghost predicate LongestMatch(s: string, n: nat) {
    && n <= |s|
    && MatchesNumberRegex(s[..n])
    && forall k {:trigger MatchesNumberRegex(s[..k])} :: n < k <= |s| ==> !MatchesNumberRegex(s[..k])
  }

  /** A matched number whose exponent group matched no digits: it ends in the
      marker or in the marker's sign. */
  predicate EndsInBareExponent(w: string) {
    |w| > 0 && (IsExpMarker(w[|w| - 1]) || IsSign(w[|w| - 1]))
  }

  /** A number lexeme the lexer accepts. */
  ghost predicate IsNumberLexeme(w: string) {
    MatchesNumberRegex(w) && !EndsInBareExponent(w)
  }

  /** Where the mantissa the input starts with ends, if it starts with one. */
  function MantissaEnd(s: string): Option<nat> {
    var d := ScanWhile(s, 0, IsDigit);
    if d > 0 then
      if d < |s| && s[d] == '.' then Some(ScanWhile(s, d + 1, IsDigit)) else Some(d)
    else if 1 < |s| && s[0] == '.' && IsDigit(s[1]) then Some(ScanWhile(s, 1, IsDigit))
    else None
  }

  /** The parts of a successful search the matcher inspects: the end of
      match[0], whether group 1 (the exponent) matched, and the length of
      group 2 (its digits). */
  datatype RegexMatch = RegexMatch(end: nat, exponent: bool, powerLength: nat)

  /** regex_search with the number pattern, anchored at the start. */
  function SearchNumber(s: string): Option<RegexMatch> {
    match MantissaEnd(s)
    case None => None
    case Some(m) =>
      if m < |s| && IsExpMarker(s[m]) then
        var p := if m + 1 < |s| && IsSign(s[m + 1]) then m + 2 else m + 1;
        var q := ScanWhile(s, p, IsDigit);
        Some(RegexMatch(q, true, q - p))
      else
        Some(RegexMatch(m, false, 0))
  }

  const ExponentHasNoDigits: string := "exponent has no digits: "

  /** RegexNumberMatcher::match: the length of the matched number; nothing
      when the input does not start with one; an error when the exponent
      marker is followed by no digits, since that marker certainly belongs to
      this number. */
  function MatchNumber(s: string): Result<Option<nat>> {
    match SearchNumber(s)
    case None => Ok(None)
    case Some(g) =>
      if g.exponent && g.powerLength == 0 then Err(LexerError(ExponentHasNoDigits + s[..g.end]))
      else Ok(Some(g.end))
  }

  // ---------------------------------------------------- proofs about the scan

  /** A run of digits starting at `i` ends no later than the scan from `i`. */
  lemma {:induction false} DigitRunBound(s: string, i: nat, k: nat)
    requires i <= k <= |s|
    requires AllDigits(s[i..k])
    ensures k <= ScanWhile(s, i, IsDigit)
    decreases k - i
  {
    if i < k {
      assert s[i..k][0] == s[i];
      assert s[i + 1..k] == s[i..k][1..];
      DigitRunBound(s, i + 1, k);
    }
  }

  lemma MantissaEndIsMantissa(s: string)
    requires MantissaEnd(s).Some?
    ensures 0 < MantissaEnd(s).value <= |s|
    ensures IsMantissa(s[..MantissaEnd(s).value])
    ensures IsDigit(s[MantissaEnd(s).value - 1]) || s[MantissaEnd(s).value - 1] == '.'
  {
    var d := ScanWhile(s, 0, IsDigit);
    var m := MantissaEnd(s).value;
    var w := s[..m];
    if d > 0 {
      if d < |s| && s[d] == '.' {
        assert w[d] == '.';
        assert AllDigits(w[..d]) by { assert forall i :: 0 <= i < d ==> w[..d][i] == s[i]; }
        assert w[d + 1..] == s[d + 1..m];
        assert 0 < d < |w|;
      } else {
        assert AllDigits(w);
      }
    } else {
      assert w[0] == '.';
      assert w[1..] == s[1..m];
    }
  }

  /** Every mantissa the input starts with ends no later than the scanned
      one, and stops on a digit or the point when it ends earlier. */
  lemma MantissaBound(s: string, m: nat)
    requires m <= |s|
    requires IsMantissa(s[..m])
    ensures MantissaEnd(s).Some?
    ensures m <= MantissaEnd(s).value
    ensures m < MantissaEnd(s).value ==> IsDigit(s[m]) || s[m] == '.'
  {
    var w := s[..m];
    var d := ScanWhile(s, 0, IsDigit);
    if |w| > 0 && AllDigits(w) {
      DigitRunBound(s, 0, m);
    } else if exists k :: 0 < k < |w| && w[k] == '.' && AllDigits(w[..k]) && AllDigits(w[k + 1..]) {
      var k :| 0 < k < |w| && w[k] == '.' && AllDigits(w[..k]) && AllDigits(w[k + 1..]);
      assert s[..k] == w[..k];
      DigitRunBound(s, 0, k);
      assert s[k] == '.';
      assert d == k;
      assert s[k + 1..m] == w[k + 1..];
      DigitRunBound(s, k + 1, m);
    } else {
      assert w[0] == '.' && AllDigits(w[1..]);
      assert s[0] == '.' && IsDigit(s[1]) by { assert w[1..][0] == w[1]; }
      assert d == 0;
      assert s[1..m] == w[1..];
      DigitRunBound(s, 1, m);
    }
  }

  /** With no mantissa at the start, no prefix matches the pattern. */
  lemma NoMantissaNoMatch(s: string, k: nat)
    requires MantissaEnd(s).None?
    requires k <= |s|
    ensures !MatchesNumberRegex(s[..k])
  {
    if MatchesNumberRegex(s[..k]) {
      var m :| 0 < m <= k && IsMantissa(s[..k][..m]) && (m == k || IsExponent(s[..k][m..]));
      assert s[..k][..m] == s[..m];
      MantissaBound(s, m);
    }
  }

  /** What the search returns is matched by the pattern. */
  lemma SearchNumberMatches(s: string)
    requires SearchNumber(s).Some?
    ensures 0 < SearchNumber(s).value.end <= |s|
    ensures MatchesNumberRegex(s[..SearchNumber(s).value.end])
  {
    MantissaEndIsMantissa(s);
    var m := MantissaEnd(s).value;
    var n := SearchNumber(s).value.end;
    var w := s[..n];
    assert w[..m] == s[..m];
    if m < |s| && IsExpMarker(s[m]) {
      var p := if m + 1 < |s| && IsSign(s[m + 1]) then m + 2 else m + 1;
      var x := w[m..];
      assert x == s[m..n];
      assert x[0] == s[m];
      if p == m + 2 {
        assert x[1] == s[m + 1];
        assert x[2..] == s[m + 2..n];
      } else {
        assert x[1..] == s[m + 1..n];
      }
      assert IsExponent(x);
    }
    assert 0 < m <= |w| && IsMantissa(w[..m]) && (m == |w| || IsExponent(w[m..]));
  }

  /** No prefix longer than the one the search returns is matched. */
  lemma SearchNumberMaximal(s: string, k: nat)
    requires SearchNumber(s).Some?
    requires SearchNumber(s).value.end < k <= |s|
    ensures !MatchesNumberRegex(s[..k])
  {
    var m := MantissaEnd(s).value;
    if MatchesNumberRegex(s[..k]) {
      var m' :| 0 < m' <= k && IsMantissa(s[..k][..m']) && (m' == k || IsExponent(s[..k][m'..]));
      assert s[..k][..m'] == s[..m'];
      MantissaBound(s, m');
      if m' < k {
        var x := s[..k][m'..];
        assert x == s[m'..k];
        assert x[0] == s[m'];
        assert m' == m;
        if k > m + 1 {
          assert x[1] == s[m + 1];
          if IsSign(s[m + 1]) {
            assert !AllDigits(x[1..]) by { assert x[1..][0] == x[1]; }
            assert s[m + 2..k] == x[2..];
            DigitRunBound(s, m + 2, k);
          } else {
            assert s[m + 1..k] == x[1..];
            DigitRunBound(s, m + 1, k);
          }
        }
      }
    }
  }

  /** The search's exponent check fires exactly when the match ends in a
      bare exponent. */
  lemma SearchNumberBareExponent(s: string)
    requires SearchNumber(s).Some?
    ensures 0 < SearchNumber(s).value.end <= |s|
    ensures var g := SearchNumber(s).value;
      g.exponent && g.powerLength == 0 <==> EndsInBareExponent(s[..g.end])
  {
    MantissaEndIsMantissa(s);
    var m := MantissaEnd(s).value;
    var g := SearchNumber(s).value;
    var n := g.end;
    assert s[..n][n - 1] == s[n - 1];
    if g.exponent {
      var p := if m + 1 < |s| && IsSign(s[m + 1]) then m + 2 else m + 1;
      if n > p {
        assert IsDigit(s[n - 1]);
      }
    }
  }

  /** The search succeeds exactly when some prefix matches the number
      pattern, and then it returns the longest such prefix; its exponent
      check fires exactly when that prefix ends in a bare exponent. */
  lemma SearchNumberFindsLongestMatch(s: string)
    ensures SearchNumber(s).None? ==> forall k {:trigger MatchesNumberRegex(s[..k])} :: 0 <= k <= |s| ==> !MatchesNumberRegex(s[..k])
    ensures SearchNumber(s).Some? ==> 0 < SearchNumber(s).value.end && LongestMatch(s, SearchNumber(s).value.end)
    ensures SearchNumber(s).Some? ==>
      var g := SearchNumber(s).value;
      (g.exponent && g.powerLength == 0 <==> EndsInBareExponent(s[..g.end]))
  {
    if SearchNumber(s).None? {
      forall k | 0 <= k <= |s| ensures !MatchesNumberRegex(s[..k]) {
        NoMantissaNoMatch(s, k);
      }
    } else {
      SearchNumberMatches(s);
      SearchNumberBareExponent(s);
      forall k | SearchNumber(s).value.end < k <= |s| ensures !MatchesNumberRegex(s[..k]) {
        SearchNumberMaximal(s, k);
      }
    }
  }

  /** The number matcher, stated against the pattern: nothing when no prefix
      matches; the longest match when it has exponent digits or no exponent;
      the "exponent has no digits" error otherwise. */
  lemma MatchNumberSpec(s: string)
    ensures MatchNumber(s) == Ok(None) <==> forall k {:trigger MatchesNumberRegex(s[..k])} :: 0 <= k <= |s| ==> !MatchesNumberRegex(s[..k])
    ensures MatchNumber(s).Ok? && MatchNumber(s).value.Some? ==>
      var n := MatchNumber(s).value.value;
      0 < n && LongestMatch(s, n) && IsNumberLexeme(s[..n])
    ensures MatchNumber(s).Err? ==>
      exists n: nat :: LongestMatch(s, n) && EndsInBareExponent(s[..n])
        && MatchNumber(s).error == LexerError(ExponentHasNoDigits + s[..n])
  {
    SearchNumberFindsLongestMatch(s);
    if SearchNumber(s).Some? {
      var n := SearchNumber(s).value.end;
      assert MatchesNumberRegex(s[..n]);
      assert !(forall k {:trigger MatchesNumberRegex(s[..k])} :: 0 <= k <= |s| ==> !MatchesNumberRegex(s[..k]));
    }
  }

  /** The longest match is unique. */
  lemma LongestMatchUnique(s: string, n: nat, n': nat)
    requires LongestMatch(s, n) && LongestMatch(s, n')
    ensures n == n'
  {
  }

  /** A matched number starts with a digit or a point. */
  lemma NumberLexemeStart(w: string)
    requires MatchesNumberRegex(w)
    ensures |w| > 0 && (IsDigit(w[0]) || w[0] == '.')
  {
    var m :| 0 < m <= |w| && IsMantissa(w[..m]) && (m == |w| || IsExponent(w[m..]));
    var v := w[..m];
    assert v[0] == w[0];
    if |v| > 0 && AllDigits(v) {
    } else if exists k :: 0 < k < |v| && v[k] == '.' && AllDigits(v[..k]) && AllDigits(v[k + 1..]) {
      var k :| 0 < k < |v| && v[k] == '.' && AllDigits(v[..k]) && AllDigits(v[k + 1..]);
      assert v[..k][0] == v[0];
    }
  }

  /** A constant lexeme is one character that neither starts a number nor
      is whitespace. */
  lemma ConstLexemeChar(t: Type)
    requires IsConstToken(t)
    ensures |TypeToString(t)| == 1
    ensures !IsDigit(TypeToString(t)[0]) && TypeToString(t)[0] != '.' && !IsSpace(TypeToString(t)[0])
  {
    ConstLexemesPrefixFree(t, t);
  }

  /** The constant types are exactly the ones tried. */
  lemma ConstTokenOrderComplete(t: Type)
    ensures IsConstToken(t) <==> t in ConstTokenOrder
  {
  }

  // ----------------------------------------------------------- number values

  function Pow10(n: nat): (p: real)
    ensures p >= 1.0
  {
    if n == 0 then 1.0 else 10.0 * Pow10(n - 1)
  }

  function DigitValue(c: char): nat {
    if IsDigit(c) then c as int - '0' as int else 0
  }

  /** The decimal value of a run of digits. */
  function DigitsValue(ds: string): nat {
    if |ds| == 0 then 0 else 10 * DigitsValue(ds[..|ds| - 1]) + DigitValue(ds[|ds| - 1])
  }

  /** The exact value std::stod gives a number lexeme, before rounding:
      integer digits, fraction digits and a signed decimal exponent. */
  function LexemeValue(w: string): real {
    var d := ScanWhile(w, 0, IsDigit);
    var f := if d < |w| && w[d] == '.' then ScanWhile(w, d + 1, IsDigit) else d;
    var frac := if f > d then w[d + 1..f] else "";
    var mantissa := DigitsValue(w[..d] + frac) as real / Pow10(|frac|);
    if f < |w| && IsExpMarker(w[f]) then
      var negative := f + 1 < |w| && w[f + 1] == '-';
      var p := if f + 1 < |w| && IsSign(w[f + 1]) then f + 2 else f + 1;
      var e := DigitsValue(w[p..]);
      if negative then mantissa / Pow10(e) else mantissa * Pow10(e)
    else mantissa
  }

  /** parse_number: the value and the text of the number the input starts
      with. The conversion of a matched lexeme cannot fail on exact reals, so
      the lexer's "couldn't parse number" error has no counterpart. What it
      reads is stated by ParseNumberSound. */
  function ParseNumber(s: string): (r: Result<Option<(Num, string)>>)
    ensures r.Ok? && r.value.Some? ==> 0 < |r.value.value.1| <= |s| && r.value.value.1 == s[..|r.value.value.1|]
    ensures r.Err? <==> MatchNumber(s).Err?
    ensures r.Err? ==> r.error == MatchNumber(s).error
  {
    MatchNumberSpec(s);
    match MatchNumber(s)
    case Err(e) => Err(e)
    case Ok(None) => Ok(None)
    case Ok(Some(n)) => Ok(Some((Exact(LexemeValue(s[..n])), s[..n])))
  }

  /** parse_number reads the longest prefix the number pattern matches, when
      that is a lexeme the lexer accepts, with its decimal value; it reads
      nothing exactly when no prefix matches. */
  lemma ParseNumberSound(s: string)
    ensures ParseNumber(s).Ok? && ParseNumber(s).value.Some? ==>
      var (v, w) := ParseNumber(s).value.value;
      w == s[..|w|] && LongestMatch(s, |w|) && IsNumberLexeme(w) && v == Exact(LexemeValue(w))
    ensures ParseNumber(s).Ok? && ParseNumber(s).value.None? <==>
      forall k {:trigger MatchesNumberRegex(s[..k])} :: 0 <= k <= |s| ==> !MatchesNumberRegex(s[..k])
  {
    MatchNumberSpec(s);
  }

  // ---------------------------------------------------------- constant lexemes

  /** parse_const_token, trying the constant types in the order given: the
      first whose lexeme starts the input, with that lexeme as the token. */
  function ParseConstTokenIn(order: seq<Type>, s: string): (r: Option<(Type, string)>)
    ensures r.Some? ==> r.value.0 in order && StartsWith(s, TypeToString(r.value.0)) && r.value.1 == TypeToString(r.value.0)
    ensures r.None? ==> forall t :: t in order ==> !StartsWith(s, TypeToString(t))
  {
    if |order| == 0 then None
    else
      var lexeme := TypeToString(order[0]);
      if StartsWith(s, lexeme) then Some((order[0], s[..|lexeme|]))
      else ParseConstTokenIn(order[1..], s)
  }

  /** One enumeration of const_tokens(); the C++ code's set is unordered. */
  const ConstTokenOrder: seq<Type> := [Plus, Minus, Asterisk, Slash, LeftParen, RightParen]

  function ParseConstToken(s: string): Option<(Type, string)> {
    ParseConstTokenIn(ConstTokenOrder, s)
  }

  /** At most one constant lexeme starts any input. */
  lemma OneConstLexemeAtATime(s: string, a: Type, b: Type)
    requires IsConstToken(a) && IsConstToken(b)
    requires StartsWith(s, TypeToString(a)) && StartsWith(s, TypeToString(b))
    ensures a == b
  {
    ConstLexemesPrefixFree(a, b);
    ConstLexemesPrefixFree(b, a);
    assert TypeToString(a) == s[..1] == TypeToString(b);
  }

  /** parse_const_token yields type `t` exactly when the input starts with
      `t`'s lexeme, and the token is that lexeme. */
  lemma ParseConstTokenSpec(s: string, t: Type)
    requires IsConstToken(t)
    ensures ParseConstToken(s) == Some((t, TypeToString(t))) <==> StartsWith(s, TypeToString(t))
    ensures ParseConstToken(s).Some? ==> IsConstToken(ParseConstToken(s).value.0)
  {
    var r := ParseConstToken(s);
    if StartsWith(s, TypeToString(t)) {
      assert t in ConstTokenOrder;
      OneConstLexemeAtATime(s, t, r.value.0);
    }
  }

  /** The order in which the unordered set of constant types is walked does
      not matter: every enumeration gives the same answer. */
  lemma ParseConstTokenOrderIrrelevant(order: seq<Type>, s: string)
    requires forall t :: t in order <==> IsConstToken(t)
    ensures ParseConstTokenIn(order, s) == ParseConstToken(s)
  {
    var r := ParseConstTokenIn(order, s);
    var q := ParseConstToken(s);
    if r.Some? {
      ParseConstTokenSpec(s, r.value.0);
    } else if q.Some? {
      ParseConstTokenSpec(s, q.value.0);
    }
  }
}
