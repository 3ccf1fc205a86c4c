/** The closed table of token types and its string conversions. */
module TokenTypes {
  import opened Errors

  /** token::Type, in declaration order. */
  datatype Type = Whitespace | Plus | Minus | Asterisk | Slash | LeftParen | RightParen | Number

  /** type_to_int: the enumerator's underlying value. */
  function TypeToInt(t: Type): nat {
    match t
    case Whitespace => 0
    case Plus => 1
    case Minus => 2
    case Asterisk => 3
    case Slash => 4
    case LeftParen => 5
    case RightParen => 6
    case Number => 7
  }

  /** Every type, indexed by its underlying value. */
  const AllTypes: seq<Type> :=
    [Whitespace, Plus, Minus, Asterisk, Slash, LeftParen, RightParen, Number]

  lemma AllTypesIndexedByInt(t: Type)
    ensures TypeToInt(t) < |AllTypes| && AllTypes[TypeToInt(t)] == t
  {
  }

  /** type_to_int_string: the underlying value in decimal (one digit here). */
  function TypeToIntString(t: Type): (s: string)
    ensures |s| == 1 && s[0] as int - '0' as int == TypeToInt(t)
  {
    ['0' + TypeToInt(t) as char]
  }

  /** The to-string table, in declaration order. The C++ code keeps it in an
      unordered map keyed by type, so no type occurs twice. */
  const ToStringEntries: seq<(Type, string)> := [
    (Whitespace, "whitespace"),
    (Plus, "+"),
    (Minus, "-"),
    (Asterisk, "*"),
    (Slash, "/"),
    (LeftParen, "("),
    (RightParen, ")"),
    (Number, "number")
  ]

  /** No two entries of `entries` share a string. */
  ghost predicate DistinctStrings(entries: seq<(Type, string)>) {
    forall i, j :: 0 <= i < j < |entries| ==> entries[i].1 != entries[j].1
  }

  const DuplicateMessage: string := "multiple tokens have the same string representation: "

  /** check_for_duplicates: walk the table remembering the strings seen, and
      reject the first string that was already seen. */
  method CheckForDuplicates(entries: seq<(Type, string)>) returns (r: Result<()>)
    ensures r.Ok? <==> DistinctStrings(entries)
    ensures r.Err? ==> r.error.LogicError?
    ensures r.Err? ==> exists j, k :: 0 <= j < k < |entries| && entries[j].1 == entries[k].1 && r.error.what == DuplicateMessage + entries[k].1
  {
    var seen: set<string> := {};
    var i := 0;
    while i < |entries|
      invariant 0 <= i <= |entries|
      invariant seen == set k | 0 <= k < i :: entries[k].1
      invariant DistinctStrings(entries[..i])
    {
      if entries[i].1 in seen {
        var k :| 0 <= k < i && entries[k].1 == entries[i].1;
        assert !DistinctStrings(entries) by {
          assert entries[k].1 == entries[i].1;
        }
        return Err(LogicError(DuplicateMessage + entries[i].1));
      }
      seen := seen + {entries[i].1};
      i := i + 1;
    }
    assert entries[..i] == entries;
    return Ok(());
  }

  lemma ToStringEntriesDistinct()
    ensures DistinctStrings(ToStringEntries)
  {
  }

  /** type_to_string: the table's string for the type. The table covers every
      type (EntryOfType), so type_to_string's "unsupported token type" error
      cannot occur. */
  function TypeToString(t: Type): string {
    ToStringEntries[TypeToInt(t)].1
  }

  /** The strings of a table. */
  ghost function Strings(entries: seq<(Type, string)>): set<string> {
    set i | 0 <= i < |entries| :: entries[i].1
  }

  /** A table's strings and their distinctness, one entry at a time. */
  lemma StringsSnoc(entries: seq<(Type, string)>)
    requires |entries| > 0
    ensures Strings(entries) == Strings(entries[..|entries| - 1]) + {entries[|entries| - 1].1}
    ensures DistinctStrings(entries) <==>
      DistinctStrings(entries[..|entries| - 1]) && entries[|entries| - 1].1 !in Strings(entries[..|entries| - 1])
  {
    var front := entries[..|entries| - 1];
    assert forall i :: 0 <= i < |front| ==> front[i] == entries[i];
    forall x | x in Strings(entries) ensures x in Strings(front) + {entries[|entries| - 1].1} {
      var i :| 0 <= i < |entries| && entries[i].1 == x;
      if i < |front| {
        assert front[i].1 == x;
      }
    }
    if entries[|entries| - 1].1 in Strings(front) {
      var i :| 0 <= i < |front| && front[i].1 == entries[|entries| - 1].1;
      assert entries[i].1 == entries[|entries| - 1].1;
    }
  }

  /** build_map: the inverse table, rejecting a string that occurs twice. */
  function BuildFromString(entries: seq<(Type, string)>): (r: Result<map<string, Type>>)
    ensures r.Ok? <==> DistinctStrings(entries)
    ensures r.Ok? ==> r.value.Keys == Strings(entries)
    ensures r.Ok? ==> forall i :: 0 <= i < |entries| ==> r.value[entries[i].1] == entries[i].0
    ensures r.Err? ==> r.error.LogicError?
  {
    if |entries| == 0 then Ok(map[])
    else
      var front := entries[..|entries| - 1];
      var last := entries[|entries| - 1];
      StringsSnoc(entries);
      var m :- BuildFromString(front);
      if last.1 in m then
        Err(LogicError(DuplicateMessage + last.1))
      else
        var inverse := m[last.1 := last.0];
        assert forall i :: 0 <= i < |entries| ==> entries[i].1 in inverse && inverse[entries[i].1] == entries[i].0 by {
          forall i | 0 <= i < |entries| ensures entries[i].1 in inverse && inverse[entries[i].1] == entries[i].0 {
            if i < |front| {
              assert entries[i] == front[i];
            }
          }
        }
        Ok(inverse)
  }

  const UnsupportedToken: string := "type_from_string: unsupported token: "

  /** The inverse of a table whose strings are distinct. */
  function InverseTable(entries: seq<(Type, string)>): (m: map<string, Type>)
    requires DistinctStrings(entries)
    ensures forall i :: 0 <= i < |entries| ==> entries[i].1 in m && m[entries[i].1] == entries[i].0
    ensures forall s :: s in m ==> exists i :: 0 <= i < |entries| && entries[i].1 == s
  {
    var r := BuildFromString(entries);
    assert forall s :: s in r.value ==> s in Strings(entries);
    r.value
  }

  /** Entry `TypeToInt(t)` of the to-string table is the entry for `t`, and
      holds its string. */
  lemma EntryOfType(t: Type)
    ensures TypeToInt(t) < |ToStringEntries| && ToStringEntries[TypeToInt(t)] == (t, TypeToString(t))
  {
  }

  /** Entry `i` of the to-string table is the entry for the type whose
      underlying value is `i`. */
  lemma EntryAtIndex(i: int)
    requires 0 <= i < |ToStringEntries|
    ensures TypeToInt(ToStringEntries[i].0) == i
  {
    if i == 0 {} else if i == 1 {} else if i == 2 {} else if i == 3 {}
    else if i == 4 {} else if i == 5 {} else if i == 6 {} else {}
  }

  /** Every key of the inverse of the to-string table is some type's string. */
  lemma InverseKeysAreTypeStrings(es: seq<(Type, string)>, m: map<string, Type>)
    requires es == ToStringEntries
    requires forall s :: s in m ==> exists i :: 0 <= i < |es| && es[i].1 == s
    ensures forall s :: s in m ==> exists t :: TypeToString(t) == s
  {
    forall s | s in m ensures exists t :: TypeToString(t) == s {
      var i :| 0 <= i < |es| && es[i].1 == s;
      EntryAtIndex(i);
      assert TypeToString(es[i].0) == s;
    }
  }

  /** The inverse table as the C++ code builds it once, at first use. The
      to-string table has no repeated string, so building it never throws. */
  function FromStringMap(): (m: map<string, Type>)
    ensures forall t :: TypeToString(t) in m && m[TypeToString(t)] == t
    ensures forall s :: s in m ==> exists t :: TypeToString(t) == s
  {
    ToStringEntriesDistinct();
    var m := InverseTable(ToStringEntries);
    forall t ensures TypeToString(t) in m && m[TypeToString(t)] == t {
      EntryOfType(t);
    }
    InverseKeysAreTypeStrings(ToStringEntries, m);
    m
  }

  /** type_from_string: look the string up in the inverse table. */
  function TypeFromString(s: string): (r: Result<Type>)
    ensures r.Ok? <==> exists t :: TypeToString(t) == s
    ensures r.Ok? ==> TypeToString(r.value) == s
    ensures r.Err? ==> r.error == LexerError(UnsupportedToken + s)
  {
    var m := FromStringMap();
    if s in m then Ok(m[s]) else Err(LexerError(UnsupportedToken + s))
  }

  /** Converting a type to its string and back gives the type again. */
  lemma TypeStringRoundTrip(t: Type)
    ensures TypeFromString(TypeToString(t)) == Ok(t)
  {
    var r := TypeFromString(TypeToString(t));
    assert r.Ok?;
    assert TypeToString(r.value) == TypeToString(t);
  }

  /** is_const_token: every type except whitespace and numbers. */
  predicate IsConstToken(t: Type) {
    !(t == Whitespace || t == Number)
  }

  /** const_tokens: the types of the table that are constant tokens. */
  function ConstTokens(): (ts: set<Type>)
    ensures ts == {Plus, Minus, Asterisk, Slash, LeftParen, RightParen}
    ensures forall t :: t in ts <==> IsConstToken(t)
  {
    var ts := set i | 0 <= i < |ToStringEntries| && IsConstToken(ToStringEntries[i].0) :: ToStringEntries[i].0;
    assert forall t :: ToStringEntries[TypeToInt(t)].0 == t;
    assert forall t :: t in ts <==> IsConstToken(t) by {
      forall t ensures t in ts <==> IsConstToken(t) {
        assert ToStringEntries[TypeToInt(t)].0 == t;
      }
    }
    ts
  }

  /** token_has_value: only numbers carry a value. */
  function TokenHasValue(t: Type): (b: bool)
    ensures b ==> !IsConstToken(t)
    ensures b <==> t != Whitespace && !IsConstToken(t)
  {
    t == Number
  }

  /** The constant lexemes are single, pairwise different characters, so no
      constant lexeme is a prefix of another: which constant token the input
      starts with never depends on the order in which they are tried. */
  lemma ConstLexemesPrefixFree(a: Type, b: Type)
    requires IsConstToken(a) && IsConstToken(b)
    ensures |TypeToString(a)| == 1
    ensures TypeToString(a) == TypeToString(b) <==> a == b
    ensures a != b ==> !(|TypeToString(a)| <= |TypeToString(b)| && TypeToString(b)[..|TypeToString(a)|] == TypeToString(a))
  {
  }
}
