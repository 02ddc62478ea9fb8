/** Parsing a C string never reads over its terminator. */
module Terminated {
  import opened Bytes
  import opened Json
  import opened Numbers
  import opened ParseSpec
  import opened RoundTrip
  import opened Strings

  predicate EndsNul(s: bytes) {
    s != [] && s[|s| - 1] == NUL
  }

  lemma {:induction false} DropKeeps(s: bytes)
    ensures DropBlanks(s) == s[|s| - |DropBlanks(s)|..]
  {
    if s != [] && s[0] <= SPACE {
      DropKeeps(s[1..]);
    }
  }

  lemma SkipKeeps(s: bytes)
    requires EndsNul(s)
    ensures EndsNul(SkipBlanks(s))
  {
    DropKeeps(s);
  }

  lemma StringKeeps(s: bytes)
    requires EndsNul(s) && ParseString(s).Some?
    ensures EndsNul(ParseString(s).value.1)
  {
    hide Scan, Decode;
    var n := Scan(s[1..]).value;
    assert s[1..][n] == s[n + 1];
  }

  lemma {:induction false} RunStopsAtNul(s: bytes)
    requires EndsNul(s)
    ensures NumberRun(s) < |s|
  {
    if IsNumberByte(s[0]) {
      assert |s| > 1;
      RunStopsAtNul(s[1..]);
    }
  }

  lemma NumberKeeps(s: bytes)
    requires EndsNul(s) && ParseNumber(s).Some?
    ensures EndsNul(ParseNumber(s).value.1)
  {
    hide Strtod, NumberRun;
    RunStopsAtNul(s);
  }

  lemma {:induction false} ValueKeeps(s: bytes, level: nat)
    requires EndsNul(s) && ParseValue(s, level).Some?
    ensures EndsNul(ParseValue(s, level).value.1)
    decreases |s|, 1
  {
    hide ParseNumber, ParseString, ParseItems, ParseMembers, SkipBlanks;
    Dispatch(s, level);
    if NULL_TEXT <= s || FALSE_TEXT <= s || TRUE_TEXT <= s {
      assert NULL_TEXT <= s ==> s[3] == NULL_TEXT[3];
      assert FALSE_TEXT <= s ==> s[4] == FALSE_TEXT[4];
      assert TRUE_TEXT <= s ==> s[3] == TRUE_TEXT[3];
    } else if s[0] == QUOTE {
      StringKeeps(s);
    } else if s[0] == MINUS || IsDigit(s[0]) {
      NumberKeeps(s);
    } else if s[0] == LEFT_BRACKET {
      SkipKeeps(s[1..]);
      var t := SkipBlanks(s[1..]);
      if t[0] != RIGHT_BRACKET { ItemsKeep(t, level + 1, []); }
    } else if s[0] == LEFT_BRACE {
      SkipKeeps(s[1..]);
      var t := SkipBlanks(s[1..]);
      if t[0] != RIGHT_BRACE { MembersKeep(t, level + 1, []); }
    }
  }

  lemma {:induction false} ItemsKeep(s: bytes, level: nat, before: seq<Json>)
    requires EndsNul(s) && ParseItems(s, level, before).Some?
    ensures EndsNul(ParseItems(s, level, before).value.1)
    decreases |s|, 2
  {
    hide ParseValue, SkipBlanks;
    SkipKeeps(s);
    ValueKeeps(SkipBlanks(s), level);
    var (v, rest) := ParseValue(SkipBlanks(s), level).value;
    SkipKeeps(rest);
    var t := SkipBlanks(rest);
    if t[0] == COMMA { ItemsKeep(t[1..], level, before + [v]); }
  }

  lemma {:induction false} MembersKeep(s: bytes, level: nat, before: seq<Member>)
    requires EndsNul(s) && ParseMembers(s, level, before).Some?
    ensures EndsNul(ParseMembers(s, level, before).value.1)
    decreases |s|, 2
  {
    hide ParseValue, ParseString, SkipBlanks;
    var (m, rest) := ParseMember(s, level).value;
    SkipKeeps(s);
    StringKeeps(SkipBlanks(s));
    var afterKey := ParseString(SkipBlanks(s)).value.1;
    SkipKeeps(afterKey);
    var colon := SkipBlanks(afterKey);
    SkipKeeps(colon[1..]);
    ValueKeeps(SkipBlanks(colon[1..]), level);
    SkipKeeps(rest);
    var t := SkipBlanks(rest);
    if t[0] == COMMA { MembersKeep(t[1..], level, before + [m]); }
  }

  /** What follows a value that was read from a C string still has the string's NUL at its end. */
  lemma TextKeepsTerminator(t: bytes)
    requires ParseBuffer(t + [NUL], false).Some?
    ensures EndsNul(ParseBuffer(t + [NUL], false).value.1)
  {
    hide ParseValue, SkipBlanks;
    var s := SkipBom(t + [NUL]);
    assert EndsNul(s);
    SkipKeeps(s);
    ValueKeeps(SkipBlanks(s), 0);
  }
}
