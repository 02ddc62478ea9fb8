/** Parsing what was printed. */
module RoundTrip {
  import opened Bytes
  import opened Json
  import opened Numbers
  import opened ParseSpec
  import opened Strings
  import opened Wrappers

  /** What may follow a value: not a byte a number could go on with. */
  predicate Stops(t: bytes) {
    t == [] || !IsNumberByte(t[0])
  }

  lemma {:induction false} SkipsPrefix(w: bytes, s: bytes)
    requires forall i :: 0 <= i < |w| ==> w[i] <= SPACE
    requires s != [] && s[0] > SPACE
    ensures SkipBlanks(w + s) == s
  {
    if w == [] {
      assert w + s == s;
    } else {
      SkipsPrefix(w[1..], s);
      assert (w + s)[1..] == w[1..] + s;
    }
  }

  lemma NoBlanks(s: bytes)
    requires s != [] && s[0] > SPACE
    ensures SkipBlanks(s) == s
  {
  }

  lemma QuotedParses(text: bytes, t: bytes)
    requires NulFree(text)
    ensures ParseString(Quoted(text) + t) == Some((text, t))
  {
    hide Escape, Scan, Decode, Closed, CString;
    var s := Quoted(text) + t;
    var e := Escape(text);
    assert s[1..] == e + [QUOTE] + t;
    EscapeIsClosed(text);
    ScanFindsClosed(e, t);
    assert s[1..1 + |e|] == e;
    EscapeRoundTrip(text);
    CStringOfTerminated(text, []);
    assert s[|e| + 2..] == t;
  }

  lemma NumberParses(n: int, t: bytes)
    requires Stops(t)
    ensures ParseNumber(DecimalText(n) + t) == Some((n as real, t))
  {
    var s := DecimalText(n);
    NumberRunStops(s, t);
    assert (s + t)[..|s|] == s;
    StrtodOfDecimal(n);
    assert (s + t)[|s|..] == t;
  }

  /** The first byte decides which parser runs. */
  lemma Dispatch(s: bytes, level: nat)
    requires s != []
    ensures s[0] == LEFT_BRACKET ==> ParseValue(s, level) == ParseArray(s, level)
    ensures s[0] == LEFT_BRACE ==> ParseValue(s, level) == ParseObject(s, level)
    ensures s[0] == QUOTE && ParseString(s).Some? ==>
              ParseValue(s, level) == Some((Str(ParseString(s).value.0), ParseString(s).value.1))
    ensures s[0] == QUOTE && ParseString(s) == None ==> ParseValue(s, level) == None
    ensures (s[0] == MINUS || IsDigit(s[0])) && ParseNumber(s).Some? ==>
              ParseValue(s, level) == Some((Number(ParseNumber(s).value.0), ParseNumber(s).value.1))
    ensures (s[0] == MINUS || IsDigit(s[0])) && ParseNumber(s) == None ==> ParseValue(s, level) == None
  {
    assert NULL_TEXT <= s ==> s[0] == NULL_TEXT[0];
    assert TRUE_TEXT <= s ==> s[0] == TRUE_TEXT[0];
    assert FALSE_TEXT <= s ==> s[0] == FALSE_TEXT[0];
  }

  lemma LiteralParses(w: bytes, t: bytes, level: nat)
    ensures ParseValue(NULL_TEXT + t, level) == Some((Null, t))
    ensures ParseValue(TRUE_TEXT + t, level) == Some((True, t))
    ensures ParseValue(FALSE_TEXT + t, level) == Some((False, t))
  {
    assert (NULL_TEXT + t)[..4] == NULL_TEXT && (NULL_TEXT + t)[4..] == t;
    assert (TRUE_TEXT + t)[..4] == TRUE_TEXT && (TRUE_TEXT + t)[4..] == t;
    assert (FALSE_TEXT + t)[..5] == FALSE_TEXT && (FALSE_TEXT + t)[5..] == t;
    assert (TRUE_TEXT + t)[0] == 116 && (FALSE_TEXT + t)[0] == 102;
    assert NULL_TEXT[0] == 110 && FALSE_TEXT[0] == 102;
  }

  lemma ScalarParses(v: Json, format: bool, depth: nat, level: nat, t: bytes)
    requires Wf(v) && !v.Array? && !v.Object? && Stops(t)
    ensures ParseValue(Render(v, format, depth) + t, level) == Some((v, t))
  {
    var s := Render(v, format, depth) + t;
    match v
    case Number(x) =>
      NumberParses(ValueInt(x), t);
      Dispatch(s, level);
    case Str(text) =>
      QuotedParses(text, t);
      Dispatch(s, level);
    case _ =>
      LiteralParses([], t, level);
  }

  // ----- one round of each loop -----

  lemma LastItem(s: bytes, level: nat, before: seq<Json>, v: Json, t: bytes)
    requires ParseValue(SkipBlanks(s), level) == Some((v, [RIGHT_BRACKET] + t))
    ensures ParseItems(s, level, before) == Some((Array(before + [v]), t))
  {
    var after := [RIGHT_BRACKET] + t;
    assert SkipBlanks(after) == after;
    assert after[1..] == t;
  }

  lemma NoItem(s: bytes, level: nat, before: seq<Json>)
    requires ParseValue(SkipBlanks(s), level) == None
    ensures ParseItems(s, level, before) == None
  {
  }

  lemma OneItem(s: bytes, level: nat, before: seq<Json>, v: Json, next: bytes)
    requires ParseValue(SkipBlanks(s), level) == Some((v, [COMMA] + next))
    ensures ParseItems(s, level, before) == ParseItems(next, level, before + [v])
  {
    var after := [COMMA] + next;
    assert SkipBlanks(after) == after;
    assert after[1..] == next;
  }

  lemma LastMember(s: bytes, level: nat, before: seq<Member>, m: Member, w: bytes, t: bytes)
    requires forall i :: 0 <= i < |w| ==> w[i] <= SPACE
    requires ParseMember(s, level) == Some((m, w + ([RIGHT_BRACE] + t)))
    ensures ParseMembers(s, level, before) == Some((Object(before + [m]), t))
  {
    SkipsPrefix(w, [RIGHT_BRACE] + t);
    assert ([RIGHT_BRACE] + t)[1..] == t;
  }

  lemma OneMember(s: bytes, level: nat, before: seq<Member>, m: Member, next: bytes)
    requires ParseMember(s, level) == Some((m, [COMMA] + next))
    ensures ParseMembers(s, level, before) == ParseMembers(next, level, before + [m])
  {
    var after := [COMMA] + next;
    assert SkipBlanks(after) == after;
    assert after[1..] == next;
  }

  /** Key and colon read, only the value is left. */
  lemma MemberStarts(s: bytes, level: nat, key: bytes, w: bytes, x: bytes)
    requires NulFree(key) && x != [] && x[0] > SPACE
    requires forall i :: 0 <= i < |w| ==> w[i] <= SPACE
    requires SkipBlanks(s) == Quoted(key) + ([COLON] + w + x)
    ensures ParseMember(s, level) ==
            match ParseValue(x, level)
            case None => None
            case Some((v, after)) => Some((Member(key, v), after))
  {
    hide ParseValue, ParseString, SkipBlanks, Quoted;
    var t := [COLON] + w + x;
    QuotedParses(key, t);
    NoBlanks(t);
    assert t[1..] == w + x;
    SkipsPrefix(w, x);
  }

  lemma ArrayStarts(inner: bytes, level: nat)
    requires inner != [] && inner[0] > SPACE
    ensures ParseValue([LEFT_BRACKET] + inner, level) ==
            if level >= NESTING_LIMIT then None
            else if inner[0] == RIGHT_BRACKET then Some((Array([]), inner[1..]))
            else ParseItems(inner, level + 1, [])
  {
    var s := [LEFT_BRACKET] + inner;
    Dispatch(s, level);
    assert s[1..] == inner;
    assert SkipBlanks(inner) == inner;
  }

  lemma ObjectStarts(w: bytes, inner: bytes, level: nat)
    requires inner != [] && inner[0] > SPACE
    requires forall i :: 0 <= i < |w| ==> w[i] <= SPACE
    ensures ParseValue([LEFT_BRACE] + (w + inner), level) ==
            if level >= NESTING_LIMIT then None
            else if inner[0] == RIGHT_BRACE then Some((Object([]), inner[1..]))
            else ParseMembers(inner, level + 1, [])
  {
    var s := [LEFT_BRACE] + (w + inner);
    Dispatch(s, level);
    assert s[1..] == w + inner;
    SkipsPrefix(w, inner);
  }

  // ----- the texts the loops stand in front of -----

  /** What follows an element. */
  function AfterItem(others: seq<Json>, format: bool, depth: nat, t: bytes): (r: bytes)
    ensures Stops(r)
  {
    if others == [] then [RIGHT_BRACKET] + t
    else [COMMA] + ((if format then [SPACE] else []) + (RenderItems(others, format, depth) + [RIGHT_BRACKET] + t))
  }

  lemma ArrayText(items: seq<Json>, format: bool, depth: nat, t: bytes)
    ensures Render(Array(items), format, depth) + t ==
            [LEFT_BRACKET] + (RenderItems(items, format, depth + 1) + [RIGHT_BRACKET] + t)
  {
  }

  lemma ItemsText(items: seq<Json>, format: bool, depth: nat, t: bytes)
    requires items != []
    ensures RenderItems(items, format, depth) + [RIGHT_BRACKET] + t ==
            Render(items[0], format, depth) + AfterItem(items[1..], format, depth, t)
  {
    hide Render;
    var others, v := items[1..], Render(items[0], format, depth);
    if others == [] {
      assert items == [items[0]];
      assert RenderItems(items, format, depth) == v;
    } else {
      var gap: bytes := if format then [SPACE] else [];
      assert ItemGap(format) == [COMMA] + gap;
      RegroupItems(v, gap, RenderItems(others, format, depth), t);
    }
  }

  lemma ItemsStart(items: seq<Json>, format: bool, depth: nat, t: bytes)
    requires items != []
    ensures var text := RenderItems(items, format, depth) + [RIGHT_BRACKET] + t;
            text != [] && text[0] > SPACE
  {
    hide Render;
    RenderStarts(items[0], format, depth);
  }

  lemma RegroupItems(v: bytes, gap: bytes, more: bytes, t: bytes)
    ensures v + ([COMMA] + gap + more) + [RIGHT_BRACKET] + t == v + ([COMMA] + (gap + (more + [RIGHT_BRACKET] + t)))
  {
  }

  function Tabs(format: bool, depth: nat): (r: bytes)
    ensures forall i :: 0 <= i < |r| ==> r[i] <= SPACE
  {
    if format then Repeat(TAB, depth) else []
  }

  function Break(format: bool): (r: bytes)
    ensures forall i :: 0 <= i < |r| ==> r[i] <= SPACE
  {
    if format then [NEWLINE] else []
  }

  /** The members of an object and all that follows them, from the first key on. */
  function MembersText(members: seq<Member>, format: bool, depth: nat, t: bytes): bytes
    requires members != [] && depth >= 1
    decreases members, 0
  {
    Quoted(members[0].key) + ([COLON] + (if format then [TAB] else []) +
                              (Render(members[0].value, format, depth) + AfterMember(members[1..], format, depth, t)))
  }

  lemma MembersTextStarts(members: seq<Member>, format: bool, depth: nat, t: bytes)
    requires members != [] && depth >= 1
    ensures var text := MembersText(members, format, depth, t); text != [] && text[0] == QUOTE
  {
  }

  function AfterMember(others: seq<Member>, format: bool, depth: nat, t: bytes): (r: bytes)
    requires depth >= 1
    ensures Stops(r)
    decreases others, 1
  {
    if others == [] then (Break(format) + Tabs(format, depth - 1)) + ([RIGHT_BRACE] + t)
    else [COMMA] + ((Break(format) + Tabs(format, depth)) + MembersText(others, format, depth, t))
  }

  lemma AfterMemberIsRendered(others: seq<Member>, format: bool, depth: nat, t: bytes, text: bytes)
    requires depth >= 1
    requires text == RenderMembers(others, format, depth) + ObjectClose(format, depth - 1) + t
    requires others != [] ==> text == Tabs(format, depth) + MembersText(others, format, depth, t)
    ensures AfterMember(others, format, depth, t) == MemberTail(others == [], format) + text
  {
    hide MembersText, Repeat;
    if others == [] {
      NoMembers([], format, depth);
      assert text == Tabs(format, depth - 1) + ([RIGHT_BRACE] + t);
      assert MemberTail(true, format) == Break(format);
    } else {
      hide Tabs, RenderMembers, ObjectClose;
      assert MemberTail(false, format) == [COMMA] + Break(format);
    }
  }

  lemma {:induction false} MembersTextIsRendered(members: seq<Member>, format: bool, depth: nat, t: bytes)
    requires members != [] && depth >= 1
    ensures RenderMembers(members, format, depth) + ObjectClose(format, depth - 1) + t ==
            Tabs(format, depth) + MembersText(members, format, depth, t)
  {
    var others := members[1..];
    var close := ObjectClose(format, depth - 1);
    var value := Render(members[0].value, format, depth);
    var inner := RenderMembers(others, format, depth);
    var tail := MemberTail(others == [], format);
    var colon := if format then [COLON, TAB] else [COLON];
    if others != [] {
      MembersTextIsRendered(others, format, depth, t);
    }
    AfterMemberIsRendered(others, format, depth, t, inner + close + t);
    var after := AfterMember(others, format, depth, t);
    var key := Quoted(members[0].key);
    assert colon == [COLON] + (if format then [TAB] else []);
    Regroup(Tabs(format, depth), key, colon, value, tail, inner, close, t);
    assert MembersText(members, format, depth, t) == key + (colon + (value + after));
  }

  lemma Regroup(a: bytes, b: bytes, c: bytes, d: bytes, e: bytes, f: bytes, g: bytes, h: bytes)
    ensures a + b + c + d + e + f + g + h == a + (b + (c + (d + (e + (f + g + h)))))
  {
    assert a + b + c + d + e + f + g + h == (a + b + c + d) + (e + (f + g + h));
    assert a + b + c + d + (e + (f + g + h)) == a + (b + (c + (d + (e + (f + g + h)))));
  }

  lemma ObjectText(members: seq<Member>, format: bool, depth: nat, t: bytes)
    ensures Render(Object(members), format, depth) + t == [LEFT_BRACE] +
            if members == [] then Break(format) + Tabs(format, depth) + ([RIGHT_BRACE] + t)
            else Break(format) + Tabs(format, depth + 1) + MembersText(members, format, depth + 1, t)
  {
    hide Quoted, Repeat;
    var inner := RenderMembers(members, format, depth + 1);
    var close := ObjectClose(format, depth);
    assert ObjectOpen(format) == [LEFT_BRACE] + Break(format);
    RegroupObject(Break(format), inner, close, t);
    if members == [] {
      NoMembers([], format, depth + 1);
      assert close == Tabs(format, depth) + [RIGHT_BRACE];
      RegroupClose(Break(format), Tabs(format, depth), t);
    } else {
      MembersTextIsRendered(members, format, depth + 1, t);
      hide RenderMembers, MembersText, Tabs, Break, ObjectClose;
      RegroupThree(Break(format), Tabs(format, depth + 1), MembersText(members, format, depth + 1, t));
    }
  }

  lemma RegroupObject(a: bytes, inner: bytes, close: bytes, t: bytes)
    ensures ([LEFT_BRACE] + a) + inner + close + t == [LEFT_BRACE] + (a + (inner + close + t))
  {
  }

  lemma RegroupClose(a: bytes, tabs: bytes, t: bytes)
    ensures a + ([] + (tabs + [RIGHT_BRACE]) + t) == a + tabs + ([RIGHT_BRACE] + t)
  {
  }

  // ----- the round trip -----

  /** The round trip at any place of a larger text: the value comes back, and with it exactly the
      bytes that followed it, unless it goes deeper than the limit, when nothing comes back. */
  lemma {:induction false} ValueParses(v: Json, format: bool, depth: nat, level: nat, t: bytes)
    requires Wf(v) && Stops(t) && level <= NESTING_LIMIT
    ensures ParseValue(Render(v, format, depth) + t, level) ==
            if level + Nesting(v) <= NESTING_LIMIT then Some((v, t)) else None
    decreases v, 3
  {
    match v
    case Array(items) =>
      ArrayParses(v, items, format, depth, level, t);
    case Object(members) =>
      ObjectParses(v, members, format, depth, level, t);
    case _ =>
      ScalarParses(v, format, depth, level, t);
  }

  lemma {:induction false} ArrayParses(v: Json, items: seq<Json>, format: bool, depth: nat, level: nat, t: bytes)
    requires v == Array(items) && Wf(v) && level <= NESTING_LIMIT
    ensures ParseValue(Render(v, format, depth) + t, level) ==
            if level + Nesting(v) <= NESTING_LIMIT then Some((v, t)) else None
    decreases v, 2
  {
    hide ParseValue, ParseItems, Render;
    var inner := RenderItems(items, format, depth + 1) + [RIGHT_BRACKET] + t;
    ArrayText(items, format, depth, t);
    if items == [] {
      assert inner == [RIGHT_BRACKET] + t;
      ArrayStarts(inner, level);
    } else {
      RenderStarts(items[0], format, depth + 1);
      ItemsText(items, format, depth + 1, t);
      ArrayStarts(inner, level);
      if level < NESTING_LIMIT {
        assert SkipBlanks(inner) == inner;
        ItemsParse(items, format, depth + 1, level + 1, [], inner, t);
        assert [] + items == items;
      }
    }
  }

  lemma {:induction false} ItemsParse(items: seq<Json>, format: bool, depth: nat, level: nat, before: seq<Json>,
                                      s: bytes, t: bytes)
    requires items != [] && WfItems(items) && level <= NESTING_LIMIT
    requires SkipBlanks(s) == RenderItems(items, format, depth) + [RIGHT_BRACKET] + t
    ensures ParseItems(s, level, before) ==
            if level + NestingItems(items) <= NESTING_LIMIT then Some((Array(before + items), t)) else None
    decreases items, 1
  {
    hide ParseValue, ParseItems, Render, RenderItems, SkipBlanks;
    var v := items[0];
    var others := items[1..];
    ItemsText(items, format, depth, t);
    ValueParses(v, format, depth, level, AfterItem(others, format, depth, t));
    if level + Nesting(v) <= NESTING_LIMIT {
      if others == [] {
        LastItem(s, level, before, v, t);
        assert items == [v];
      } else {
        var text := RenderItems(others, format, depth) + [RIGHT_BRACKET] + t;
        var gap: bytes := if format then [SPACE] else [];
        ItemsStart(others, format, depth, t);
        OneItem(s, level, before, v, gap + text);
        SkipsPrefix(gap, text);
        ItemsParse(others, format, depth, level, before + [v], gap + text, t);
        assert before + [v] + others == before + items;
      }
    } else {
      NoItem(s, level, before);
    }
  }

  lemma {:induction false} ObjectParses(v: Json, members: seq<Member>, format: bool, depth: nat, level: nat, t: bytes)
    requires v == Object(members) && Wf(v) && level <= NESTING_LIMIT
    ensures ParseValue(Render(v, format, depth) + t, level) ==
            if level + Nesting(v) <= NESTING_LIMIT then Some((v, t)) else None
    decreases v, 2
  {
    hide ParseValue, ParseMembers, Render, SkipBlanks;
    ObjectText(members, format, depth, t);
    NestingOfObject(members);
    if members == [] {
      hide MembersText;
      ObjectStarts(Break(format) + Tabs(format, depth), [RIGHT_BRACE] + t, level);
    } else {
      hide MembersText, Tabs, Break, Nesting, NestingMembers;
      FullObjectParses(members, format, depth, level, t);
    }
  }

  lemma {:induction false} FullObjectParses(members: seq<Member>, format: bool, depth: nat, level: nat, t: bytes)
    requires members != [] && WfMembers(members) && level <= NESTING_LIMIT
    ensures var text := Break(format) + Tabs(format, depth + 1) + MembersText(members, format, depth + 1, t);
            ParseValue([LEFT_BRACE] + text, level) ==
            if level + 1 + NestingMembers(members) <= NESTING_LIMIT then Some((Object(members), t)) else None
    decreases members, 2
  {
    hide ParseValue, ParseMembers, Render, SkipBlanks, MembersText, Tabs, Break, NestingMembers, WfMembers;
    MembersTextStarts(members, format, depth + 1, t);
    GapIsBlank(format, depth + 1);
    var text := MembersText(members, format, depth + 1, t);
    var w := Break(format) + Tabs(format, depth + 1);
    NoBlanks(text);
    ObjectStarts(w, text, level);
    if level < NESTING_LIMIT {
      MembersParse(members, format, depth + 1, level + 1, [], text, t);
      NothingBefore(members);
    }
  }

  lemma GapIsBlank(format: bool, depth: nat)
    ensures forall i :: 0 <= i < |Break(format) + Tabs(format, depth)| ==>
              (Break(format) + Tabs(format, depth))[i] <= SPACE
  {
  }

  lemma NothingBefore<T>(s: seq<T>)
    ensures [] + s == s
  {
  }

  lemma NestingOfObject(members: seq<Member>)
    ensures Nesting(Object(members)) == 1 + NestingMembers(members)
  {
  }

  lemma {:induction false} MembersParse(members: seq<Member>, format: bool, depth: nat, level: nat,
                                        before: seq<Member>, s: bytes, t: bytes)
    requires members != [] && WfMembers(members) && level <= NESTING_LIMIT && depth >= 1
    requires SkipBlanks(s) == MembersText(members, format, depth, t)
    ensures ParseMembers(s, level, before) ==
            if level + NestingMembers(members) <= NESTING_LIMIT then Some((Object(before + members), t)) else None
    decreases members, 1
  {
    hide ParseValue, ParseMember, Render, SkipBlanks, Quoted, Tabs, Break;
    var m := members[0];
    var others := members[1..];
    var after := AfterMember(others, format, depth, t);
    RenderStarts(m.value, format, depth);
    MemberStarts(s, level, m.key, if format then [TAB] else [], Render(m.value, format, depth) + after);
    ValueParses(m.value, format, depth, level, after);
    if level + Nesting(m.value) <= NESTING_LIMIT {
      assert Member(m.key, m.value) == m;
      if others == [] {
        LastMember(s, level, before, m, Break(format) + Tabs(format, depth - 1), t);
        assert members == [m];
      } else {
        var w := Break(format) + Tabs(format, depth);
        var text := MembersText(others, format, depth, t);
        OneMember(s, level, before, m, w + text);
        MembersTextStarts(others, format, depth, t);
        SkipsPrefix(w, text);
        MembersParse(others, format, depth, level, before + [m], w + text, t);
        assert before + [m] + others == before + members;
      }
    }
  }

  /** Section 7 of RFC 8259 meets the nesting limit: printing and parsing is the identity, compact or
      formatted, if and only if a value is at most that deep. */
  lemma TextRoundTrip(v: Json, format: bool, terminated: bool)
    requires Wf(v)
    ensures ParseText(Render(v, format, 0), terminated) ==
            if Nesting(v) <= NESTING_LIMIT then Some((v, [NUL])) else None
  {
    hide Render, ParseValue, CString, SkipBlanks, SkipBom, Nesting;
    var text := Render(v, format, 0);
    RenderBytes(v, format, 0);
    CStringOfTerminated(text, []);
    RenderStarts(v, format, 0);
    var s := text + [NUL];
    NoBom(s);
    NoBlanks(s);
    ValueParses(v, format, 0, 0, [NUL]);
    LastBlankStays();
  }

  lemma NoBom(s: bytes)
    requires s != [] && s[0] != BOM[0]
    ensures SkipBom(s) == s
  {
  }

  lemma LastBlankStays()
    ensures SkipBlanks([NUL]) == [NUL]
  {
  }

  // ----- what parsing yields -----

  /** All numbers are 32-bit integers. */
  ghost predicate Integers(v: Json)
    decreases v, 1
  {
    match v
    case Number(x) => IsInt32(x)
    case Array(items) => forall i :: 0 <= i < |items| ==> Integers(items[i])
    case Object(members) => forall i :: 0 <= i < |members| ==> Integers(members[i].value)
    case _ => true
  }

  lemma {:induction false} WfItemsAppend(items: seq<Json>, v: Json)
    ensures WfItems(items + [v]) <==> WfItems(items) && Wf(v)
    ensures NestingItems(items + [v]) == Max(NestingItems(items), Nesting(v))
  {
    if items == [] {
      assert [] + [v] == [v];
    } else {
      WfItemsAppend(items[1..], v);
      assert (items + [v])[1..] == items[1..] + [v];
    }
  }

  lemma {:induction false} WfMembersAppend(members: seq<Member>, m: Member)
    ensures WfMembers(members + [m]) <==> WfMembers(members) && NulFree(m.key) && Wf(m.value)
    ensures NestingMembers(members + [m]) == Max(NestingMembers(members), Nesting(m.value))
  {
    if members == [] {
      assert [] + [m] == [m];
    } else {
      WfMembersAppend(members[1..], m);
      assert (members + [m])[1..] == members[1..] + [m];
    }
  }

  /** Whatever the bytes, a parsed value holds C strings only and stays within the nesting limit. */
  lemma {:induction false} ParsedIsWf(s: bytes, level: nat)
    requires level <= NESTING_LIMIT && ParseValue(s, level).Some?
    ensures var v := ParseValue(s, level).value.0;
            level + Nesting(v) <= NESTING_LIMIT && (Integers(v) ==> Wf(v))
    decreases |s|, 1
  {
    hide ParseNumber, ParseString, ParseItems, ParseMembers;
    if s != [] {
      Dispatch(s, level);
      if s[0] == LEFT_BRACKET {
        var t := SkipBlanks(s[1..]);
        if t[0] != RIGHT_BRACKET { ParsedItemsAreWf(t, level + 1, []); }
      } else if s[0] == LEFT_BRACE {
        var t := SkipBlanks(s[1..]);
        if t[0] != RIGHT_BRACE { ParsedMembersAreWf(t, level + 1, []); }
      }
    }
  }

  lemma {:induction false} ParsedItemsAreWf(s: bytes, level: nat, before: seq<Json>)
    requires level <= NESTING_LIMIT && ParseItems(s, level, before).Some?
    requires level + NestingItems(before) <= NESTING_LIMIT
    requires (forall i :: 0 <= i < |before| ==> Integers(before[i])) ==> WfItems(before)
    ensures var v := ParseItems(s, level, before).value.0;
            v.Array? && level + NestingItems(v.items) <= NESTING_LIMIT && (Integers(v) ==> WfItems(v.items))
    decreases |s|, 2
  {
    hide ParseValue;
    var (v, rest) := ParseValue(SkipBlanks(s), level).value;
    ParsedIsWf(SkipBlanks(s), level);
    WfItemsAppend(before, v);
    var t := SkipBlanks(rest);
    var all := before + [v];
    if forall i :: 0 <= i < |all| ==> Integers(all[i]) {
      assert all[|before|] == v;
      assert forall i :: 0 <= i < |before| ==> before[i] == all[i];
    }
    if t[0] == COMMA {
      ParsedItemsAreWf(t[1..], level, all);
    }
  }

  lemma {:induction false} ParsedMembersAreWf(s: bytes, level: nat, before: seq<Member>)
    requires level <= NESTING_LIMIT && ParseMembers(s, level, before).Some?
    requires level + NestingMembers(before) <= NESTING_LIMIT
    requires (forall i :: 0 <= i < |before| ==> Integers(before[i].value)) ==> WfMembers(before)
    ensures var v := ParseMembers(s, level, before).value.0;
            v.Object? && level + NestingMembers(v.members) <= NESTING_LIMIT && (Integers(v) ==> WfMembers(v.members))
    decreases |s|, 2
  {
    hide ParseValue, ParseString;
    var (m, rest) := ParseMember(s, level).value;
    var afterKey := SkipBlanks(ParseString(SkipBlanks(s)).value.1);
    ParsedIsWf(SkipBlanks(afterKey[1..]), level);
    WfMembersAppend(before, m);
    var t := SkipBlanks(rest);
    var all := before + [m];
    if forall i :: 0 <= i < |all| ==> Integers(all[i].value) {
      assert all[|before|] == m;
      assert forall i :: 0 <= i < |before| ==> before[i] == all[i];
    }
    if t[0] == COMMA {
      ParsedMembersAreWf(t[1..], level, all);
    }
  }

  /** Any text at all: once parsed, printing and parsing again changes nothing, provided its numbers
      are 32-bit integers. */
  lemma ReprintedParsesSame(text: bytes, format: bool)
    requires ParseText(text, false).Some? && Integers(ParseText(text, false).value.0)
    ensures var v := ParseText(text, false).value.0;
            ParseText(Render(v, format, 0), true) == Some((v, [NUL]))
  {
    hide ParseValue, Render;
    var s := SkipBlanks(SkipBom(CString(text) + [NUL]));
    ParsedIsWf(s, 0);
    TextRoundTrip(ParseText(text, false).value.0, format, true);
  }
}
