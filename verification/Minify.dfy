/** Removing blanks and comments from JSON text, in place. */
module Minify {
  import opened Bytes
  import opened Json

  predicate IsBlank(b: byte) {
    b == SPACE || b == TAB || b == RETURN || b == NEWLINE
  }

  /** What is left after a line comment's text. */
  function SkipLine(s: bytes): (r: bytes)
    ensures |r| <= |s|
  {
    if s == [] then [] else if s[0] == NEWLINE then s[1..] else SkipLine(s[1..])
  }

  /** What is left after a block comment's text, ended or not. */
  function SkipComment(s: bytes): (r: bytes)
    ensures |r| <= |s|
  {
    if s == [] then []
    else if s[0] == STAR && |s| > 1 && s[1] == SLASH then s[2..]
    else SkipComment(s[1..])
  }

  /** The minified rest of a text, read from outside a string. */
  function Outside(s: bytes): (r: bytes)
    ensures |r| <= |s|
    decreases |s|
  {
    if s == [] then []
    else if IsBlank(s[0]) then Outside(s[1..])
    else if s[0] == SLASH then
      if |s| > 1 && s[1] == SLASH then Outside(SkipLine(s[2..]))
      else if |s| > 1 && s[1] == STAR then Outside(SkipComment(s[2..]))
      else Outside(s[1..])
    else if s[0] == QUOTE then [QUOTE] + Inside(s[1..])
    else [s[0]] + Outside(s[1..])
  }

  /** The minified rest of a text, read from inside a string. Only `\"` counts as an escape: a
      backslash that is itself escaped still hides a quote behind it. */
  function Inside(s: bytes): (r: bytes)
    ensures |r| <= |s|
    decreases |s|
  {
    if s == [] then []
    else if s[0] == QUOTE then [QUOTE] + Outside(s[1..])
    else if s[0] == BACKSLASH && |s| > 1 && s[1] == QUOTE then [BACKSLASH, QUOTE] + Inside(s[2..])
    else [s[0]] + Inside(s[1..])
  }

  // ----- what it does to each part of a text -----

  /** Outside strings: blanks go, a line comment goes with its line break, a block comment goes with its first end
      mark, a comment that does not end takes the rest with it, any other slash goes, and every other byte stays. A
      quote starts a string. */
  lemma Removed(b: byte, c: bytes, t: bytes)
    ensures b in [32, 9, 13, 10] ==> Outside([b] + t) == Outside(t)
    ensures 10 !in c ==> Outside([47, 47] + (c + ([10] + t))) == Outside(t) && Outside([47, 47] + c) == []
    ensures NoEndMark(c + [42]) ==> Outside([47, 42] + (c + ([42, 47] + t))) == Outside(t)
    ensures NoEndMark(c) ==> Outside([47, 42] + c) == []
    ensures (t == [] || (t[0] != 47 && t[0] != 42)) ==> Outside([47] + t) == Outside(t)
    ensures b !in [32, 9, 13, 10, 47, 34] ==> Outside([b] + t) == [b] + Outside(t)
    ensures Outside([34] + t) == [34] + Inside(t)
  {
    hide Inside;
    assert ([b] + t)[1..] == t && ([47] + t)[1..] == t && ([34] + t)[1..] == t;
    if 10 !in c {
      var s := c + ([10] + t);
      assert ([47, 47] + s)[2..] == s && ([47, 47] + c)[2..] == c;
      LineSkipped(c, t);
    }
    if NoEndMark(c + [42]) {
      var s := c + ([42, 47] + t);
      assert ([47, 42] + s)[2..] == s;
      CommentSkipped(c, t);
    }
    if NoEndMark(c) {
      assert ([47, 42] + c)[2..] == c;
      CommentUnended(c);
    }
  }

  /** Inside them every byte stays; a quote ends the string unless a backslash stands in front of it. */
  lemma Kept(b: byte, t: bytes)
    ensures Inside([34] + t) == [34] + Outside(t)
    ensures Inside([92, 34] + t) == [92, 34] + Inside(t)
    ensures b != 34 && (b == 92 ==> t == [] || t[0] != 34) ==> Inside([b] + t) == [b] + Inside(t)
  {
    hide Outside;
    assert ([34] + t)[1..] == t && ([92, 34] + t)[2..] == t && ([b] + t)[1..] == t;
  }

  /** No star with a slash behind it. */
  predicate NoEndMark(s: bytes) {
    forall i :: 0 < i < |s| ==> !(s[i - 1] == 42 && s[i] == 47)
  }

  lemma {:induction false} LineSkipped(c: bytes, t: bytes)
    requires 10 !in c
    ensures SkipLine(c + ([10] + t)) == t && SkipLine(c) == []
  {
    var s := c + ([10] + t);
    if c == [] {
      assert s[1..] == t;
    } else {
      assert c[0] in c;
      LineSkipped(c[1..], t);
      assert s[1..] == c[1..] + ([10] + t);
    }
  }

  lemma {:induction false} CommentSkipped(c: bytes, t: bytes)
    requires NoEndMark(c + [42])
    ensures SkipComment(c + ([42, 47] + t)) == t
  {
    var s := c + ([42, 47] + t);
    if c == [] {
      assert s[2..] == t;
    } else {
      assert (c + [42])[0] == c[0] && (c + [42])[1] == s[1];
      NoEndMarkRest(c + [42]);
      assert (c + [42])[1..] == c[1..] + [42];
      CommentSkipped(c[1..], t);
      assert s[1..] == c[1..] + ([42, 47] + t);
    }
  }

  lemma NoEndMarkRest(s: bytes)
    requires NoEndMark(s) && s != []
    ensures NoEndMark(s[1..])
  {
    assert forall i :: 0 < i < |s| - 1 ==> s[1..][i - 1] == s[i] && s[1..][i] == s[i + 1];
  }

  lemma {:induction false} CommentUnended(c: bytes)
    requires NoEndMark(c)
    ensures SkipComment(c) == []
  {
    if c != [] {
      NoEndMarkRest(c);
      CommentUnended(c[1..]);
    }
  }

  // ----- on printed text -----

  predicate EndsInBackslash(s: bytes) {
    s != [] && s[|s| - 1] == BACKSLASH
  }

  /** No string and no key ends in a backslash. */
  predicate Clean(v: Json)
    decreases v, 1
  {
    match v
    case Str(t) => !EndsInBackslash(t)
    case Array(items) => CleanItems(items)
    case Object(members) => CleanMembers(members)
    case _ => true
  }

  predicate CleanItems(items: seq<Json>)
    decreases items, 0
  {
    items == [] || (Clean(items[0]) && CleanItems(items[1..]))
  }

  predicate CleanMembers(members: seq<Member>)
    decreases members, 0
  {
    members == [] || (!EndsInBackslash(members[0].key) && Clean(members[0].value) && CleanMembers(members[1..]))
  }

  /** One string ends in a backslash, and nothing but closing brackets comes after it. */
  predicate LastOnly(v: Json)
    decreases v, 1
  {
    match v
    case Str(t) => EndsInBackslash(t)
    case Array(items) => LastOnlyItems(items)
    case _ => false
  }

  predicate LastOnlyItems(items: seq<Json>)
    decreases items, 0
  {
    items != [] &&
    if |items| == 1 then LastOnly(items[0]) else Clean(items[0]) && LastOnlyItems(items[1..])
  }

  /** Two texts differ at a place both have. */
  ghost predicate Differ(s: bytes, t: bytes) {
    exists p :: 0 <= p < |s| && p < |t| && s[p] != t[p]
  }

  lemma DifferAfter(w: bytes, s: bytes, t: bytes, u: bytes)
    requires Differ(s, t)
    ensures Differ(w + s, w + t + u)
  {
    var p :| 0 <= p < |s| && p < |t| && s[p] != t[p];
    assert (w + s)[|w| + p] != (w + t + u)[|w| + p];
  }

  lemma {:induction false} OutsideBlanks(w: bytes, t: bytes)
    requires forall i :: 0 <= i < |w| ==> IsBlank(w[i])
    ensures Outside(w + t) == Outside(t)
  {
    if w == [] {
      assert w + t == t;
    } else {
      OutsideBlanks(w[1..], t);
      assert (w + t)[1..] == w[1..] + t;
    }
  }

  predicate IsSolid(b: byte) {
    !IsBlank(b) && b != SLASH && b != QUOTE
  }

  lemma {:induction false} OutsideSolid(w: bytes, t: bytes)
    requires forall i :: 0 <= i < |w| ==> IsSolid(w[i])
    ensures Outside(w + t) == w + Outside(t)
  {
    if w == [] {
      assert w + t == t;
    } else {
      OutsideSolid(w[1..], t);
      assert (w + t)[1..] == w[1..] + t;
    }
  }

  lemma InsideOne(b: byte, t: bytes)
    requires b != QUOTE && (b != BACKSLASH || t == [] || t[0] != QUOTE)
    ensures Inside([b] + t) == [b] + Inside(t)
  {
    assert ([b] + t)[1..] == t;
  }

  lemma InsideEscapedQuote(t: bytes)
    ensures Inside([BACKSLASH, QUOTE] + t) == [BACKSLASH, QUOTE] + Inside(t)
  {
    assert ([BACKSLASH, QUOTE] + t)[2..] == t;
  }

  lemma {:induction false} InsidePlains(w: bytes, t: bytes)
    requires forall i :: 0 <= i < |w| ==> w[i] != QUOTE && w[i] != BACKSLASH
    ensures Inside(w + t) == w + Inside(t)
  {
    if w == [] {
      assert w + t == t;
    } else {
      InsidePlains(w[1..], t);
      InsideOne(w[0], w[1..] + t);
      assert w + t == [w[0]] + (w[1..] + t);
    }
  }

  /** One escaped byte inside a string, when a quote does not come next. */
  lemma InsideEscaped(b: byte, t: bytes)
    requires b != BACKSLASH || (t != [] && t[0] != QUOTE)
    ensures Inside(EscapeByte(b) + t) == EscapeByte(b) + Inside(t)
  {
    hide Inside;
    var e := EscapeByte(b);
    if |e| == 1 {
      InsideOne(b, t);
    } else if b == QUOTE {
      InsideEscapedQuote(t);
    } else {
      var w := e[1..];
      assert e + t == [BACKSLASH] + (w + t);
      InsideOne(BACKSLASH, w + t);
      if b == BACKSLASH {
        InsideOne(BACKSLASH, t);
      } else {
        InsidePlains(w, t);
      }
    }
  }

  lemma EscapeStart(s: bytes)
    requires s != []
    ensures Escape(s) != [] && Escape(s)[0] != QUOTE
  {
    assert Escape(s)[0] == EscapeByte(s[0])[0];
  }

  lemma InsideLastBackslash(t: bytes)
    ensures Inside(Escape([BACKSLASH]) + ([QUOTE] + t)) == Escape([BACKSLASH]) + ([QUOTE] + Inside(t))
  {
    hide Inside;
    var s: bytes := [BACKSLASH];
    assert Escape(s) == EscapeByte(BACKSLASH) + Escape(s[1..]);
    assert Escape(s) == [BACKSLASH, BACKSLASH];
    assert [BACKSLASH, BACKSLASH] + ([QUOTE] + t) == [BACKSLASH] + ([BACKSLASH, QUOTE] + t);
    InsideOne(BACKSLASH, [BACKSLASH, QUOTE] + t);
    InsideEscapedQuote(t);
  }

  /** A quoted text is copied whole; what follows is read from outside it, unless its last byte is a
      backslash. */
  lemma {:induction false} InsideQuoted(s: bytes, t: bytes)
    ensures Inside(Escape(s) + ([QUOTE] + t)) ==
            Escape(s) + ([QUOTE] + if EndsInBackslash(s) then Inside(t) else Outside(t))
    decreases |s|, 1
  {
    var close := [QUOTE] + t;
    if s == [] {
      assert Escape(s) + close == close;
      assert close[1..] == t;
    } else if s == [BACKSLASH] {
      InsideLastBackslash(t);
    } else {
      InsideQuotedMore(s, t);
    }
  }

  lemma {:induction false} InsideQuotedMore(s: bytes, t: bytes)
    requires s != [] && s != [BACKSLASH]
    ensures Inside(Escape(s) + ([QUOTE] + t)) ==
            Escape(s) + ([QUOTE] + if EndsInBackslash(s) then Inside(t) else Outside(t))
    decreases |s|, 0
  {
    hide EscapeByte, Outside, Inside, Escape;
    var close := [QUOTE] + t;
    var first, others := EscapeByte(s[0]), Escape(s[1..]);
    EscapeFirst(s);
    if |s| > 1 { EscapeStart(s[1..]); }
    var after := [QUOTE] + if EndsInBackslash(s) then Inside(t) else Outside(t);
    InsideQuoted(s[1..], t);
    assert EndsInBackslash(s[1..]) == EndsInBackslash(s);
    InsideEscaped(s[0], others + close);
    RegroupThree(first, others, close);
    RegroupThree(first, others, after);
  }

  lemma EscapeFirst(s: bytes)
    requires s != []
    ensures Escape(s) == EscapeByte(s[0]) + Escape(s[1..])
    ensures |s| == 1 ==> Escape(s[1..]) == []
  {
  }

  lemma OutsideQuoted(s: bytes, t: bytes)
    ensures Outside(Quoted(s) + t) == Quoted(s) + if EndsInBackslash(s) then Inside(t) else Outside(t)
  {
    hide Inside, Escape;
    var inner := Escape(s) + ([QUOTE] + t);
    assert Quoted(s) + t == [QUOTE] + inner;
    assert ([QUOTE] + inner)[1..] == inner;
    InsideQuoted(s, t);
    assert Outside([QUOTE] + inner) == [QUOTE] + Inside(inner);
  }

  /** Minifying a formatted text that `t` follows, against the compact text `r`: copied exactly, copied
      and left inside a string, or different. */
  ghost predicate Outcome(m: bytes, r: bytes, t: bytes, clean: bool, last: bool) {
    && (clean ==> m == r + Outside(t))
    && (last ==> m == r + Inside(t))
    && (!clean && !last ==> Differ(m, r))
  }

  lemma OutcomeAfter(w: bytes, m: bytes, r: bytes, t: bytes, clean: bool, last: bool)
    requires Outcome(m, r, t, clean, last)
    ensures Outcome(w + m, w + r, t, clean, last)
  {
    hide Outside, Inside;
    if clean {
      assert w + (r + Outside(t)) == w + r + Outside(t);
    }
    if last {
      assert w + (r + Inside(t)) == w + r + Inside(t);
    }
    if !clean && !last {
      DifferAfter(w, m, r, []);
      assert w + r + [] == w + r;
    }
  }

  lemma DifferLonger(m: bytes, r: bytes, u: bytes)
    requires Differ(m, r)
    ensures Differ(m, r + u)
  {
    DifferAfter([], m, r, u);
    assert [] + m == m && [] + r + u == r + u;
  }

  /** The copies part where one goes on with a blank and the other does not. */
  lemma DifferAtBlank(w: bytes, s: bytes, t: bytes)
    requires s != [] && s[0] <= SPACE && t != [] && t[0] > SPACE
    ensures Differ(w + s, w + t)
  {
    assert (w + s)[|w|] != (w + t)[|w|];
  }

  lemma {:induction false} LastIsNotClean(v: Json)
    requires LastOnly(v)
    ensures !Clean(v)
    decreases v, 1
  {
    if v.Array? {
      LastItemsAreNotClean(v.items);
    }
  }

  lemma {:induction false} LastItemsAreNotClean(items: seq<Json>)
    requires LastOnlyItems(items)
    ensures !CleanItems(items)
    decreases items, 0
  {
    if |items| == 1 {
      LastIsNotClean(items[0]);
    } else {
      LastItemsAreNotClean(items[1..]);
    }
  }

  /** The three ways a value goes: see `Outcome`. */
  lemma {:induction false} MinifiesValue(v: Json, depth: nat, t: bytes)
    ensures Outcome(Outside(Render(v, true, depth) + t), Render(v, false, depth), t, Clean(v), LastOnly(v))
    decreases v, 2
  {
    match v
    case Str(s) =>
      hide Outside, Inside, Quoted;
      OutsideQuoted(s, t);
    case Array(items) =>
      MinifiesArray(v, items, depth, t);
    case Object(members) =>
      MinifiesObject(v, members, depth, t);
    case _ =>
      MinifiesScalar(v, depth, t);
  }

  lemma MinifiesScalar(v: Json, depth: nat, t: bytes)
    requires !v.Str? && !v.Array? && !v.Object?
    ensures Outside(Render(v, true, depth) + t) == Render(v, false, depth) + Outside(t)
  {
    hide Digits;
    OutsideSolid(Render(v, true, depth), t);
  }

  /** A closing bracket is copied from outside a string and from inside one. */
  lemma OutcomeClosed(m: bytes, r: bytes, t: bytes, clean: bool, last: bool)
    requires Outcome(m, r, [RIGHT_BRACKET] + t, clean, last)
    ensures Outcome(m, r + [RIGHT_BRACKET], t, clean, last)
  {
    OutsideSolid([RIGHT_BRACKET], t);
    InsidePlains([RIGHT_BRACKET], t);
    hide Outside, Inside;
    if clean {
      assert r + ([RIGHT_BRACKET] + Outside(t)) == r + [RIGHT_BRACKET] + Outside(t);
    }
    if last {
      assert r + ([RIGHT_BRACKET] + Inside(t)) == r + [RIGHT_BRACKET] + Inside(t);
    }
    if !clean && !last {
      DifferLonger(m, r, [RIGHT_BRACKET]);
    }
  }

  lemma {:induction false} MinifiesArray(v: Json, items: seq<Json>, depth: nat, t: bytes)
    requires v == Array(items)
    ensures Outcome(Outside(Render(v, true, depth) + t), Render(v, false, depth), t, Clean(v), LastOnly(v))
    decreases v, 1
  {
    hide Render, RenderItems;
    var close := [RIGHT_BRACKET] + t;
    var text := RenderItems(items, true, depth + 1) + close;
    var compact := RenderItems(items, false, depth + 1);
    ArrayFrame(items, true, depth);
    ArrayFrame(items, false, depth);
    assert Render(v, true, depth) + t == [LEFT_BRACKET] + text;
    OutsideSolid([LEFT_BRACKET], text);
    hide Outside, Inside;
    if items == [] {
      NoItems(items, true, depth + 1);
      NoItems(items, false, depth + 1);
      assert text == close;
      assert [] + Outside(close) == Outside(close);
    } else {
      MinifiesItems(items, depth + 1, close);
    }
    OutcomeClosed(Outside(text), compact, t, CleanItems(items), LastOnlyItems(items));
    OutcomeAfter([LEFT_BRACKET], Outside(text), compact + [RIGHT_BRACKET], t, CleanItems(items), LastOnlyItems(items));
    assert Clean(v) == CleanItems(items) && LastOnly(v) == LastOnlyItems(items);
  }

  /** A separator and the blanks behind it: the blanks go if they are read outside a string, and stay
      if inside. */
  lemma SeparatorMinifies(w: bytes, blanks: bytes, x: bytes)
    requires forall i :: 0 <= i < |w| ==> IsSolid(w[i]) && w[i] != BACKSLASH
    requires forall i :: 0 <= i < |blanks| ==> IsBlank(blanks[i])
    ensures Outside(w + blanks + x) == w + Outside(x)
    ensures Inside(w + blanks + x) == w + (blanks + Inside(x))
  {
    assert w + blanks + x == w + (blanks + x);
    OutsideSolid(w, blanks + x);
    OutsideBlanks(blanks, x);
    InsidePlains(w, blanks + x);
    InsidePlains(blanks, x);
  }

  /** A first part with text `r`, a separator, and a second part with text `rest`. */
  lemma Seam(m: bytes, r: bytes, w: bytes, blanks: bytes, outside: bytes, inside: bytes, rest: bytes, t: bytes,
             clean: bool, last: bool, restClean: bool, restLast: bool)
    requires clean ==> m == r + (w + outside)
    requires last ==> m == r + (w + (blanks + inside)) && !clean
    requires !clean && !last ==> Differ(m, r)
    requires blanks != [] && blanks[0] <= SPACE && rest != [] && rest[0] > SPACE
    requires Outcome(outside, rest, t, restClean, restLast)
    ensures Outcome(m, r + (w + rest), t, clean && restClean, clean && restLast)
  {
    hide Outside, Inside;
    if clean {
      OutcomeAfter(w, outside, rest, t, restClean, restLast);
      OutcomeAfter(r, w + outside, w + rest, t, restClean, restLast);
    } else if last {
      DifferAtBlank(r + w, blanks + inside, rest);
      assert r + (w + (blanks + inside)) == r + w + (blanks + inside);
      assert r + (w + rest) == r + w + rest;
    } else {
      DifferLonger(m, r, w + rest);
    }
  }

  lemma {:induction false} MinifiesItems(items: seq<Json>, depth: nat, t: bytes)
    requires items != []
    ensures Outcome(Outside(RenderItems(items, true, depth) + t), RenderItems(items, false, depth), t,
                    CleanItems(items), LastOnlyItems(items))
    decreases items, 0
  {
    hide Outside, Inside, Render, RenderItems;
    var v, others := items[0], items[1..];
    var r := Render(v, false, depth);
    ItemsTaken(items, true, depth);
    ItemsTaken(items, false, depth);
    if others == [] {
      MinifiesValue(v, depth, t);
      assert Render(v, true, depth) + [] == Render(v, true, depth) && r + [] == r;
    } else {
      var x := RenderItems(others, true, depth) + t;
      var rest := RenderItems(others, false, depth);
      MinifiesValue(v, depth, [COMMA] + [SPACE] + x);
      MinifiesItems(others, depth, t);
      assert RenderItems(items, true, depth) + t == Render(v, true, depth) + ([COMMA] + [SPACE] + x);
      RestStarts(others, depth);
      if LastOnly(v) { LastIsNotClean(v); }
      SeparatorMinifies([COMMA], [SPACE], x);
      Seam(Outside(Render(v, true, depth) + ([COMMA] + [SPACE] + x)), r, [COMMA], [SPACE], Outside(x), Inside(x), rest,
           t,
           Clean(v), LastOnly(v), CleanItems(others), LastOnlyItems(others));
    }
  }

  lemma ItemsTaken(items: seq<Json>, format: bool, depth: nat)
    requires items != []
    ensures RenderItems(items, format, depth) ==
            Render(items[0], format, depth) +
            if |items| == 1 then [] else ItemGap(format) + RenderItems(items[1..], format, depth)
    ensures CleanItems(items) == (Clean(items[0]) && CleanItems(items[1..]))
    ensures LastOnlyItems(items) ==
            if |items| == 1 then LastOnly(items[0]) else Clean(items[0]) && LastOnlyItems(items[1..])
    ensures ItemGap(true) == [COMMA] + [SPACE]
  {
    hide Render;
  }

  lemma RestStarts(items: seq<Json>, depth: nat)
    requires items != []
    ensures RenderItems(items, false, depth) != [] && RenderItems(items, false, depth)[0] > SPACE
  {
    RenderStarts(items[0], false, depth);
  }

  lemma {:induction false} MinifiesObject(v: Json, members: seq<Member>, depth: nat, t: bytes)
    requires v == Object(members)
    ensures Outcome(Outside(Render(v, true, depth) + t), Render(v, false, depth), t, Clean(v), false)
    decreases v, 1
  {
    hide Outside, Inside, Render, RenderMembers, ObjectClose;
    var text := RenderMembers(members, true, depth + 1) + (ObjectClose(true, depth) + t);
    var compact := RenderMembers(members, false, depth + 1) + [RIGHT_BRACE];
    ObjectTexts(members, depth, t);
    SeparatorMinifies([LEFT_BRACE], [NEWLINE], text);
    MinifiesMembers(members, depth + 1, t);
    OutcomeAfter([LEFT_BRACE], Outside(text), compact, t, CleanMembers(members), false);
    assert Clean(v) == CleanMembers(members);
  }

  lemma ObjectTexts(members: seq<Member>, depth: nat, t: bytes)
    ensures Render(Object(members), true, depth) + t ==
            [LEFT_BRACE] + [NEWLINE] + (RenderMembers(members, true, depth + 1) + (ObjectClose(true, depth) + t))
    ensures Render(Object(members), false, depth) ==
            [LEFT_BRACE] + (RenderMembers(members, false, depth + 1) + [RIGHT_BRACE])
  {
    hide Render, RenderMembers, Repeat;
    ObjectFrame(members, true, depth);
    ObjectFrame(members, false, depth);
    var close := ObjectClose(true, depth);
    RegroupThree([LEFT_BRACE, NEWLINE], RenderMembers(members, true, depth + 1) + close, t);
    RegroupThree(RenderMembers(members, true, depth + 1), close, t);
    assert ObjectClose(false, depth) == [RIGHT_BRACE];
  }

  /** What separates a member from what follows it, in compact text. */
  function Separator(others: seq<Member>): bytes {
    if others == [] then [] else [COMMA]
  }

  /** A printed object from one member on, taken apart at that member. */
  lemma MemberTaken(members: seq<Member>, format: bool, depth: nat, close: bytes)
    requires members != []
    ensures var m, others := members[0], members[1..];
            RenderMembers(members, format, depth) + close ==
            (if format then Repeat(TAB, depth) else []) +
            (Quoted(m.key) +
             ([COLON] + (if format then [TAB] else []) +
              (Render(m.value, format, depth) +
               (Separator(others) + (if format then [NEWLINE] else []) +
                (RenderMembers(others, format, depth) + close)))))
  {
    hide Render, Quoted, Repeat, RenderMembers, MemberText, MemberHead;
    var m, others := members[0], members[1..];
    MembersTaken(members, format, depth);
    MemberFrame(m, others == [], format, depth);
    var indent := if format then Repeat(TAB, depth) else [];
    var colon := if format then [COLON, TAB] else [COLON];
    var gap := if format then [TAB] else [];
    var tail := Separator(others) + (if format then [NEWLINE] else []);
    assert colon == [COLON] + gap;
    assert MemberTail(others == [], format) == tail;
    Reassociate(indent, Quoted(m.key), [COLON], gap, Render(m.value, format, depth), tail,
                RenderMembers(others, format, depth), close);
  }

  lemma MembersTaken(members: seq<Member>, format: bool, depth: nat)
    requires members != []
    ensures RenderMembers(members, format, depth) ==
            MemberText(members[0], members[1..] == [], format, depth) + RenderMembers(members[1..], format, depth)
  {
    hide Render, MemberHead, MemberTail;
  }

  lemma Reassociate(a: bytes, b: bytes, c: bytes, d: bytes, e: bytes, f: bytes, g: bytes, h: bytes)
    ensures a + (b + ((c + d) + (e + f))) + g + h == a + (b + (c + d + (e + (f + (g + h)))))
  {
    assert (e + f) + (g + h) == e + (f + (g + h));
    assert a + (b + ((c + d) + (e + f))) + g + h == a + (b + ((c + d) + ((e + f) + (g + h))));
  }

  lemma CompactRestStarts(members: seq<Member>, depth: nat)
    ensures var r := RenderMembers(members, false, depth) + [RIGHT_BRACE];
            r != [] && r[0] > SPACE
  {
  }

  /** The members of an object together with its closing brace. */
  lemma {:induction false} MinifiesMembers(members: seq<Member>, depth: nat, t: bytes)
    requires depth >= 1
    ensures Outcome(Outside(RenderMembers(members, true, depth) + (ObjectClose(true, depth - 1) + t)),
                    RenderMembers(members, false, depth) + [RIGHT_BRACE], t, CleanMembers(members), false)
    decreases members, 0
  {
    hide Outside, Inside, Render, RenderMembers, Quoted;
    var close := ObjectClose(true, depth - 1) + t;
    if members == [] {
      NoMembers(members, true, depth);
      NoMembers(members, false, depth);
      assert [] + close == Repeat(TAB, depth - 1) + ([RIGHT_BRACE] + t);
      OutsideBlanks(Repeat(TAB, depth - 1), [RIGHT_BRACE] + t);
      OutsideSolid([RIGHT_BRACE], t);
      assert [] + [RIGHT_BRACE] == [RIGHT_BRACE];
    } else {
      var m, others := members[0], members[1..];
      var text := RenderMembers(others, true, depth) + close;
      var rest := RenderMembers(others, false, depth) + [RIGHT_BRACE];
      var value := Render(m.value, true, depth) + (Separator(others) + [NEWLINE] + text);
      MemberTaken(members, true, depth, close);
      MemberTaken(members, false, depth, [RIGHT_BRACE]);
      OutsideBlanks(Repeat(TAB, depth), Quoted(m.key) + ([COLON] + [TAB] + value));
      MinifiesMembers(others, depth, t);
      var r := Render(m.value, false, depth) + (Separator(others) + rest);
      MinifiesMemberValue(m.value, others, depth, text, rest, t);
      OutsideQuoted(m.key, [COLON] + [TAB] + value);
      SeparatorMinifies([COLON], [TAB], value);
      RenderStarts(m.value, false, depth);
      Seam(Outside(Quoted(m.key) + ([COLON] + [TAB] + value)), Quoted(m.key), [COLON], [TAB],
           Outside(value), Inside(value), r, t,
           !EndsInBackslash(m.key), EndsInBackslash(m.key), Clean(m.value) && CleanMembers(others), false);
      assert RenderMembers(members, false, depth) + [RIGHT_BRACE] == Quoted(m.key) + ([COLON] + r);
      assert CleanMembers(members) == (!EndsInBackslash(m.key) && Clean(m.value) && CleanMembers(others));
    }
  }

  lemma {:induction false} MinifiesMemberValue(v: Json, others: seq<Member>, depth: nat, text: bytes,
                                                rest: bytes, t: bytes)
    requires rest == RenderMembers(others, false, depth) + [RIGHT_BRACE]
    requires Outcome(Outside(text), rest, t, CleanMembers(others), false)
    ensures Outcome(Outside(Render(v, true, depth) + (Separator(others) + [NEWLINE] + text)),
                    Render(v, false, depth) + (Separator(others) + rest), t, Clean(v) && CleanMembers(others), false)
    decreases v, 3
  {
    hide Outside, Inside, Render, RenderMembers;
    MinifiesValue(v, depth, Separator(others) + [NEWLINE] + text);
    if LastOnly(v) { LastIsNotClean(v); }
    SeparatorMinifies(Separator(others), [NEWLINE], text);
    CompactRestStarts(others, depth);
    Seam(Outside(Render(v, true, depth) + (Separator(others) + [NEWLINE] + text)), Render(v, false, depth),
         Separator(others), [NEWLINE], Outside(text), Inside(text), rest, t,
         Clean(v), LastOnly(v), CleanMembers(others), false);
  }

  /** The exact condition: minifying formatted text gives the compact text byte for byte if and only if
      no string or key ends in a backslash, but for a last string that only `]` follow. */
  lemma MinifyIsCompact(v: Json)
    ensures Outside(Render(v, true, 0)) == Render(v, false, 0) <==> Clean(v) || LastOnly(v)
  {
    MinifiesValue(v, 0, []);
    hide Render;
    assert Render(v, true, 0) + [] == Render(v, true, 0);
    assert Render(v, false, 0) + [] == Render(v, false, 0);
  }

  /** The array of a string that is one backslash and of `null` is one value it fails for. */
  lemma MinifyFails()
    ensures var v := Array([Str([BACKSLASH]), Null]);
            Outside(Render(v, true, 0)) != Render(v, false, 0)
  {
    hide Outside, Render;
    var items := [Str([BACKSLASH]), Null];
    MinifyIsCompact(Array(items));
    assert !Clean(items[0]);
    assert !CleanItems(items) && !LastOnlyItems(items);
  }

  // ----- in place -----

  lemma {:induction false} OutsideIsNulFree(s: bytes)
    requires NulFree(s)
    ensures NulFree(Outside(s))
    decreases |s|
  {
    hide Inside;
    if s != [] {
      if s[0] == QUOTE {
        InsideIsNulFree(s[1..]);
      } else {
        OutsideIsNulFree(s[1..]);
        if s[0] == SLASH && |s| > 1 {
          SkippedIsSuffix(s[2..]);
          OutsideIsNulFree(SkipLine(s[2..]));
          OutsideIsNulFree(SkipComment(s[2..]));
        }
      }
    }
  }

  lemma {:induction false} InsideIsNulFree(s: bytes)
    requires NulFree(s)
    ensures NulFree(Inside(s))
    decreases |s|
  {
    hide Outside;
    if s != [] {
      if s[0] == QUOTE {
        OutsideIsNulFree(s[1..]);
      } else {
        InsideIsNulFree(s[1..]);
        if |s| > 1 { InsideIsNulFree(s[2..]); }
      }
    }
  }

  lemma {:induction false} SkippedIsSuffix(s: bytes)
    ensures SkipLine(s) == s[|s| - |SkipLine(s)|..]
    ensures SkipComment(s) == s[|s| - |SkipComment(s)|..]
  {
    if s != [] {
      SkippedIsSuffix(s[1..]);
    }
  }

  /** The text `s` from `at` on has not been read or overwritten yet, nor has its NUL. */
  ghost predicate Unread(a: array<byte>, s: bytes, at: nat)
    reads a
  {
    && NulFree(s) && at <= |s| < a.Length && a[|s|] == NUL
    && forall i :: at <= i < |s| ==> a[i] == s[i]
  }

  /** One byte of a text read on, wherever reading stands. */
  lemma ReadOn(s: bytes, at: nat)
    requires at < |s|
    ensures s[at..][0] == s[at] && s[at..][1..] == s[at + 1..]
    ensures at + 1 < |s| ==> s[at..][1] == s[at + 1] && s[at..][2..] == s[at + 2..]
  {
  }

  method SkipOnelineComment(a: array<byte>, ghost s: bytes, from: nat) returns (json: nat)
    requires Unread(a, s, from) && from + 2 <= |s|
    ensures from + 2 <= json <= |s| && s[json..] == SkipLine(s[from + 2..])
  {
    json := from + 2;
    while a[json] != NUL
      invariant from + 2 <= json <= |s| && SkipLine(s[json..]) == SkipLine(s[from + 2..])
      decreases |s| - json
    {
      ReadOn(s, json);
      if a[json] == NEWLINE {
        json := json + 1;
        return;
      }
      json := json + 1;
    }
  }

  method SkipMultilineComment(a: array<byte>, ghost s: bytes, from: nat) returns (json: nat)
    requires Unread(a, s, from) && from + 2 <= |s|
    ensures from + 2 <= json <= |s| && s[json..] == SkipComment(s[from + 2..])
  {
    json := from + 2;
    while a[json] != NUL
      invariant from + 2 <= json <= |s| && SkipComment(s[json..]) == SkipComment(s[from + 2..])
      decreases |s| - json
    {
      ReadOn(s, json);
      if a[json] == STAR && a[json + 1] == SLASH {
        json := json + 2;
        return;
      }
      json := json + 1;
    }
  }

  /** The bytes written so far and what is still to be written make up the minified text. */
  ghost predicate Written(a: array<byte>, into: nat, rest: bytes, all: bytes)
    reads a
  {
    into <= a.Length && a[..into] + rest == all
  }

  /** One byte carried from the read position to the write position. */
  method Carry(a: array<byte>, ghost s: bytes, json: nat, into: nat, ghost rest: bytes, ghost all: bytes)
    requires Unread(a, s, json) && json < |s| && into <= json
    requires Written(a, into, [s[json]] + rest, all)
    modifies a
    ensures Unread(a, s, json + 1) && Written(a, into + 1, rest, all)
    ensures forall i :: |s| < i < a.Length ==> a[i] == old(a[i])
  {
    ghost var done := a[..into];
    a[into] := a[json];
    assert a[..into + 1] == done + [s[json]];
    assert done + [s[json]] + rest == done + ([s[json]] + rest);
  }

  method MinifyString(a: array<byte>, ghost s: bytes, from: nat, start: nat, ghost all: bytes)
    returns (json: nat, into: nat)
    requires Unread(a, s, from) && from < |s| && s[from] == QUOTE && start <= from
    requires Written(a, start, Outside(s[from..]), all)
    modifies a
    ensures from < json <= |s| && into <= json && Unread(a, s, json)
    ensures Written(a, into, Outside(s[json..]), all)
    ensures forall i :: |s| < i < a.Length ==> a[i] == old(a[i])
  {
    hide Outside, Inside, Written;
    StartString(s, from);
    Carry(a, s, from, start, Inside(s[from + 1..]), all);
    json, into := from + 1, start + 1;
    while a[json] != NUL
      invariant from < json <= |s| && into <= json && Unread(a, s, json)
      invariant Written(a, into, Inside(s[json..]), all)
      invariant forall i :: |s| < i < a.Length ==> a[i] == old(a[i])
      decreases |s| - json
    {
      InsideStep(s, json);
      if a[json] == QUOTE {
        Carry(a, s, json, into, Outside(s[json + 1..]), all);
        json, into := json + 1, into + 1;
        return;
      } else if a[json] == BACKSLASH && a[json + 1] == QUOTE {
        assert [BACKSLASH, QUOTE] + Inside(s[json + 2..]) == [BACKSLASH] + ([QUOTE] + Inside(s[json + 2..]));
        Carry(a, s, json, into, [QUOTE] + Inside(s[json + 2..]), all);
        Carry(a, s, json + 1, into + 1, Inside(s[json + 2..]), all);
        json, into := json + 1, into + 1;
      } else {
        Carry(a, s, json, into, Inside(s[json + 1..]), all);
      }
      json, into := json + 1, into + 1;
    }
    EndOfText(s, json);
  }

  lemma StartString(s: bytes, at: nat)
    requires at < |s| && s[at] == QUOTE
    ensures Outside(s[at..]) == [QUOTE] + Inside(s[at + 1..])
  {
    ReadOn(s, at);
  }

  lemma EndOfText(s: bytes, at: nat)
    requires at == |s|
    ensures Outside(s[at..]) == [] && Inside(s[at..]) == []
  {
  }

  /** `cJSON_Minify`: the C string in `a` becomes its minified text; the write position never passes
      the read position, and nothing behind the old terminator changes. */
  method MinifyInPlace(a: array<byte>)
    requires |CString(a[..])| < a.Length
    modifies a
    ensures |CString(a[..])| < a.Length && CString(a[..]) == Outside(old(CString(a[..])))
    ensures var n := |old(CString(a[..]))|;
            a[n + 1..] == old(a[n + 1..])
  {
    hide Outside, Inside, CString;
    ghost var s := CString(a[..]);
    ghost var all := Outside(s);
    assert forall i :: 0 <= i < |s| ==> a[..][i] == s[i];
    var json, into: nat := 0, 0;
    assert s[0..] == s && a[..0] + all == all;
    while a[json] != NUL
      invariant into <= json <= |s| && Unread(a, s, json)
      invariant Written(a, into, Outside(s[json..]), all)
      invariant forall i :: |s| < i < a.Length ==> a[i] == old(a[i])
      decreases |s| - json
    {
      OutsideStep(s, json);
      if a[json] == SPACE || a[json] == TAB || a[json] == RETURN || a[json] == NEWLINE {
        json := json + 1;
      } else if a[json] == SLASH {
        if a[json + 1] == SLASH {
          json := SkipOnelineComment(a, s, json);
        } else if a[json + 1] == STAR {
          json := SkipMultilineComment(a, s, json);
        } else {
          json := json + 1;
        }
      } else if a[json] == QUOTE {
        json, into := MinifyString(a, s, json, into, all);
      } else {
        Carry(a, s, json, into, Outside(s[json + 1..]), all);
        json, into := json + 1, into + 1;
      }
    }
    EndOfText(s, json);
    assert a[..into] + [] == a[..into];
    a[into] := NUL;
    OutsideIsNulFree(s);
    CStringOfTerminated(all, a[into + 1..]);
    assert a[..] == all + [NUL] + a[into + 1..];
  }

  /** One round of the loop over a string. */
  lemma InsideStep(s: bytes, at: nat)
    requires at < |s|
    ensures s[at] == QUOTE ==> Inside(s[at..]) == [QUOTE] + Outside(s[at + 1..])
    ensures s[at] == BACKSLASH && at + 1 < |s| && s[at + 1] == QUOTE ==>
              Inside(s[at..]) == [BACKSLASH, QUOTE] + Inside(s[at + 2..])
    ensures s[at] != QUOTE && (s[at] != BACKSLASH || at + 1 == |s| || s[at + 1] != QUOTE) ==>
              Inside(s[at..]) == [s[at]] + Inside(s[at + 1..])
  {
    ReadOn(s, at);
  }

  /** One round of the outer loop. */
  lemma OutsideStep(s: bytes, at: nat)
    requires at < |s|
    ensures IsBlank(s[at]) ==> Outside(s[at..]) == Outside(s[at + 1..])
    ensures s[at] == SLASH && at + 1 < |s| && s[at + 1] == SLASH ==>
              Outside(s[at..]) == Outside(SkipLine(s[at + 2..]))
    ensures s[at] == SLASH && at + 1 < |s| && s[at + 1] == STAR ==>
              Outside(s[at..]) == Outside(SkipComment(s[at + 2..]))
    ensures s[at] == SLASH && (at + 1 == |s| || (s[at + 1] != SLASH && s[at + 1] != STAR)) ==>
              Outside(s[at..]) == Outside(s[at + 1..])
    ensures !IsBlank(s[at]) && s[at] != SLASH && s[at] != QUOTE ==>
              Outside(s[at..]) == [s[at]] + Outside(s[at + 1..])
  {
    ReadOn(s, at);
  }
}
