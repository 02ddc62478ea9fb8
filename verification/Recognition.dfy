/** The other direction: whatever the parser accepts is written in the wider grammar, and read as what it means there.
    */
module Recognition {
  import opened Acceptance
  import opened Bytes
  import opened Decimals
  import opened Grammar
  import opened Json
  import opened Numbers
  import opened ParseSpec
  import opened RoundTrip
  import opened Strings
  import opened Terminated
  import opened Wrappers

  // ----- blanks and scalars -----

  lemma {:induction false} DroppedAreBlanks(s: bytes)
    ensures IsSpace(s[..|s| - |DropBlanks(s)|], Loose)
  {
    if s != [] && s[0] <= SPACE {
      DroppedAreBlanks(s[1..]);
      var n := |s| - |DropBlanks(s)|;
      assert s[..n] == [s[0]] + s[1..][..n - 1];
    }
  }

  /** What is skipped in front of a token. */
  lemma Skipped(s: bytes) returns (w: bytes)
    ensures IsSpace(w, Loose) && s == w + SkipBlanks(s)
  {
    DropKeeps(s);
    DroppedAreBlanks(s);
    w := s[..|s| - |SkipBlanks(s)|];
    assert s == w + s[|w|..];
  }

  lemma {:induction false} RunIsDigits(s: bytes)
    ensures AreDigits(s[..DigitRun(s)])
  {
    if s != [] && IsDigit(s[0]) {
      RunIsDigits(s[1..]);
      assert s[..DigitRun(s)] == [s[0]] + s[1..][..DigitRun(s[1..])];
    }
  }

  /** The exponent that `strtod` finds, if it finds one. */
  lemma PowerIsSpelled(s: bytes) returns (e: Option<Exponent>)
    ensures IsPower(e)
    ensures PowerText(e) == s[..ReadPower(s).1] && Power(e) == ReadPower(s).0
  {
    hide DigitRun, DigitsValue, Whole;
    var c := if IsSign(s, 1) then 2 else 1;
    if s != [] && (s[0] == 69 || s[0] == 101) && DigitRun(s[c..]) > 0 {
      RunIsDigits(s[c..]);
      var digits := s[c..c + DigitRun(s[c..])];
      assert s[c..][..DigitRun(s[c..])] == digits;
      WholeIsDigits(digits);
      e := Some(Exponent(s[0], if c == 2 then Some(s[1]) else None, digits));
    } else {
      e := None;
    }
  }

  /** The numeral that `strtod` finds where the parser calls it. */
  lemma NumberIsSpelled(s: bytes) returns (n: Numeral)
    requires s != [] && (s[0] == MINUS || IsDigit(s[0])) && Strtod(s).Some?
    ensures IsNumeral(n, Loose) && Strtod(s).value == (NumeralValue(n), |NumeralText(n)|) && NumeralText(n) <= s
  {
    hide DigitRun, DigitsValue, ReadPower, Scale, IsNumeral, NumeralText, PowerText, Power, IsPower, FractionText;
    hide SignText, NumeralValue;
    var sign, a := if s[0] == MINUS then 1 else 0, 0;
    a := sign + DigitRun(s[sign..]);
    var dot := a < |s| && s[a] == DOT;
    var b := if dot then a + 1 + DigitRun(s[a + 1..]) else a;
    DigitsInFront(s, sign);
    var e := PowerIsSpelled(s[b..]);
    n := Numeral(sign == 1, s[sign..a], dot, if dot then s[a + 1..b] else [], e);
    NumeralIsBuilt(s, n, sign, a, b);
    ValueIsScaled(n);
  }

  lemma NumeralIsBuilt(s: bytes, n: Numeral, sign: nat, a: nat, b: nat)
    requires s != [] && sign == (if s[0] == MINUS then 1 else 0) && a == sign + DigitRun(s[sign..])
    requires n.dot <==> a < |s| && s[a] == DOT
    requires b == if n.dot then a + 1 + DigitRun(s[a + 1..]) else a
    requires n.negative == (sign == 1) && n.digits == s[sign..a] && n.fraction == (if n.dot then s[a + 1..b] else [])
    requires n.digits != [] || (n.negative && n.fraction != [])
    requires IsPower(n.exponent) && PowerText(n.exponent) == s[b..][..ReadPower(s[b..]).1]
    ensures IsNumeral(n, Loose) && NumeralText(n) == s[..b + ReadPower(s[b..]).1]
  {
    hide DigitRun, ReadPower, PowerText, NumeralText;
    RunIsDigits(s[sign..]);
    assert s[sign..][..a - sign] == s[sign..a];
    if n.dot {
      RunIsDigits(s[a + 1..]);
      assert s[a + 1..][..b - a - 1] == s[a + 1..b];
    }
    assert s[b..][..ReadPower(s[b..]).1] == s[b..b + ReadPower(s[b..]).1];
    NumeralJoins(s, n, sign, a, b, b + ReadPower(s[b..]).1);
  }

  lemma DigitsInFront(s: bytes, sign: nat)
    requires s != [] && (sign == 1 || (sign == 0 && IsDigit(s[0])))
    ensures sign == 1 || DigitRun(s[sign..]) > 0
  {
  }

  lemma NumeralJoins(s: bytes, n: Numeral, sign: nat, a: nat, b: nat, c: nat)
    requires sign <= a <= b <= c <= |s| && SignText(n) == s[..sign] && n.digits == s[sign..a]
    requires FractionText(n) == s[a..b] && PowerText(n.exponent) == s[b..c]
    ensures NumeralText(n) == s[..c]
  {
    hide SignText, FractionText, PowerText;
  }

  lemma LiteralIsSpelled(s: bytes) returns (pieces: seq<Piece>)
    requires ParseString(s).Some?
    ensures IsLiteral(pieces, Loose) && Paired(pieces)
    ensures var (text, t) := ParseString(s).value;
            CString(Meaning(pieces)) == text && s == LiteralText(pieces) + t
  {
    hide Scan, Decode, Closed, CString, Text, Meaning, InOrder;
    var n := Scan(s[1..]).value;
    var p := s[1..1 + n];
    ScanGivesClosed(s[1..]);
    assert s[1..][..n] == p;
    pieces := DecodeOnlyReads(p);
    assert s[1..][n] == s[n + 1];
    assert s == [QUOTE] + p + [QUOTE] + s[n + 2..];
  }

  lemma WordIsSpelled(s: bytes, word: bytes)
    requires word <= s
    ensures s == word + s[|word|..]
  {
  }

  // ----- values -----

  /** At any depth: what parses is some document of the wider grammar with whatever is left behind it, and the result is
      its value with every text cut at its first U+0000. */
  lemma {:induction false} ParsedIsSpelled(s: bytes, level: nat) returns (d: Doc)
    requires level <= NESTING_LIMIT && ParseValue(s, level).Some?
    ensures var (v, t) := ParseValue(s, level).value;
            IsDoc(d, Loose) && Fits(d, level) && v == Cut(Value(d)) && s == Spelled(d, t)
    decreases |s|, 1
  {
    hide ParseNumber, ParseString, ParseItems, ParseMembers;
    if NULL_TEXT <= s {
      d := Word(Null);
      WordIsSpelled(s, NULL_TEXT);
    } else if FALSE_TEXT <= s {
      d := Word(False);
      WordIsSpelled(s, FALSE_TEXT);
    } else if TRUE_TEXT <= s {
      d := Word(True);
      WordIsSpelled(s, TRUE_TEXT);
    } else if s[0] == QUOTE || s[0] == MINUS || IsDigit(s[0]) {
      d := ScalarIsSpelled(s, level);
    } else if s[0] == LEFT_BRACKET {
      d := ArrayIsSpelled(s, level);
    } else {
      d := ObjectIsSpelled(s, level);
    }
  }

  lemma ScalarIsSpelled(s: bytes, level: nat) returns (d: Doc)
    requires s != [] && (s[0] == QUOTE || s[0] == MINUS || IsDigit(s[0]))
    requires level <= NESTING_LIMIT && ParseValue(s, level).Some?
    ensures var (v, t) := ParseValue(s, level).value;
            IsDoc(d, Loose) && Fits(d, level) && v == Cut(Value(d)) && s == Spelled(d, t)
  {
    hide ParseValue, ParseString, ParseNumber, IsLiteral, LiteralText, Meaning, CString, Paired;
    hide IsNumeral, NumeralText, NumeralValue;
    Dispatch(s, level);
    if s[0] == QUOTE {
      var pieces := LiteralIsSpelled(s);
      d := Lit(pieces);
    } else {
      var n := ParsedNumeral(s);
      d := Num(n);
    }
  }

  lemma ParsedNumeral(s: bytes) returns (n: Numeral)
    requires s != [] && (s[0] == MINUS || IsDigit(s[0])) && ParseNumber(s).Some?
    ensures IsNumeral(n, Loose)
    ensures var (x, t) := ParseNumber(s).value; x == NumeralValue(n) && s == NumeralText(n) + t
  {
    hide Strtod, NumberRun, IsNumeral, NumeralText, NumeralValue;
    RunIsThere(s);
    var run := s[..NumberRun(s)];
    n := NumberIsSpelled(run);
    WordIsSpelled(run, NumeralText(n));
    assert s == NumeralText(n) + s[|NumeralText(n)|..];
  }

  lemma RunIsThere(s: bytes)
    requires s != [] && (s[0] == MINUS || IsDigit(s[0]))
    ensures NumberRun(s) > 0
  {
  }

  lemma {:induction false} ArrayIsSpelled(s: bytes, level: nat) returns (d: Doc)
    requires s != [] && s[0] == LEFT_BRACKET && level <= NESTING_LIMIT && ParseValue(s, level).Some?
    ensures var (v, t) := ParseValue(s, level).value;
            IsDoc(d, Loose) && Fits(d, level) && v == Cut(Value(d)) && s == Spelled(d, t)
    decreases |s|, 0
  {
    hide ParseValue, ParseItems, SkipBlanks, Fits, ItemsFit, CutItems, ItemValues, Cut, Value, Spelled, IsDoc;
    Dispatch(s, level);
    var inner := SkipBlanks(s[1..]);
    var w := Skipped(s[1..]);
    if inner[0] == RIGHT_BRACKET {
      d := Arr(w, []);
      EmptyArray(w, inner[1..], level);
      assert inner == [RIGHT_BRACKET] + inner[1..];
    } else {
      var items := ItemsAreSpelled(inner, level + 1, []);
      d := FullArray(items, w, ParseValue(s, level).value.1, level);
      NothingBefore(CutItems(ItemValues(items)));
    }
    assert s == [LEFT_BRACKET] + s[1..];
  }

  lemma NoItemsFit(level: nat)
    requires level <= NESTING_LIMIT
    ensures ItemsFit([], level) && EntriesFit([], level)
  {
  }

  lemma EmptyArray(w: bytes, t: bytes, level: nat)
    requires IsSpace(w, Loose) && level < NESTING_LIMIT
    ensures var d := Arr(w, []);
            && IsDoc(d, Loose) && Fits(d, level) && Cut(Value(d)) == Array([])
            && Spelled(d, t) == [LEFT_BRACKET] + (w + ([RIGHT_BRACKET] + t))
  {
    ArrayFits(w, [], level);
    NoItemsFit(level + 1);
  }

  /** Blanks in front of the first element become part of it. */
  lemma FullArray(items: seq<Item>, w: bytes, t: bytes, level: nat) returns (d: Doc)
    requires items != [] && AreItems(items, Loose) && IsSpace(w, Loose)
    requires level < NESTING_LIMIT && ItemsFit(items, level + 1)
    ensures IsDoc(d, Loose) && Fits(d, level) && Cut(Value(d)) == Array(CutItems(ItemValues(items)))
    ensures Spelled(d, t) == [LEFT_BRACKET] + (w + SpelledItems(items, t))
  {
    hide Fits, ItemsFit, Cut, Value;
    var all := [items[0].(before := w + items[0].before)] + items[1..];
    d := Arr([], all);
    WiderItems(items, w, t, level + 1);
    ArrayFits([], all, level);
  }

  lemma WiderItems(items: seq<Item>, w: bytes, t: bytes, level: nat)
    requires items != [] && AreItems(items, Loose) && IsSpace(w, Loose)
    ensures var all := [items[0].(before := w + items[0].before)] + items[1..];
            && AreItems(all, Loose) && SpelledItems(all, t) == w + SpelledItems(items, t)
            && ItemValues(all) == ItemValues(items) && (ItemsFit(all, level) <==> ItemsFit(items, level))
  {
    hide IsDoc, Spelled, Value, AllPaired, NestingItems;
    var all := [items[0].(before := w + items[0].before)] + items[1..];
    assert all[1..] == items[1..];
    assert AreItems(items[1..], Loose);
    RegroupThree(w, items[0].before, Spelled(items[0].doc, ItemRest(items, t)));
  }

  lemma {:induction false} ItemsAreSpelled(s: bytes, level: nat, before: seq<Json>) returns (items: seq<Item>)
    requires level <= NESTING_LIMIT && ParseItems(s, level, before).Some?
    ensures items != [] && AreItems(items, Loose) && ItemsFit(items, level)
    ensures var (v, t) := ParseItems(s, level, before).value;
            v == Array(before + CutItems(ItemValues(items))) && s == SpelledItems(items, t)
    decreases |s|, 2
  {
    hide ParseValue, SkipBlanks, IsDoc, Fits, ItemsFit, Spelled, Value, Cut;
    var w := Skipped(s);
    var d := ParsedIsSpelled(SkipBlanks(s), level);
    var (v, rest) := ParseValue(SkipBlanks(s), level).value;
    var u := Skipped(rest);
    var t := SkipBlanks(rest);
    assert t == [t[0]] + t[1..];
    if t[0] == COMMA {
      var others := ItemsAreSpelled(t[1..], level, before + [v]);
      items := [Item(w, d, u)] + others;
      MoreItems(Item(w, d, u), others, level, before);
    } else {
      items := [Item(w, d, u)];
      OnlyItem(Item(w, d, u), level);
    }
  }

  lemma OnlyItem(item: Item, level: nat)
    requires IsSpace(item.before, Loose) && IsDoc(item.doc, Loose) && IsSpace(item.after, Loose)
    requires Fits(item.doc, level)
    ensures AreItems([item], Loose) && ItemsFit([item], level) && CutItems(ItemValues([item])) == [Cut(Value(item.doc))]
  {
    hide IsDoc, Spelled, Value, AllPaired, Nesting;
    NoItemsFit(level);
    ItemsMore([item], level);
    assert [item][1..] == [];
    assert ItemValues([]) == [] && CutItems([]) == [];
  }

  lemma MoreItems(item: Item, others: seq<Item>, level: nat, before: seq<Json>)
    requires IsSpace(item.before, Loose) && IsDoc(item.doc, Loose) && IsSpace(item.after, Loose)
    requires Fits(item.doc, level)
    requires others != [] && AreItems(others, Loose) && ItemsFit(others, level)
    ensures var all := [item] + others;
            && all[0] == item && all[1..] == others && AreItems(all, Loose) && ItemsFit(all, level)
            && before + CutItems(ItemValues(all)) == before + [Cut(Value(item.doc))] + CutItems(ItemValues(others))
  {
    hide IsDoc, Spelled, Value, Fits, ItemsFit, CutItems, ItemValues;
    var all := [item] + others;
    assert all[0] == item && all[1..] == others;
    ItemsMore(all, level);
  }

  lemma {:induction false} ObjectIsSpelled(s: bytes, level: nat) returns (d: Doc)
    requires s != [] && s[0] == LEFT_BRACE && level <= NESTING_LIMIT && ParseValue(s, level).Some?
    ensures var (v, t) := ParseValue(s, level).value;
            IsDoc(d, Loose) && Fits(d, level) && v == Cut(Value(d)) && s == Spelled(d, t)
    decreases |s|, 0
  {
    hide ParseValue, ParseMembers, SkipBlanks, Fits, EntriesFit, CutMembers, EntryValues, Cut, Value, Spelled, IsDoc;
    Dispatch(s, level);
    var inner := SkipBlanks(s[1..]);
    var w := Skipped(s[1..]);
    if inner[0] == RIGHT_BRACE {
      d := Obj(w, []);
      EmptyObject(w, inner[1..], level);
      assert inner == [RIGHT_BRACE] + inner[1..];
    } else {
      var entries := EntriesAreSpelled(inner, level + 1, []);
      d := FullObject(entries, w, ParseValue(s, level).value.1, level);
      NothingBefore(CutMembers(EntryValues(entries)));
    }
    assert s == [LEFT_BRACE] + s[1..];
  }

  lemma EmptyObject(w: bytes, t: bytes, level: nat)
    requires IsSpace(w, Loose) && level < NESTING_LIMIT
    ensures var d := Obj(w, []);
            && IsDoc(d, Loose) && Fits(d, level) && Cut(Value(d)) == Object([])
            && Spelled(d, t) == [LEFT_BRACE] + (w + ([RIGHT_BRACE] + t))
  {
    ObjectFits(w, [], level);
    NoItemsFit(level + 1);
  }

  lemma FullObject(entries: seq<Entry>, w: bytes, t: bytes, level: nat) returns (d: Doc)
    requires entries != [] && AreEntries(entries, Loose) && IsSpace(w, Loose)
    requires level < NESTING_LIMIT && EntriesFit(entries, level + 1)
    ensures IsDoc(d, Loose) && Fits(d, level) && Cut(Value(d)) == Object(CutMembers(EntryValues(entries)))
    ensures Spelled(d, t) == [LEFT_BRACE] + (w + SpelledEntries(entries, t))
  {
    hide Fits, EntriesFit, Cut, Value;
    var all := [entries[0].(before := w + entries[0].before)] + entries[1..];
    d := Obj([], all);
    WiderEntries(entries, w, t, level + 1);
    ObjectFits([], all, level);
  }

  lemma WiderEntries(entries: seq<Entry>, w: bytes, t: bytes, level: nat)
    requires entries != [] && AreEntries(entries, Loose) && IsSpace(w, Loose)
    ensures var all := [entries[0].(before := w + entries[0].before)] + entries[1..];
            && AreEntries(all, Loose) && SpelledEntries(all, t) == w + SpelledEntries(entries, t)
            && EntryValues(all) == EntryValues(entries) && (EntriesFit(all, level) <==> EntriesFit(entries, level))
  {
    hide IsDoc, Spelled, Value, AllPaired, NestingMembers, LiteralText, Meaning, IsLiteral, Paired;
    var all := [entries[0].(before := w + entries[0].before)] + entries[1..];
    assert all[1..] == entries[1..];
    assert AreEntries(entries[1..], Loose);
    RegroupThree(w, entries[0].before, FromKey(entries, t));
  }

  /** One key and its value: what `EntriesAreSpelled` finds in front. */
  lemma {:induction false} MemberIsSpelled(s: bytes, level: nat) returns (e: Entry)
    requires level <= NESTING_LIMIT && ParseMember(s, level).Some?
    ensures IsEntry(e) && Paired(e.key) && Fits(e.doc, level)
    ensures var (m, rest) := ParseMember(s, level).value;
            && m == Member(CString(Meaning(e.key)), Cut(Value(e.doc))) && e.after == []
            && s == e.before + (LiteralText(e.key) + (e.mid + ([COLON] + (e.lead + Spelled(e.doc, rest)))))
    decreases |s|, 2
  {
    hide ParseValue, ParseString, SkipBlanks, IsDoc, Fits, Spelled, Value, Cut, CString, Meaning, LiteralText;
    hide IsLiteral;
    var w := Skipped(s);
    var key := LiteralIsSpelled(SkipBlanks(s));
    var rest := ParseString(SkipBlanks(s)).value.1;
    var mid := Skipped(rest);
    var t := SkipBlanks(rest);
    assert t == [COLON] + t[1..];
    var lead := Skipped(t[1..]);
    var d := ParsedIsSpelled(SkipBlanks(t[1..]), level);
    e := Entry(w, key, mid, lead, d, []);
  }

  ghost predicate IsEntry(e: Entry) {
    && IsSpace(e.before, Loose) && IsLiteral(e.key, Loose) && IsSpace(e.mid, Loose) && IsSpace(e.lead, Loose)
    && IsDoc(e.doc, Loose) && IsSpace(e.after, Loose)
  }

  lemma {:induction false} EntriesAreSpelled(s: bytes, level: nat, before: seq<Member>) returns (entries: seq<Entry>)
    requires level <= NESTING_LIMIT && ParseMembers(s, level, before).Some?
    ensures entries != [] && AreEntries(entries, Loose) && EntriesFit(entries, level)
    ensures var (v, t) := ParseMembers(s, level, before).value;
            v == Object(before + CutMembers(EntryValues(entries))) && s == SpelledEntries(entries, t)
    decreases |s|, 3
  {
    hide ParseMember, SkipBlanks, IsEntry, Fits, EntriesFit, Spelled, Value, Cut, CString, Meaning, LiteralText, Paired;
    hide CutMembers, EntryValues, AreEntries;
    var (m, rest) := ParseMember(s, level).value;
    var e := MemberIsSpelled(s, level);
    var u := Skipped(rest);
    var t := SkipBlanks(rest);
    assert t == [t[0]] + t[1..];
    WiderAfter(e, u);
    e := e.(after := u);
    if t[0] == COMMA {
      var others := EntriesAreSpelled(t[1..], level, before + [m]);
      entries := [e] + others;
      MoreEntries(e, others, level, before);
    } else {
      entries := [e];
      OnlyEntry(e, level);
    }
  }

  lemma WiderAfter(e: Entry, u: bytes)
    requires IsEntry(e) && IsSpace(u, Loose)
    ensures IsEntry(e.(after := u))
  {
  }

  lemma OnlyEntry(e: Entry, level: nat)
    requires IsEntry(e) && Paired(e.key) && Fits(e.doc, level)
    ensures AreEntries([e], Loose) && EntriesFit([e], level)
    ensures CutMembers(EntryValues([e])) == [Member(CString(Meaning(e.key)), Cut(Value(e.doc)))]
  {
    hide IsDoc, Spelled, Value, AllPaired, Nesting, CString, Meaning, Paired, IsLiteral;
    NoItemsFit(level);
    EntriesMore([e], level);
    assert [e][1..] == [];
    assert EntryValues([]) == [] && CutMembers([]) == [];
  }

  lemma MoreEntries(e: Entry, others: seq<Entry>, level: nat, before: seq<Member>)
    requires IsEntry(e) && Paired(e.key) && Fits(e.doc, level)
    requires others != [] && AreEntries(others, Loose) && EntriesFit(others, level)
    ensures var all := [e] + others;
            && all[0] == e && all[1..] == others && AreEntries(all, Loose) && EntriesFit(all, level)
            && before + CutMembers(EntryValues(all)) ==
               before + [Member(CString(Meaning(e.key)), Cut(Value(e.doc)))] + CutMembers(EntryValues(others))
  {
    hide IsDoc, Spelled, Value, Fits, EntriesFit, CutMembers, EntryValues, CString, Meaning, Paired, IsLiteral;
    var all := [e] + others;
    assert all[0] == e && all[1..] == others;
    EntriesMore(all, level);
  }

  // ----- whole texts -----

  /** What a whole C string is written as: `d`, with blanks in front, a byte order mark or none, and `tail` behind it.
      */
  ghost predicate WrittenAs(text: bytes, bom: bool, lead: bytes, d: Doc, tail: bytes) {
    IsSpace(lead, Loose) && IsDoc(d, Loose) && text == Mark(bom) + (lead + Spelled(d, tail))
  }

  lemma MarkIsThere(s: bytes) returns (bom: bool)
    ensures s == Mark(bom) + SkipBom(s)
  {
    bom := |s| > 4 && BOM <= s;
    assert bom ==> s == BOM + s[3..];
  }

  /** Whatever text is accepted, it is written so. */
  lemma TextIsSpelled(text: bytes, terminated: bool) returns (bom: bool, lead: bytes, d: Doc, tail: bytes)
    requires NulFree(text) && ParseText(text, terminated).Some?
    ensures WrittenAs(text, bom, lead, d, tail) && Fits(d, 0)
    ensures var (v, rest) := ParseText(text, terminated).value;
            && v == Cut(Value(d)) && rest == (if terminated then [NUL] else tail + [NUL])
            && (terminated ==> IsSpace(tail, Loose))
  {
    hide ParseValue, SkipBom, SkipBlanks, CString, Fits, Spelled, Mark, IsDoc, Cut, Value;
    var s := text + [NUL];
    CStringOfTerminated(text, []);
    assert text + [NUL] + [] == s;
    bom := MarkIsThere(s);
    lead := Skipped(SkipBom(s));
    var front := SkipBlanks(SkipBom(s));
    d := ParsedIsSpelled(front, 0);
    var rest := ParseValue(front, 0).value.1;
    TextKeepsTerminator(text);
    tail := rest[..|rest| - 1];
    assert rest == tail + [NUL];
    SpelledMore(d, tail, [NUL]);
    LastIsCut(text, Mark(bom), lead, Spelled(d, tail));
    if terminated {
      SpelledMore(d, [], tail);
      assert [] + tail == tail;
      EndIsNulFree(text, Mark(bom), lead, Spelled(d, []), tail);
      var w := Skipped(rest);
      NulIsFound(tail, w, SkipBlanks(rest));
    }
  }

  lemma LastIsCut(text: bytes, a: bytes, b: bytes, c: bytes)
    requires text + [NUL] == a + (b + (c + [NUL]))
    ensures text == a + (b + c)
  {
    var whole := text + [NUL];
    assert whole == a + (b + c) + [NUL];
    assert text == whole[..|whole| - 1];
  }

  lemma EndIsNulFree(text: bytes, a: bytes, b: bytes, c: bytes, tail: bytes)
    requires NulFree(text) && text == a + (b + (c + tail))
    ensures NulFree(tail)
  {
    var n := |a| + |b| + |c|;
    assert forall i :: 0 <= i < |tail| ==> tail[i] == text[n + i];
  }

  lemma NulIsFound(tail: bytes, w: bytes, t: bytes)
    requires NulFree(tail) && tail + [NUL] == w + t && t != [] && t[0] == NUL
    ensures w == tail && t == [NUL]
  {
    assert (tail + [NUL])[|w|] == NUL;
    assert |w| == |tail|;
    assert w == (w + t)[..|w|] && tail == (tail + [NUL])[..|w|] && t == (w + t)[|w|..];
  }

  /** The language of the parser, for all C strings and all values: a text that must end behind its value parses to
      `v` if and only if it is written in the wider grammar with at most 1000 levels and no surrogate of its own, and
      `v` is its value, each text and key cut at its first U+0000. */
  lemma AcceptedExactly(text: bytes, v: Json)
    requires NulFree(text)
    ensures ParseText(text, true) == Some((v, [NUL])) <==>
            exists bom, lead, d, tail ::
              WrittenAs(text, bom, lead, d, tail) && IsSpace(tail, Loose) && Fits(d, 0) && Cut(Value(d)) == v
  {
    hide ParseText, IsDoc, Fits, Cut, Value, Spelled, Mark;
    if ParseText(text, true) == Some((v, [NUL])) {
      var bom, lead, d, tail := TextIsSpelled(text, true);
    } else {
      forall bom, lead, d, tail | WrittenAs(text, bom, lead, d, tail) && IsSpace(tail, Loose) && Fits(d, 0)
        ensures Cut(Value(d)) != v
      {
        EndIsNulFree(text, Mark(bom), [], [], lead + Spelled(d, tail));
        assert text == Mark(bom) + ([] + ([] + (lead + Spelled(d, tail))));
        LooseTextParses(bom, lead, d, tail, true);
      }
    }
  }

  /** The same for a text that may go on, behind a value that does not run into what is behind it. */
  lemma PrefixAcceptedExactly(text: bytes, v: Json, tail: bytes)
    requires NulFree(text) && Stops(tail)
    ensures ParseText(text, false) == Some((v, tail + [NUL])) <==>
            exists bom, lead, d :: WrittenAs(text, bom, lead, d, tail) && Fits(d, 0) && Cut(Value(d)) == v
  {
    hide ParseText, IsDoc, Fits, Cut, Value, Spelled, Mark;
    if ParseText(text, false) == Some((v, tail + [NUL])) {
      var bom, lead, d, found := TextIsSpelled(text, false);
      assert found == (found + [NUL])[..|found|] && tail == (tail + [NUL])[..|tail|];
      assert WrittenAs(text, bom, lead, d, tail);
    } else {
      forall bom, lead, d | WrittenAs(text, bom, lead, d, tail) && Fits(d, 0)
        ensures Cut(Value(d)) != v
      {
        EndIsNulFree(text, Mark(bom), [], [], lead + Spelled(d, tail));
        LooseTextParses(bom, lead, d, tail, false);
      }
    }
  }
}
