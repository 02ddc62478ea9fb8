/** Whatever its blanks and its spelling: what is written in the grammar is read as what it means. */
module Acceptance {
  import opened Bytes
  import opened Decimals
  import opened Grammar
  import opened Json
  import opened Numbers
  import opened ParseSpec
  import opened RoundTrip
  import opened Strings
  import opened Utf
  import opened Wrappers

  // ----- scalars -----

  lemma {:induction false} DigitRunStops(s: bytes, t: bytes)
    requires AreDigits(s) && (t == [] || !IsDigit(t[0]))
    ensures DigitRun(s + t) == |s|
  {
    if s == [] {
      assert s + t == t;
    } else {
      DigitRunStops(s[1..], t);
      assert (s + t)[1..] == s[1..] + t;
    }
  }

  lemma FourParts(a: bytes, b: bytes, c: bytes, d: bytes)
    ensures var s := a + b + c + d;
            && s[|a|..] == b + (c + d) && s[|a|..|a| + |b|] == b && s[|a| + |b|..] == c + d
            && s[|a| + |b| + |c|..] == d
  {
  }

  /** The parts of a numeral, as `strtod` meets them: sign and digits. */
  lemma NumeralStarts(n: Numeral)
    requires IsNumeral(n, Loose)
    ensures var s, sign := NumeralText(n), |SignText(n)|;
            && (IsSign(s, 0) <==> n.negative) && (n.negative ==> s[0] == MINUS)
            && sign + |n.digits| <= |s| && DigitRun(s[sign..]) == |n.digits| && s[sign..sign + |n.digits|] == n.digits
            && s[sign + |n.digits|..] == FractionText(n) + PowerText(n.exponent)
  {
    hide PowerText;
    PowerIsNoDigit(n);
    FourParts(SignText(n), n.digits, FractionText(n), PowerText(n.exponent));
    DigitRunStops(n.digits, FractionText(n) + PowerText(n.exponent));
  }

  lemma PowerIsNoDigit(n: Numeral)
    requires IsNumeral(n, Loose)
    ensures var power := PowerText(n.exponent); power == [] || (!IsDigit(power[0]) && power[0] != DOT)
  {
  }

  /** The fraction, in what is left of it. */
  lemma FractionReads(n: Numeral, s: bytes)
    requires IsNumeral(n, Loose) && s == FractionText(n) + PowerText(n.exponent)
    ensures !n.dot ==> s == PowerText(n.exponent) && (s == [] || s[0] != DOT)
    ensures n.dot ==>
              && s != [] && s[0] == DOT && |n.fraction| < |s| && DigitRun(s[1..]) == |n.fraction|
              && s[1..1 + |n.fraction|] == n.fraction && s[1 + |n.fraction|..] == PowerText(n.exponent)
  {
    hide PowerText;
    PowerIsNoDigit(n);
    if n.dot {
      assert s[1..] == n.fraction + PowerText(n.exponent);
      DigitRunStops(n.fraction, PowerText(n.exponent));
    }
  }

  lemma PowerReads(p: Option<Exponent>)
    requires IsPower(p)
    ensures ReadPower(PowerText(p)) == (Power(p), |PowerText(p)|)
  {
    hide DigitsValue, Whole;
    if p.Some? {
      var e := p.value;
      var s, c := PowerText(p), if e.sign.Some? then 2 else 1;
      DigitRunStops(e.digits, []);
      WholeIsDigits(e.digits);
      assert e.digits + [] == e.digits && s[c..] == e.digits && s[c..c + |e.digits|] == e.digits;
    }
  }

  /** Where `strtod` finds the parts: the digits from `sign` to `a`, those behind the dot up to `b`. */
  lemma NumeralParts(n: Numeral, sign: nat, a: nat, b: nat)
    requires IsNumeral(n, Loose) && sign == |SignText(n)| && a == sign + |n.digits|
    requires b == if n.dot then a + 1 + |n.fraction| else a
    ensures var s := NumeralText(n);
            && (IsSign(s, 0) <==> n.negative) && (n.negative ==> s[0] == MINUS)
            && a <= b <= |s| && sign + DigitRun(s[sign..]) == a && (a < |s| && s[a] == DOT <==> n.dot)
            && (n.dot ==> DigitRun(s[a + 1..]) == |n.fraction|) && a - sign + |n.fraction| > 0
            && s[sign..a] + (if n.dot then s[a + 1..b] else []) == n.digits + n.fraction
            && s[b..] == PowerText(n.exponent) && (!n.dot ==> n.fraction == []) && IsPower(n.exponent)
  {
    hide NumeralText, DigitRun, PowerText, FractionText, SignText;
    var s := NumeralText(n);
    NumeralStarts(n);
    FractionReads(n, s[a..]);
    if n.dot {
      assert s[a..][1..] == s[a + 1..] && s[a..][1 + |n.fraction|..] == s[b..] && s[a + 1..b] == n.fraction;
    }
  }

  /** `strtod` reads a numeral as its value, to its end. */
  lemma NumeralReads(n: Numeral)
    requires IsNumeral(n, Loose)
    ensures Strtod(NumeralText(n)) == Some((NumeralValue(n), |NumeralText(n)|))
  {
    hide IsNumeral, NumeralText, DigitRun, DigitsValue, PowerText, ReadPower, Scale, Power, NumeralValue;
    ValueIsScaled(n);
    var a := |SignText(n)| + |n.digits|;
    NumeralParts(n, |SignText(n)|, a, if n.dot then a + 1 + |n.fraction| else a);
    PowerReads(n.exponent);
  }

  lemma NumeralIsNumber(n: Numeral)
    requires IsNumeral(n, Loose)
    ensures var s := NumeralText(n);
            && s != [] && (s[0] == MINUS || IsDigit(s[0])) && forall i :: 0 <= i < |s| ==> IsNumberByte(s[i])
  {
  }

  lemma NumberReads(n: Numeral, t: bytes)
    requires IsNumeral(n, Loose) && Stops(t)
    ensures ParseNumber(NumeralText(n) + t) == Some((NumeralValue(n), t))
  {
    hide NumeralText, NumeralValue, Strtod;
    var s := NumeralText(n);
    NumeralIsNumber(n);
    NumberRunStops(s, t);
    NumeralReads(n);
    assert (s + t)[..|s|] == s && (s + t)[|s|..] == t;
  }

  lemma LiteralReads(pieces: seq<Piece>, t: bytes)
    requires IsLiteral(pieces, Loose)
    ensures ParseString(LiteralText(pieces) + t) == if Paired(pieces) then Some((CString(Meaning(pieces)), t)) else None
  {
    hide Text, Meaning, Scan, Decode, Closed, CString, InOrder;
    var s, e := LiteralText(pieces) + t, Text(pieces);
    assert s[1..] == e + [QUOTE] + t;
    ScanFindsClosed(e, t);
    assert s[1..1 + |e|] == e;
    DecodeReads(pieces);
    assert s[|e| + 2..] == t;
  }

  // ----- one round of each loop -----

  lemma ItemsEnd(s: bytes, level: nat, before: seq<Json>, v: Json, w: bytes, t: bytes)
    requires IsSpace(w, Loose) && ParseValue(SkipBlanks(s), level) == Some((v, w + ([RIGHT_BRACKET] + t)))
    ensures ParseItems(s, level, before) == Some((Array(before + [v]), t))
  {
    hide ParseValue, SkipBlanks;
    SkipsPrefix(w, [RIGHT_BRACKET] + t);
    assert ([RIGHT_BRACKET] + t)[1..] == t;
  }

  lemma ItemsGoOn(s: bytes, level: nat, before: seq<Json>, v: Json, w: bytes, next: bytes)
    requires IsSpace(w, Loose) && ParseValue(SkipBlanks(s), level) == Some((v, w + ([COMMA] + next)))
    ensures ParseItems(s, level, before) == ParseItems(next, level, before + [v])
  {
    hide ParseValue, SkipBlanks;
    SkipsPrefix(w, [COMMA] + next);
    assert ([COMMA] + next)[1..] == next;
  }

  lemma MembersEnd(s: bytes, level: nat, before: seq<Member>, m: Member, w: bytes, t: bytes)
    requires IsSpace(w, Loose) && ParseMember(s, level) == Some((m, w + ([RIGHT_BRACE] + t)))
    ensures ParseMembers(s, level, before) == Some((Object(before + [m]), t))
  {
    LastMember(s, level, before, m, w, t);
  }

  lemma MembersGoOn(s: bytes, level: nat, before: seq<Member>, m: Member, w: bytes, next: bytes)
    requires IsSpace(w, Loose) && ParseMember(s, level) == Some((m, w + ([COMMA] + next)))
    ensures ParseMembers(s, level, before) == ParseMembers(next, level, before + [m])
  {
    hide ParseMember, SkipBlanks;
    SkipsPrefix(w, [COMMA] + next);
    assert ([COMMA] + next)[1..] == next;
  }

  lemma NoMember(s: bytes, level: nat, before: seq<Member>)
    requires ParseMember(s, level) == None
    ensures ParseMembers(s, level, before) == None
  {
  }

  /** Key and colon, with whitespace around the colon. */
  lemma MemberReads(s: bytes, level: nat, key: seq<Piece>, mid: bytes, lead: bytes, x: bytes)
    requires IsLiteral(key, Loose) && IsSpace(mid, Loose) && IsSpace(lead, Loose) && x != [] && x[0] > SPACE
    requires SkipBlanks(s) == LiteralText(key) + (mid + ([COLON] + (lead + x)))
    ensures ParseMember(s, level) ==
            if !Paired(key) || ParseValue(x, level).None? then None
            else
              var (v, after) := ParseValue(x, level).value;
              Some((Member(CString(Meaning(key)), v), after))
  {
    hide ParseValue, ParseString, SkipBlanks, LiteralText, Meaning, CString, Paired;
    LiteralReads(key, mid + ([COLON] + (lead + x)));
    SkipsPrefix(mid, [COLON] + (lead + x));
    assert ([COLON] + (lead + x))[1..] == lead + x;
    SkipsPrefix(lead, x);
  }

  /** An opening bracket and the blanks behind it. */
  lemma ArrayOpens(w: bytes, inner: bytes, level: nat)
    requires IsSpace(w, Loose) && inner != [] && inner[0] > SPACE
    ensures ParseValue([LEFT_BRACKET] + (w + inner), level) ==
            if level >= NESTING_LIMIT then None
            else if inner[0] == RIGHT_BRACKET then Some((Array([]), inner[1..]))
            else ParseItems(inner, level + 1, [])
  {
    hide ParseValue, ParseItems, SkipBlanks;
    var s := [LEFT_BRACKET] + (w + inner);
    Dispatch(s, level);
    assert s[1..] == w + inner;
    SkipsPrefix(w, inner);
  }

  lemma ObjectOpens(w: bytes, inner: bytes, level: nat)
    requires IsSpace(w, Loose) && inner != [] && inner[0] > SPACE
    ensures ParseValue([LEFT_BRACE] + (w + inner), level) ==
            if level >= NESTING_LIMIT then None
            else if inner[0] == RIGHT_BRACE then Some((Object([]), inner[1..]))
            else ParseMembers(inner, level + 1, [])
  {
    ObjectStarts(w, inner, level);
  }

  lemma DocStarts(d: Doc, t: bytes)
    requires IsDoc(d, Loose)
    ensures var s := Spelled(d, t); s != [] && SPACE < s[0] < 0x80 && s[0] != RIGHT_BRACKET && s[0] != RIGHT_BRACE
  {
    hide Text;
    match d
    case Num(n) => NumeralIsNumber(n);
    case _ =>
  }

  // ----- acceptance -----

  /** A value that the parser returns, met at some depth. */
  predicate Fits(d: Doc, level: nat) {
    level + Nesting(Value(d)) <= NESTING_LIMIT && AllPaired(d)
  }

  /** At any place in a larger text and at any depth: whatever the spelling, a value parses to what it means, up to the
      first U+0000 of each text, and leaves exactly the bytes behind it, unless it goes deeper than the limit or has a
      surrogate of its own in it. */
  lemma {:induction false} DocParses(d: Doc, level: nat, t: bytes)
    requires IsDoc(d, Loose) && Stops(t) && level <= NESTING_LIMIT
    ensures ParseValue(Spelled(d, t), level) == if Fits(d, level) then Some((Cut(Value(d)), t)) else None
    decreases d, 3
  {
    match d
    case Arr(inside, items) =>
      ArrParses(inside, items, level, t);
    case Obj(inside, entries) =>
      ObjParses(inside, entries, level, t);
    case _ =>
      ScalarDocParses(d, level, t);
  }

  lemma ScalarDocParses(d: Doc, level: nat, t: bytes)
    requires IsDoc(d, Loose) && Stops(t) && !d.Arr? && !d.Obj?
    ensures ParseValue(Spelled(d, t), level) == if AllPaired(d) then Some((Cut(Value(d)), t)) else None
    ensures Nesting(Value(d)) == 0
  {
    hide ParseValue, ParseNumber, ParseString, NumeralText, LiteralText, NumeralValue, Meaning, CString, Paired;
    match d
    case Num(n) =>
      NumeralIsNumber(n);
      NumberReads(n, t);
      Dispatch(Spelled(d, t), level);
    case Lit(pieces) =>
      LiteralReads(pieces, t);
      QuoteStarts(pieces);
      Dispatch(Spelled(d, t), level);
    case _ =>
      LiteralParses([], t, level);
  }

  lemma QuoteStarts(pieces: seq<Piece>)
    ensures LiteralText(pieces) != [] && LiteralText(pieces)[0] == QUOTE
  {
  }

  lemma {:induction false} ArrParses(inside: bytes, items: seq<Item>, level: nat, t: bytes)
    requires IsDoc(Arr(inside, items), Loose) && level <= NESTING_LIMIT
    ensures var d := Arr(inside, items);
            ParseValue(Spelled(d, t), level) == if Fits(d, level) then Some((Cut(Value(d)), t)) else None
    decreases items, 2
  {
    hide ParseValue, ParseItems, SkipBlanks, Fits, ItemsFit, Value, Cut, ItemValues, CutItems, AreItems, SpelledItems;
    hide ItemRest;
    ArrayFits(inside, items, level);
    if items == [] {
      ArrayOpens(inside, [RIGHT_BRACKET] + t, level);
      assert ([RIGHT_BRACKET] + t)[1..] == t;
    } else {
      FirstItem(items, t);
      var s := Spelled(items[0].doc, ItemRest(items, t));
      ArrayOpens(items[0].before, s, level);
      if level < NESTING_LIMIT {
        NoBlanks(s);
        SpelledItemsParse(items, level + 1, [], s, t);
        NothingBefore(CutItems(ItemValues(items)));
      }
    }
  }

  /** What stands behind the first element. */
  function ItemRest(items: seq<Item>, t: bytes): bytes
    requires items != []
  {
    items[0].after + if |items| == 1 then [RIGHT_BRACKET] + t else [COMMA] + SpelledItems(items[1..], t)
  }

  lemma FirstItem(items: seq<Item>, t: bytes)
    requires items != [] && AreItems(items, Loose)
    ensures var s := Spelled(items[0].doc, ItemRest(items, t));
            && SpelledItems(items, t) == items[0].before + s
            && s != [] && SPACE < s[0] && s[0] != RIGHT_BRACKET && Stops(ItemRest(items, t))
    ensures IsSpace(items[0].before, Loose)
  {
    DocStarts(items[0].doc, ItemRest(items, t));
  }

  predicate ItemsFit(items: seq<Item>, level: nat) {
    level + NestingItems(ItemValues(items)) <= NESTING_LIMIT && ItemsPaired(items)
  }

  lemma {:induction false} SpelledItemsParse(items: seq<Item>, level: nat, before: seq<Json>, s: bytes, t: bytes)
    requires items != [] && AreItems(items, Loose) && level <= NESTING_LIMIT
    requires SkipBlanks(s) == Spelled(items[0].doc, ItemRest(items, t))
    ensures ParseItems(s, level, before) ==
            if ItemsFit(items, level) then Some((Array(before + CutItems(ItemValues(items))), t)) else None
    decreases items, 1
  {
    hide ParseValue, ParseItems, SkipBlanks, Spelled, IsDoc;
    var others := items[1..];
    var v := Cut(Value(items[0].doc));
    FirstItem(items, t);
    DocParses(items[0].doc, level, ItemRest(items, t));
    ItemsMore(items, level);
    if !Fits(items[0].doc, level) {
      NoItem(s, level, before);
    } else if others == [] {
      ItemsEnd(s, level, before, v, items[0].after, t);
      assert CutItems(ItemValues(items)) == [v];
    } else {
      var next := SpelledItems(others, t);
      ItemsGoOn(s, level, before, v, items[0].after, next);
      FirstItem(others, t);
      SkipsPrefix(others[0].before, Spelled(others[0].doc, ItemRest(others, t)));
      SpelledItemsParse(others, level, before + [v], next, t);
      assert before + [v] + CutItems(ItemValues(others)) == before + CutItems(ItemValues(items));
    }
  }

  lemma ArrayFits(inside: bytes, items: seq<Item>, level: nat)
    ensures var d := Arr(inside, items);
            && (Fits(d, level) <==> level < NESTING_LIMIT && ItemsFit(items, level + 1))
            && Cut(Value(d)) == Array(CutItems(ItemValues(items)))
    ensures items == [] ==>
              CutItems(ItemValues(items)) == [] && (ItemsFit(items, level + 1) <==> level < NESTING_LIMIT)
  {
  }

  lemma ItemsMore(items: seq<Item>, level: nat)
    requires items != []
    ensures CutItems(ItemValues(items)) == [Cut(Value(items[0].doc))] + CutItems(ItemValues(items[1..]))
    ensures ItemsFit(items, level) <==> Fits(items[0].doc, level) && ItemsFit(items[1..], level)
  {
    hide Value, Nesting, Cut;
    assert ItemValues(items)[1..] == ItemValues(items[1..]);
  }

  lemma {:induction false} ObjParses(inside: bytes, entries: seq<Entry>, level: nat, t: bytes)
    requires IsDoc(Obj(inside, entries), Loose) && level <= NESTING_LIMIT
    ensures var d := Obj(inside, entries);
            ParseValue(Spelled(d, t), level) == if Fits(d, level) then Some((Cut(Value(d)), t)) else None
    decreases entries, 2
  {
    hide ParseValue, ParseMembers, SkipBlanks, FromKey, LiteralText, Fits, EntriesFit, Value, Cut, EntryValues;
    hide CutMembers, AreEntries, SpelledEntries;
    ObjectFits(inside, entries, level);
    if entries == [] {
      ObjectOpens(inside, [RIGHT_BRACE] + t, level);
      assert ([RIGHT_BRACE] + t)[1..] == t;
    } else {
      FirstEntry(entries, t);
      var s := FromKey(entries, t);
      ObjectOpens(entries[0].before, s, level);
      if level < NESTING_LIMIT {
        NoBlanks(s);
        SpelledEntriesParse(entries, level + 1, [], s, t);
        NothingBefore(CutMembers(EntryValues(entries)));
      }
    }
  }

  function EntryRest(entries: seq<Entry>, t: bytes): bytes
    requires entries != []
  {
    entries[0].after + if |entries| == 1 then [RIGHT_BRACE] + t else [COMMA] + SpelledEntries(entries[1..], t)
  }

  /** The entries from the first key on. */
  function FromKey(entries: seq<Entry>, t: bytes): bytes
    requires entries != []
  {
    var e := entries[0];
    LiteralText(e.key) + (e.mid + ([COLON] + (e.lead + Spelled(e.doc, EntryRest(entries, t)))))
  }

  lemma FirstEntry(entries: seq<Entry>, t: bytes)
    requires entries != [] && AreEntries(entries, Loose)
    ensures var s, x := FromKey(entries, t), Spelled(entries[0].doc, EntryRest(entries, t));
            && SpelledEntries(entries, t) == entries[0].before + s
            && s != [] && s[0] == QUOTE && x != [] && SPACE < x[0] && Stops(EntryRest(entries, t))
    ensures IsSpace(entries[0].before, Loose)
  {
    QuoteStarts(entries[0].key);
    DocStarts(entries[0].doc, EntryRest(entries, t));
  }

  predicate EntriesFit(entries: seq<Entry>, level: nat) {
    level + NestingMembers(EntryValues(entries)) <= NESTING_LIMIT && EntriesPaired(entries)
  }

  lemma {:induction false} SpelledEntriesParse(entries: seq<Entry>, level: nat, before: seq<Member>, s: bytes, t: bytes)
    requires entries != [] && AreEntries(entries, Loose) && level <= NESTING_LIMIT
    requires SkipBlanks(s) == FromKey(entries, t)
    ensures ParseMembers(s, level, before) ==
            if EntriesFit(entries, level) then Some((Object(before + CutMembers(EntryValues(entries))), t)) else None
    decreases entries, 1
  {
    hide ParseValue, ParseMember, ParseMembers, SkipBlanks, Spelled, IsDoc, LiteralText;
    var e, others := entries[0], entries[1..];
    var m := Member(CString(Meaning(e.key)), Cut(Value(e.doc)));
    FirstEntry(entries, t);
    MemberReads(s, level, e.key, e.mid, e.lead, Spelled(e.doc, EntryRest(entries, t)));
    DocParses(e.doc, level, EntryRest(entries, t));
    EntriesMore(entries, level);
    if !Paired(e.key) || !Fits(e.doc, level) {
      NoMember(s, level, before);
    } else if others == [] {
      MembersEnd(s, level, before, m, e.after, t);
      assert CutMembers(EntryValues(entries)) == [m];
    } else {
      var next := SpelledEntries(others, t);
      MembersGoOn(s, level, before, m, e.after, next);
      FirstEntry(others, t);
      SkipsPrefix(others[0].before, FromKey(others, t));
      SpelledEntriesParse(others, level, before + [m], next, t);
      assert before + [m] + CutMembers(EntryValues(others)) == before + CutMembers(EntryValues(entries));
    }
  }

  lemma ObjectFits(inside: bytes, entries: seq<Entry>, level: nat)
    ensures var d := Obj(inside, entries);
            && (Fits(d, level) <==> level < NESTING_LIMIT && EntriesFit(entries, level + 1))
            && Cut(Value(d)) == Object(CutMembers(EntryValues(entries)))
    ensures entries == [] ==>
              CutMembers(EntryValues(entries)) == [] && (EntriesFit(entries, level + 1) <==> level < NESTING_LIMIT)
  {
  }

  lemma EntriesMore(entries: seq<Entry>, level: nat)
    requires entries != []
    ensures var e := entries[0];
            && CutMembers(EntryValues(entries)) ==
               [Member(CString(Meaning(e.key)), Cut(Value(e.doc)))] + CutMembers(EntryValues(entries[1..]))
            && (EntriesFit(entries, level) <==> Paired(e.key) && Fits(e.doc, level) && EntriesFit(entries[1..], level))
  {
    hide Value, Nesting, Cut, CString, Meaning, Paired;
    assert EntryValues(entries)[1..] == EntryValues(entries[1..]);
  }

  // ----- whole texts -----

  /** The text of a value goes on with what is behind it. */
  lemma {:induction false} SpelledMore(d: Doc, t: bytes, u: bytes)
    ensures Spelled(d, t + u) == Spelled(d, t) + u
    decreases d, 1
  {
    match d
    case Arr(inside, items) =>
      if items == [] {
        RegroupLeft(inside, [RIGHT_BRACKET], t, u);
        RegroupThree([LEFT_BRACKET], inside + ([RIGHT_BRACKET] + t), u);
      } else {
        SpelledItemsMore(items, t, u);
        RegroupThree([LEFT_BRACKET], SpelledItems(items, t), u);
      }
    case Obj(inside, entries) =>
      if entries == [] {
        RegroupLeft(inside, [RIGHT_BRACE], t, u);
        RegroupThree([LEFT_BRACE], inside + ([RIGHT_BRACE] + t), u);
      } else {
        SpelledEntriesMore(entries, t, u);
        RegroupThree([LEFT_BRACE], SpelledEntries(entries, t), u);
      }
    case Word(v) => RegroupThree(WordText(v), t, u);
    case Num(n) => RegroupThree(NumeralText(n), t, u);
    case Lit(pieces) => RegroupThree(LiteralText(pieces), t, u);
  }

  lemma RegroupLeft(a: bytes, b: bytes, t: bytes, u: bytes)
    ensures a + (b + (t + u)) == a + (b + t) + u
  {
  }

  lemma {:induction false} SpelledItemsMore(items: seq<Item>, t: bytes, u: bytes)
    requires items != []
    ensures SpelledItems(items, t + u) == SpelledItems(items, t) + u
    decreases items, 0
  {
    hide Spelled;
    if |items| == 1 {
      RegroupLeft(items[0].after, [RIGHT_BRACKET], t, u);
    } else {
      SpelledItemsMore(items[1..], t, u);
      RegroupLeft(items[0].after, [COMMA], SpelledItems(items[1..], t), u);
    }
    SpelledMore(items[0].doc, ItemRest(items, t), u);
    RegroupThree(items[0].before, Spelled(items[0].doc, ItemRest(items, t)), u);
  }

  lemma {:induction false} SpelledEntriesMore(entries: seq<Entry>, t: bytes, u: bytes)
    requires entries != []
    ensures SpelledEntries(entries, t + u) == SpelledEntries(entries, t) + u
    decreases entries, 0
  {
    hide Spelled, LiteralText;
    var e := entries[0];
    if |entries| == 1 {
      RegroupLeft(e.after, [RIGHT_BRACE], t, u);
    } else {
      SpelledEntriesMore(entries[1..], t, u);
      RegroupLeft(e.after, [COMMA], SpelledEntries(entries[1..], t), u);
    }
    SpelledMore(e.doc, EntryRest(entries, t), u);
    var x := Spelled(e.doc, EntryRest(entries, t));
    RegroupLeft([COLON], e.lead, x, u);
    RegroupLeft(LiteralText(e.key), e.mid, [COLON] + (e.lead + x), u);
    RegroupThree(e.before, FromKey(entries, t), u);
  }

  lemma {:induction false} SpelledIsNulFree(d: Doc, t: bytes)
    requires IsDoc(d, Rfc) && NulFree(t)
    ensures NulFree(Spelled(d, t))
    decreases d, 1
  {
    hide Text;
    match d
    case Arr(_, items) =>
      if items != [] { SpelledItemsAreNulFree(items, t); }
    case Obj(_, entries) =>
      if entries != [] { SpelledEntriesAreNulFree(entries, t); }
    case Num(n) => NumeralIsNumber(n);
    case Lit(pieces) => LiteralIsNulFree(pieces);
    case Word(_) =>
  }

  lemma {:induction false} SpelledItemsAreNulFree(items: seq<Item>, t: bytes)
    requires items != [] && AreItems(items, Rfc) && NulFree(t)
    ensures NulFree(SpelledItems(items, t))
    decreases items, 0
  {
    hide Spelled;
    if |items| > 1 { SpelledItemsAreNulFree(items[1..], t); }
    SpelledIsNulFree(items[0].doc, ItemRest(items, t));
  }

  lemma {:induction false} SpelledEntriesAreNulFree(entries: seq<Entry>, t: bytes)
    requires entries != [] && AreEntries(entries, Rfc) && NulFree(t)
    ensures NulFree(SpelledEntries(entries, t))
    decreases entries, 0
  {
    hide Spelled, LiteralText;
    if |entries| > 1 { SpelledEntriesAreNulFree(entries[1..], t); }
    LiteralIsNulFree(entries[0].key);
    SpelledIsNulFree(entries[0].doc, EntryRest(entries, t));
  }

  lemma {:induction false} LiteralIsNulFree(pieces: seq<Piece>)
    requires IsLiteral(pieces, Rfc)
    ensures NulFree(Text(pieces)) && NulFree(LiteralText(pieces))
  {
    hide PieceText, IsPiece, IsToken, IsRfcPiece;
    if pieces != [] {
      LiteralIsNulFree(pieces[1..]);
      PieceIsNulFree(pieces[0]);
    }
  }

  lemma PieceIsNulFree(e: Piece)
    requires IsToken(e) && IsRfcPiece(e)
    ensures NulFree(PieceText(e))
  {
    hide HexNumber;
  }

  lemma {:induction false} AllDropped(s: bytes)
    requires forall i :: 0 <= i < |s| ==> s[i] <= SPACE
    ensures DropBlanks(s) == []
  {
    if s != [] {
      AllDropped(s[1..]);
    }
  }

  lemma OnlyBlanks(w: bytes)
    requires forall i :: 0 <= i < |w| ==> w[i] <= SPACE
    ensures SkipBlanks(w + [NUL]) == [NUL]
  {
    AllDropped(w + [NUL]);
  }


  function Mark(bom: bool): bytes {
    if bom then [0xEF, 0xBB, 0xBF] else []
  }

  lemma MarkIsSkipped(bom: bool, s: bytes)
    requires |s| > 1 && s[0] < 0x80
    ensures SkipBom(Mark(bom) + s) == s
  {
    if bom {
      assert (BOM + s)[..3] == BOM && (BOM + s)[3..] == s;
    } else {
      assert [] + s == s;
    }
  }

  /** Every text of the wider grammar, with blanks in front and a byte order mark or none; behind it blanks, or, where
      that is allowed, whatever a number could not go on with. */
  lemma LooseTextParses(bom: bool, lead: bytes, d: Doc, tail: bytes, terminated: bool)
    requires IsSpace(lead, Loose) && IsDoc(d, Loose) && NulFree(lead + Spelled(d, tail))
    requires if terminated then IsSpace(tail, Loose) else Stops(tail)
    ensures ParseText(Mark(bom) + (lead + Spelled(d, tail)), terminated) ==
            if Fits(d, 0) then Some((Cut(Value(d)), if terminated then [NUL] else tail + [NUL])) else None
  {
    hide ParseValue, Spelled, CString, SkipBom, SkipBlanks, Nesting, Value, Fits, Mark;
    var s, text := Spelled(d, tail + [NUL]), lead + Spelled(d, tail);
    assert NulFree(Mark(bom) + text) by { MarkIsNulFree(bom); }
    CStringOfTerminated(Mark(bom) + text, []);
    SpelledMore(d, tail, [NUL]);
    RegroupThree(lead, Spelled(d, tail), [NUL]);
    RegroupThree(Mark(bom), text, [NUL]);
    DocStarts(d, tail + [NUL]);
    DocStarts(d, tail);
    MarkIsSkipped(bom, lead + s);
    SkipsPrefix(lead, s);
    DocParses(d, 0, tail + [NUL]);
    if terminated {
      OnlyBlanks(tail);
    }
  }

  lemma MarkIsNulFree(bom: bool)
    ensures NulFree(Mark(bom))
  {
  }

  /** Every text of the standard, with whitespace around it: the parser accepts it if and only if it is at most 1000
      deep and has no surrogate of its own, and returns what it means up to the first U+0000 of each text and key. */
  lemma TextParses(lead: bytes, d: Doc, tail: bytes, terminated: bool)
    requires IsSpace(lead, Rfc) && IsDoc(d, Rfc) && IsSpace(tail, Rfc)
    ensures ParseText(lead + Spelled(d, tail), terminated) ==
            if Nesting(Value(d)) <= NESTING_LIMIT && AllPaired(d)
            then Some((Cut(Value(d)), if terminated then [NUL] else tail + [NUL]))
            else None
  {
    hide Spelled, IsDoc, ParseText, Nesting, Value, AllPaired, Cut;
    SpelledIsNulFree(d, tail);
    RfcIsLoose(d);
    LooseTextParses(false, lead, d, tail, terminated);
    assert Mark(false) + (lead + Spelled(d, tail)) == lead + Spelled(d, tail);
  }

  /** So a text of the standard parses to all it means if and only if it is at most 1000 deep, has no surrogate of its
      own, and no text or key in it holds U+0000. */
  lemma TextMeans(lead: bytes, d: Doc, tail: bytes, terminated: bool)
    requires IsSpace(lead, Rfc) && IsDoc(d, Rfc) && IsSpace(tail, Rfc)
    ensures var r := ParseText(lead + Spelled(d, tail), terminated);
            r.Some? && r.value.0 == Value(d) <==>
            Nesting(Value(d)) <= 1000 && AllPaired(d) && !HoldsNul(Value(d))
  {
    hide Spelled, IsDoc, ParseText, Nesting, Value, AllPaired, Cut, HoldsNul;
    TextParses(lead, d, tail, terminated);
    CutIsWhole(Value(d));
  }

  /** `"\ud800"`, a text of the standard, is refused. */
  lemma LoneSurrogateIsRefused()
    ensures var d := Lit([Lone([100, 56, 48, 48])]);
            && IsDoc(d, Rfc) && Spelled(d, []) == [QUOTE, BACKSLASH, LETTER_U, 100, 56, 48, 48, QUOTE]
            && ParseText(Spelled(d, []), false) == None
  {
    hide Text, Meaning, ParseText, ParseBuffer;
    var e := Lone([100, 56, 48, 48]);
    assert HexNumber(e.hex) == 0xD800;
    assert [e][0].Lone? && !Paired([e]);
    OneLiteral(e);
  }

  /** `"\u0000"` parses to the empty text. */
  lemma NulIsCut()
    ensures var d := Lit([Basic([48, 48, 48, 48])]);
            && IsDoc(d, Rfc) && Spelled(d, []) == [QUOTE, BACKSLASH, LETTER_U, 48, 48, 48, 48, QUOTE]
            && Value(d) == Str([NUL]) && ParseText(Spelled(d, []), false) == Some((Str([]), [NUL]))
  {
    hide Text, Meaning, ParseText, ParseBuffer;
    var e := Basic([48, 48, 48, 48]);
    assert HexNumber(e.hex) == 0;
    EncodedNul();
    OneLiteral(e);
  }

  /** A text that is one literal of one piece. */
  lemma OneLiteral(e: Piece)
    requires IsToken(e) && IsRfcPiece(e)
    ensures var d := Lit([e]);
            && IsDoc(d, Rfc) && Value(d) == Str(PieceMeaning(e)) && Spelled(d, []) == [QUOTE] + PieceText(e) + [QUOTE]
            && ParseText(Spelled(d, []), false) ==
               if e.Lone? then None else Some((Str(CString(PieceMeaning(e))), [NUL]))
  {
    hide Text, Meaning, ParseText, ParseBuffer, IsToken, IsRfcPiece, PieceText, PieceMeaning;
    var d, none: bytes := Lit([e]), [];
    OnePiece(e);
    assert [e][0] == e;
    assert Paired([e]) <==> !e.Lone?;
    TextParses(none, d, none, false);
    assert none + Spelled(d, none) == Spelled(d, none) && none + [NUL] == [NUL];
  }

  /** `1.5`, `-0.25` and `1e3`. */
  lemma NumbersAreRead()
    ensures ParseNumber([49, 46, 53]) == Some((1.5, []))
    ensures ParseNumber([45, 48, 46, 50, 53]) == Some((-0.25, []))
    ensures ParseNumber([49, 101, 51]) == Some((1000.0, []))
  {
    hide Strtod, NumberRun, ParseNumber;
    var none: bytes := [];
    DigitsExample();
    var a := Numeral(false, [49], true, [53], None);
    assert NumeralText(a) + none == [49, 46, 53];
    NumberReads(a, none);
    var b := Numeral(true, [48], true, [50, 53], None);
    assert NumeralText(b) + none == [45, 48, 46, 50, 53];
    NumberReads(b, none);
    var c := Numeral(false, [49], false, [], Some(Exponent(101, None, [51])));
    assert NumeralText(c) + none == [49, 101, 51];
    NumberReads(c, none);
    assert Moved(1.0, 3) == Moved(1.0, 2) * 10.0 && Moved(1.0, 2) == Moved(1.0, 1) * 10.0;
  }

  lemma DigitsExample()
    ensures forall b: byte :: Whole([b]) == b as int - 48
    ensures Tenths([53]) == 0.5 && Tenths([50, 53]) == 0.25 && Tenths([]) == 0.0
  {
    forall b: byte
      ensures Whole([b]) == b as int - 48
    {
      assert [b][..0] == [];
    }
    assert [53][1..] == [] && [50, 53][1..] == [53];
  }

  /** `"\u00E9"` and `"\u00e9"` are both U+00E9, in UTF-8 `C3 A9`. */
  lemma EscapesAreRead()
    ensures var u := [QUOTE, BACKSLASH, LETTER_U, 48, 48, 69, 57, QUOTE];
            ParseText(u, false) == Some((Str([0xC3, 0xA9]), [NUL]))
    ensures var l := [QUOTE, BACKSLASH, LETTER_U, 48, 48, 101, 57, QUOTE];
            ParseText(l, false) == Some((Str([0xC3, 0xA9]), [NUL]))
  {
    hide Text, Meaning, ParseText, ParseBuffer;
    var u, l := Basic([48, 48, 69, 57]), Basic([48, 48, 101, 57]);
    assert HexNumber(u.hex) == 0xE9 && HexNumber(l.hex) == 0xE9;
    OneLiteral(u);
    OneLiteral(l);
    assert [QUOTE] + PieceText(u) + [QUOTE] == [QUOTE, BACKSLASH, LETTER_U, 48, 48, 69, 57, QUOTE];
    assert [QUOTE] + PieceText(l) + [QUOTE] == [QUOTE, BACKSLASH, LETTER_U, 48, 48, 101, 57, QUOTE];
    CStringOfTerminated([0xC3, 0xA9], []);
  }

  lemma OnePiece(e: Piece)
    ensures Text([e]) == PieceText(e) && Meaning([e]) == PieceMeaning(e)
  {
  }
}
