/** What is printed is text of RFC 8259, and means there the value that was printed. */
module Conformance {
  import opened Bytes
  import opened Decimals
  import opened Grammar
  import opened Json
  import opened Numbers
  import opened RoundTrip
  import opened Strings
  import opened Wrappers

  /** A printed integer is a number of section 6, without leading zeros. */
  lemma DecimalIsNumeral(n: int) returns (m: Numeral)
    ensures IsNumeral(m, Rfc) && NumeralText(m) == DecimalText(n) && NumeralValue(m) == n as real
  {
    hide Digits, Whole;
    var digits := Digits(if n < 0 then -n else n);
    m := Numeral(n < 0, digits, false, [], None);
    NoLeadingZero(if n < 0 then -n else n);
    WholeIsDigits(digits);
    DigitsRoundTrip(if n < 0 then -n else n);
    assert NumeralText(m) == DecimalText(n);
  }

  lemma {:induction false} NoLeadingZero(n: nat)
    ensures |Digits(n)| > 1 ==> Digits(n)[0] != 48
    ensures n > 0 ==> Digits(n)[0] != 48
  {
    if n >= 10 {
      NoLeadingZero(n / 10);
    }
  }

  /** A printed text or key is a string of section 7. */
  lemma QuotedIsLiteral(s: bytes) returns (pieces: seq<Piece>)
    ensures IsLiteral(pieces, Rfc) && Paired(pieces) && LiteralText(pieces) == Quoted(s) && Meaning(pieces) == s
  {
    hide Text, Meaning, Escape, InOrder;
    pieces := EscapeIsWellFormed(s);
    PiecesAreInOrder(pieces);
  }

  /** At any place in a larger text, compact or formatted: the text of a value is a document of RFC 8259 that means this
      value, with no surrogate of its own. */
  lemma {:induction false} RenderedIsRfc(v: Json, format: bool, depth: nat, t: bytes) returns (d: Doc)
    requires Wf(v)
    ensures IsDoc(d, Rfc) && AllPaired(d) && Value(d) == v && Spelled(d, t) == Render(v, format, depth) + t
    decreases v, 1
  {
    match v
    case Number(x) =>
      var m := DecimalIsNumeral(ValueInt(x));
      d := Num(m);
    case Str(text) =>
      var pieces := QuotedIsLiteral(text);
      d := Lit(pieces);
    case Array(items) =>
      d := ArrayIsRfc(items, format, depth, t);
    case Object(members) =>
      d := ObjectIsRfc(members, format, depth, t);
    case _ =>
      d := Word(v);
  }

  lemma {:induction false} ArrayIsRfc(items: seq<Json>, format: bool, depth: nat, t: bytes) returns (d: Doc)
    requires WfItems(items)
    ensures IsDoc(d, Rfc) && AllPaired(d) && Value(d) == Array(items)
    ensures Spelled(d, t) == Render(Array(items), format, depth) + t
    decreases items, 1
  {
    hide Render, RenderItems, AreItems, ItemValues, ItemsPaired, SpelledItems, WfItems;
    ArrayText(items, format, depth, t);
    if items == [] {
      NoItems(items, format, depth + 1);
      NothingThere();
      d := Arr([], []);
    } else {
      var spelled := ItemsAreRfc(items, format, depth + 1, [], t);
      d := Arr([], spelled);
    }
  }

  lemma TabsAreSpace(format: bool, depth: nat)
    ensures IsSpace(Break(format) + Tabs(format, depth), Rfc)
  {
  }

  lemma NothingThere()
    ensures AreItems([], Rfc) && ItemValues([]) == [] && ItemsPaired([])
    ensures AreEntries([], Rfc) && EntryValues([]) == [] && EntriesPaired([])
  {
  }

  lemma {:induction false} ItemsAreRfc(items: seq<Json>, format: bool, depth: nat, before: bytes, t: bytes)
    returns (spelled: seq<Item>)
    requires items != [] && WfItems(items) && IsSpace(before, Rfc)
    ensures spelled != [] && AreItems(spelled, Rfc) && ItemsPaired(spelled) && ItemValues(spelled) == items
    ensures SpelledItems(spelled, t) == before + (RenderItems(items, format, depth) + [RIGHT_BRACKET] + t)
    decreases items, 0
  {
    hide Render, RenderItems, IsDoc, Value, AllPaired, Spelled, Wf;
    var others := items[1..];
    ItemsText(items, format, depth, t);
    var d := RenderedIsRfc(items[0], format, depth, AfterItem(others, format, depth, t));
    var first := Item(before, d, []);
    if others == [] {
      spelled := [first];
      NothingThere();
      assert [first][1..] == [] && [] + ([RIGHT_BRACKET] + t) == [RIGHT_BRACKET] + t;
    } else {
      var rest := ItemsAreRfc(others, format, depth, if format then [SPACE] else [], t);
      spelled := [first] + rest;
      assert spelled[1..] == rest && [] + ([COMMA] + SpelledItems(rest, t)) == AfterItem(others, format, depth, t);
    }
    assert items == [items[0]] + others;
  }

  lemma {:induction false} ObjectIsRfc(members: seq<Member>, format: bool, depth: nat, t: bytes) returns (d: Doc)
    requires WfMembers(members)
    ensures IsDoc(d, Rfc) && AllPaired(d) && Value(d) == Object(members)
    ensures Spelled(d, t) == Render(Object(members), format, depth) + t
    decreases members, 1
  {
    hide Render, MembersText, AreEntries, EntryValues, EntriesPaired, SpelledEntries, WfMembers, Tabs, Repeat;
    TabsAreSpace(format, depth);
    TabsAreSpace(format, depth + 1);
    ObjectText(members, format, depth, t);
    if members == [] {
      NothingThere();
      d := Obj(Break(format) + Tabs(format, depth), []);
    } else {
      var spelled := EntriesAreRfc(members, format, depth + 1, Break(format) + Tabs(format, depth + 1), t);
      d := Obj([], spelled);
    }
  }

  lemma {:induction false} EntriesAreRfc(members: seq<Member>, format: bool, depth: nat, before: bytes, t: bytes)
    returns (spelled: seq<Entry>)
    requires members != [] && WfMembers(members) && depth >= 1 && IsSpace(before, Rfc)
    ensures spelled != [] && AreEntries(spelled, Rfc) && EntriesPaired(spelled) && EntryValues(spelled) == members
    ensures SpelledEntries(spelled, t) == before + MembersText(members, format, depth, t)
    decreases members, 0
  {
    hide Render, IsDoc, Value, AllPaired, Spelled, Wf, Quoted, LiteralText, Meaning, IsLiteral, Paired, Tabs, Break;
    TabsAreSpace(format, depth - 1);
    TabsAreSpace(format, depth);
    var others := members[1..];
    var after := AfterMember(others, format, depth, t);
    var key := QuotedIsLiteral(members[0].key);
    var d := RenderedIsRfc(members[0].value, format, depth, after);
    var lead := if format then [TAB] else [];
    if others == [] {
      var last := Entry(before, key, [], lead, d, Break(format) + Tabs(format, depth - 1));
      spelled := [last];
      NothingThere();
      assert [last][1..] == [];
    } else {
      var rest := EntriesAreRfc(others, format, depth, Break(format) + Tabs(format, depth), t);
      spelled := [Entry(before, key, [], lead, d, [])] + rest;
      assert spelled[1..] == rest && [] + ([COMMA] + SpelledEntries(rest, t)) == after;
    }
    RegroupColon(lead, Render(members[0].value, format, depth) + after);
    assert members == [members[0]] + others;
  }

  lemma RegroupColon(lead: bytes, x: bytes)
    ensures [COLON] + lead + x == [] + ([COLON] + (lead + x))
  {
  }

  /** So a value that is printed, compact or formatted, is a text of RFC 8259, and means that value. */
  lemma PrintedIsRfc(v: Json, format: bool) returns (d: Doc)
    requires Wf(v)
    ensures IsDoc(d, Rfc) && AllPaired(d) && Value(d) == v && Spelled(d, []) == Render(v, format, 0)
  {
    d := RenderedIsRfc(v, format, 0, []);
    assert Render(v, format, 0) + [] == Render(v, format, 0);
  }
}
