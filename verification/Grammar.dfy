/** The texts of RFC 8259 and the wider ones the parser lets through, as they are spelled, and what they mean. */
module Grammar {
  import opened Bytes
  import opened Json
  import opened Strings
  import opened Utf
  import opened Wrappers

  // ----- concrete syntax -----

  /** `Rfc` is the grammar of the standard; `Loose` is what the parser reads beyond it. */
  datatype Dialect = Rfc | Loose

  /** Section 6: a number as it is spelled. `exponent` has its letter, sign and digits. */
  datatype Numeral =
    Numeral(negative: bool, digits: bytes, dot: bool, fraction: bytes, exponent: Option<Exponent>)

  datatype Exponent = Exponent(mark: byte, sign: Option<byte>, digits: bytes)

  /** Sections 3 to 7: a value as it is spelled, with the whitespace inside it. */
  datatype Doc =
    | Word(value: Json)
    | Num(numeral: Numeral)
    | Lit(pieces: seq<Piece>)
    | Arr(inside: bytes, items: seq<Item>)
    | Obj(inside: bytes, entries: seq<Entry>)

  datatype Item = Item(before: bytes, doc: Doc, after: bytes)

  datatype Entry = Entry(before: bytes, key: seq<Piece>, mid: bytes, lead: bytes, doc: Doc, after: bytes)

  predicate AreDigits(s: bytes) {
    forall i :: 0 <= i < |s| ==> 48 <= s[i] <= 57
  }

  /** Section 2: what may stand between tokens. The parser takes any byte up to the space. */
  predicate IsSpace(s: bytes, g: Dialect) {
    && (forall i :: 0 <= i < |s| ==> s[i] <= SPACE)
    && (g.Rfc? ==> forall i :: 0 <= i < |s| ==> s[i] == SPACE || s[i] == TAB || s[i] == NEWLINE || s[i] == RETURN)
  }

  /** No leading zeros, and at least one digit in every run that is there. The parser takes leading zeros, and needs
      digits on one side of the dot only; but a number starts with its sign or a digit. */
  predicate IsNumeral(n: Numeral, g: Dialect) {
    && AreDigits(n.digits) && AreDigits(n.fraction) && (n.fraction != [] ==> n.dot)
    && (n.digits != [] || (n.negative && n.fraction != []))
    && IsPower(n.exponent)
    && (g.Rfc? ==>
          n.digits != [] && (|n.digits| > 1 ==> n.digits[0] != DIGIT_0) && (n.dot ==> n.fraction != []))
  }

  predicate IsPower(p: Option<Exponent>) {
    p.Some? ==>
      var e := p.value;
      && (e.mark == 69 || e.mark == 101)
      && (e.sign.Some? ==> e.sign.value == PLUS || e.sign.value == MINUS)
      && AreDigits(e.digits) && e.digits != []
  }

  /** Section 7: control characters must be escaped; a surrogate may stand alone. The parser takes any pieces, as long
      as no backslash is left over and no quote is bare. */
  predicate IsLiteral(pieces: seq<Piece>, g: Dialect) {
    && AreTokens(pieces) && InOrder(pieces)
    && if g.Loose? then Closed(Text(pieces))
       else forall i :: 0 <= i < |pieces| ==> IsRfcPiece(pieces[i])
  }

  predicate IsRfcPiece(e: Piece) {
    (IsPiece(e) || e.Lone?) && (e.Plain? ==> e.b >= SPACE)
  }

  ghost predicate IsDoc(d: Doc, g: Dialect)
    decreases d, 1
  {
    match d
    case Word(v) => v.Null? || v.False? || v.True?
    case Num(n) => IsNumeral(n, g)
    case Lit(pieces) => IsLiteral(pieces, g)
    case Arr(inside, items) => IsSpace(inside, g) && AreItems(items, g)
    case Obj(inside, entries) => IsSpace(inside, g) && AreEntries(entries, g)
  }

  ghost predicate AreItems(items: seq<Item>, g: Dialect)
    decreases items, 0
  {
    items == [] ||
    (IsSpace(items[0].before, g) && IsDoc(items[0].doc, g) && IsSpace(items[0].after, g) && AreItems(items[1..], g))
  }

  ghost predicate AreEntries(entries: seq<Entry>, g: Dialect)
    decreases entries, 0
  {
    entries == [] ||
    (var e := entries[0];
     && IsSpace(e.before, g) && IsLiteral(e.key, g) && IsSpace(e.mid, g) && IsSpace(e.lead, g) && IsDoc(e.doc, g)
     && IsSpace(e.after, g) && AreEntries(entries[1..], g))
  }

  // ----- its text, with what comes behind it -----

  function SignText(n: Numeral): bytes {
    if n.negative then [MINUS] else []
  }

  function FractionText(n: Numeral): bytes {
    if n.dot then [DOT] + n.fraction else []
  }

  function PowerText(p: Option<Exponent>): bytes {
    if p.Some? then [p.value.mark] + (if p.value.sign.Some? then [p.value.sign.value] else []) + p.value.digits else []
  }

  function NumeralText(n: Numeral): bytes {
    SignText(n) + n.digits + FractionText(n) + PowerText(n.exponent)
  }

  function LiteralText(pieces: seq<Piece>): bytes {
    [QUOTE] + Text(pieces) + [QUOTE]
  }

  function WordText(v: Json): bytes {
    if v.Null? then [110, 117, 108, 108]
    else if v.False? then [102, 97, 108, 115, 101]
    else [116, 114, 117, 101]
  }

  function Spelled(d: Doc, t: bytes): bytes
    decreases d, 1
  {
    match d
    case Word(v) => WordText(v) + t
    case Num(n) => NumeralText(n) + t
    case Lit(pieces) => LiteralText(pieces) + t
    case Arr(inside, items) =>
      [LEFT_BRACKET] + if items == [] then inside + ([RIGHT_BRACKET] + t) else SpelledItems(items, t)
    case Obj(inside, entries) =>
      [LEFT_BRACE] + if entries == [] then inside + ([RIGHT_BRACE] + t) else SpelledEntries(entries, t)
  }

  function SpelledItems(items: seq<Item>, t: bytes): bytes
    requires items != []
    decreases items, 0
  {
    items[0].before + Spelled(items[0].doc, items[0].after +
      if |items| == 1 then [RIGHT_BRACKET] + t else [COMMA] + SpelledItems(items[1..], t))
  }

  function SpelledEntries(entries: seq<Entry>, t: bytes): bytes
    requires entries != []
    decreases entries, 0
  {
    var e := entries[0];
    e.before + (LiteralText(e.key) + (e.mid + ([COLON] + (e.lead + Spelled(e.doc, e.after +
      if |entries| == 1 then [RIGHT_BRACE] + t else [COMMA] + SpelledEntries(entries[1..], t))))))
  }

  // ----- its meaning -----

  /** A run of digits as a number: each further digit is a unit, and what is in front of it counts ten times. */
  function Whole(s: bytes): int {
    if s == [] then 0 else 10 * Whole(s[..|s| - 1]) + (s[|s| - 1] as int - 48)
  }

  /** Digits behind a dot: the first counts tenths, and what follows it a tenth of what it would count itself. */
  function Tenths(s: bytes): real {
    if s == [] then 0.0 else ((s[0] as int - 48) as real + Tenths(s[1..])) / 10.0
  }

  /** Ten times as much for each step up, a tenth for each step down. */
  function Moved(x: real, steps: int): real
    decreases if steps < 0 then -steps else steps
  {
    if steps > 0 then Moved(x, steps - 1) * 10.0
    else if steps < 0 then Moved(x, steps + 1) / 10.0
    else x
  }

  function Power(p: Option<Exponent>): int {
    if p.None? then 0 else (if p.value.sign == Some(45) then -1 else 1) * Whole(p.value.digits)
  }

  function NumeralValue(n: Numeral): real {
    var x := Whole(n.digits) as real + Tenths(n.fraction);
    Moved(if n.negative then -x else x, Power(n.exponent))
  }

  /** Texts and keys are the whole UTF-8 of what is written, U+0000 included. */
  function Value(d: Doc): Json
    decreases d, 1
  {
    match d
    case Word(v) => v
    case Num(n) => Number(NumeralValue(n))
    case Lit(pieces) => Str(Meaning(pieces))
    case Arr(_, items) => Array(ItemValues(items))
    case Obj(_, entries) => Object(EntryValues(entries))
  }

  function ItemValues(items: seq<Item>): seq<Json>
    decreases items, 0
  {
    if items == [] then [] else [Value(items[0].doc)] + ItemValues(items[1..])
  }

  function EntryValues(entries: seq<Entry>): seq<Member>
    decreases entries, 0
  {
    if entries == [] then []
    else [Member(Meaning(entries[0].key), Value(entries[0].doc))] + EntryValues(entries[1..])
  }

  /** No text and no key in it has a surrogate of its own. */
  predicate AllPaired(d: Doc)
    decreases d, 1
  {
    match d
    case Lit(pieces) => Paired(pieces)
    case Arr(_, items) => ItemsPaired(items)
    case Obj(_, entries) => EntriesPaired(entries)
    case _ => true
  }

  predicate ItemsPaired(items: seq<Item>)
    decreases items, 0
  {
    items == [] || (AllPaired(items[0].doc) && ItemsPaired(items[1..]))
  }

  predicate EntriesPaired(entries: seq<Entry>)
    decreases entries, 0
  {
    entries == [] || (Paired(entries[0].key) && AllPaired(entries[0].doc) && EntriesPaired(entries[1..]))
  }

  // ----- what a C string can hold of it -----

  /** A value whose texts and keys all end before their first U+0000. */
  function Cut(v: Json): Json
    decreases v, 1
  {
    match v
    case Str(t) => Str(CString(t))
    case Array(items) => Array(CutItems(items))
    case Object(members) => Object(CutMembers(members))
    case _ => v
  }

  function CutItems(items: seq<Json>): seq<Json>
    decreases items, 0
  {
    if items == [] then [] else [Cut(items[0])] + CutItems(items[1..])
  }

  function CutMembers(members: seq<Member>): seq<Member>
    decreases members, 0
  {
    if members == [] then []
    else [Member(CString(members[0].key), Cut(members[0].value))] + CutMembers(members[1..])
  }

  /** Some text or key in it holds U+0000. */
  ghost predicate HoldsNul(v: Json)
    decreases v, 1
  {
    match v
    case Str(t) => NUL in t
    case Array(items) => exists i :: 0 <= i < |items| && HoldsNul(items[i])
    case Object(members) => exists i :: 0 <= i < |members| && (NUL in members[i].key || HoldsNul(members[i].value))
    case _ => false
  }

  /** Nothing is cut off exactly when there is no such text or key. */
  lemma {:induction false} CutIsWhole(v: Json)
    ensures Cut(v) == v <==> !HoldsNul(v)
    decreases v, 1
  {
    match v
    case Str(t) => TextIsWhole(t);
    case Array(items) => ItemsAreWhole(items);
    case Object(members) => MembersAreWhole(members);
    case _ =>
  }

  lemma TextIsWhole(t: bytes)
    ensures CString(t) == t <==> NUL !in t
  {
    if NUL !in t {
      CStringOfTerminated(t, []);
    }
  }

  lemma {:induction false} ItemsAreWhole(items: seq<Json>)
    ensures CutItems(items) == items <==> forall i :: 0 <= i < |items| ==> !HoldsNul(items[i])
    decreases items, 0
  {
    if items != [] {
      var rest := items[1..];
      CutIsWhole(items[0]);
      ItemsAreWhole(rest);
      assert forall i :: 0 <= i < |rest| ==> rest[i] == items[i + 1];
      assert CutItems(items)[1..] == CutItems(rest);
      assert items == [items[0]] + rest;
      assert (forall i :: 0 <= i < |items| ==> !HoldsNul(items[i])) ==>
          forall i :: 0 <= i < |rest| ==> !HoldsNul(rest[i]);
    }
  }

  lemma {:induction false} MembersAreWhole(members: seq<Member>)
    ensures CutMembers(members) == members <==>
            forall i :: 0 <= i < |members| ==> NUL !in members[i].key && !HoldsNul(members[i].value)
    decreases members, 0
  {
    if members != [] {
      var m, rest := members[0], members[1..];
      TextIsWhole(m.key);
      CutIsWhole(m.value);
      MembersAreWhole(rest);
      assert forall i :: 0 <= i < |rest| ==> rest[i] == members[i + 1];
      assert CutMembers(members)[1..] == CutMembers(rest);
      assert members == [m] + rest;
      assert (forall i :: 0 <= i < |members| ==> NUL !in members[i].key && !HoldsNul(members[i].value)) ==>
          forall i :: 0 <= i < |rest| ==> NUL !in rest[i].key && !HoldsNul(rest[i].value);
    }
  }

  // ----- the standard's texts are among the others -----

  lemma {:induction false} RfcIsLoose(d: Doc)
    requires IsDoc(d, Rfc)
    ensures IsDoc(d, Loose)
    decreases d, 1
  {
    match d
    case Lit(pieces) => RfcLiteralIsLoose(pieces);
    case Arr(_, items) => RfcItemsAreLoose(items);
    case Obj(_, entries) => RfcEntriesAreLoose(entries);
    case _ =>
  }

  lemma {:induction false} RfcItemsAreLoose(items: seq<Item>)
    requires AreItems(items, Rfc)
    ensures AreItems(items, Loose)
    decreases items, 0
  {
    if items != [] {
      RfcIsLoose(items[0].doc);
      RfcItemsAreLoose(items[1..]);
    }
  }

  lemma {:induction false} RfcEntriesAreLoose(entries: seq<Entry>)
    requires AreEntries(entries, Rfc)
    ensures AreEntries(entries, Loose)
    decreases entries, 0
  {
    if entries != [] {
      RfcLiteralIsLoose(entries[0].key);
      RfcIsLoose(entries[0].doc);
      RfcEntriesAreLoose(entries[1..]);
    }
  }

  lemma RfcLiteralIsLoose(pieces: seq<Piece>)
    requires IsLiteral(pieces, Rfc)
    ensures IsLiteral(pieces, Loose)
  {
    PiecesAreClosed(pieces);
  }

  lemma {:induction false} PiecesAreClosed(es: seq<Piece>)
    requires AreTokens(es) && forall i :: 0 <= i < |es| ==> IsRfcPiece(es[i])
    ensures Closed(Text(es))
  {
    hide Closed, PieceText, IsToken, IsRfcPiece;
    if es == [] {
      EmptyIsClosed([]);
    } else {
      PiecesAreClosed(es[1..]);
      PieceThenClosed(es[0], Text(es[1..]));
    }
  }

  lemma PieceThenClosed(e: Piece, q: bytes)
    requires IsToken(e) && IsRfcPiece(e) && Closed(q)
    ensures Closed(PieceText(e) + q)
  {
    hide HexNumber;
    var p := PieceText(e) + q;
    match e
    case Plain(_) =>
      assert p[1..] == q;
    case Letter(_) =>
      assert p[2..] == q;
    case Basic(h) =>
      EscapeThenClosed(h, q);
    case Lone(h) =>
      EscapeThenClosed(h, q);
    case Pair(h, l) =>
      EscapeThenClosed(l, q);
      EscapeThenClosed(h, [BACKSLASH, LETTER_U] + l + q);
      assert p == [BACKSLASH, LETTER_U] + h + ([BACKSLASH, LETTER_U] + l + q);
  }

  lemma EscapeThenClosed(h: bytes, q: bytes)
    requires IsHex4(h) && Closed(q)
    ensures Closed([BACKSLASH, LETTER_U] + h + q)
  {
    var p := [BACKSLASH, LETTER_U] + h + q;
    assert p[2..] == h + q && (h + q)[4..] == q;
    ClosedPlain(p[2..], 4);
  }
}
