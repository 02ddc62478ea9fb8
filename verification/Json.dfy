/** JSON values and the text that printing them is meant to produce. */
module Json {
  import opened Bytes

  const INT_MAX: int := 2147483647
  const INT_MIN: int := -2147483648

  /** Objects keep their members in order, duplicate keys included. */
  datatype Json =
    | Null
    | False
    | True
    | Number(value: real)
    | Str(text: bytes)
    | Array(items: seq<Json>)
    | Object(members: seq<Member>)

  datatype Member = Member(key: bytes, value: Json)

  /** The `valueint` of a number: truncated toward zero, saturated at the ends of `int`. */
  function ValueInt(x: real): (n: int)
    ensures INT_MIN <= n <= INT_MAX
    ensures x >= INT_MAX as real ==> n == INT_MAX
    ensures x <= INT_MIN as real ==> n == INT_MIN
    ensures 0.0 <= x < INT_MAX as real ==> n as real <= x < n as real + 1.0
    ensures INT_MIN as real < x <= 0.0 ==> n as real - 1.0 < x <= n as real
  {
    if x >= INT_MAX as real then INT_MAX
    else if x <= INT_MIN as real then INT_MIN
    else if x >= 0.0 then x.Floor
    else -((-x).Floor)
  }

  predicate IsInt32(x: real) {
    x == ValueInt(x) as real
  }

  /** The values the text codec is exact on: 32-bit integers, and C strings for texts and keys. */
  ghost predicate Wf(v: Json)
    decreases v, 1
  {
    match v
    case Number(x) => IsInt32(x)
    case Str(t) => NulFree(t)
    case Array(items) => WfItems(items)
    case Object(members) => WfMembers(members)
    case _ => true
  }

  ghost predicate WfItems(items: seq<Json>)
    decreases items, 0
  {
    items == [] || (Wf(items[0]) && WfItems(items[1..]))
  }

  ghost predicate WfMembers(members: seq<Member>)
    decreases members, 0
  {
    members == [] || (NulFree(members[0].key) && Wf(members[0].value) && WfMembers(members[1..]))
  }

  function Max(a: nat, b: nat): nat {
    if a < b then b else a
  }

  /** How many arrays and objects deep a value goes. */
  function Nesting(v: Json): nat
    decreases v, 1
  {
    match v
    case Array(items) => 1 + NestingItems(items)
    case Object(members) => 1 + NestingMembers(members)
    case _ => 0
  }

  function NestingItems(items: seq<Json>): nat
    decreases items, 0
  {
    if items == [] then 0 else Max(Nesting(items[0]), NestingItems(items[1..]))
  }

  function NestingMembers(members: seq<Member>): nat
    decreases members, 0
  {
    if members == [] then 0 else Max(Nesting(members[0].value), NestingMembers(members[1..]))
  }

  /** There are arrays and objects in it `n` deep, one inside another. */
  predicate GoesDown(v: Json, n: nat)
    decreases n
  {
    || n == 0
    || (v.Array? && (n == 1 || exists i :: 0 <= i < |v.items| && GoesDown(v.items[i], n - 1)))
    || (v.Object? && (n == 1 || exists i :: 0 <= i < |v.members| && GoesDown(v.members[i].value, n - 1)))
  }

  /** The nesting of a value is how deep it goes. */
  lemma {:induction false} NestingIsDepth(v: Json, n: nat)
    ensures GoesDown(v, n) <==> n <= Nesting(v)
    decreases n
  {
    if n > 1 && v.Array? {
      forall i | 0 <= i < |v.items| ensures GoesDown(v.items[i], n - 1) <==> n - 1 <= Nesting(v.items[i]) {
        NestingIsDepth(v.items[i], n - 1);
      }
      NestingOfItems(v.items, n - 1);
    }
    if n > 1 && v.Object? {
      forall i | 0 <= i < |v.members|
        ensures GoesDown(v.members[i].value, n - 1) <==> n - 1 <= Nesting(v.members[i].value)
      {
        NestingIsDepth(v.members[i].value, n - 1);
      }
      NestingOfMembers(v.members, n - 1);
    }
  }

  lemma {:induction false} NestingOfItems(items: seq<Json>, n: nat)
    requires n > 0
    ensures n <= NestingItems(items) <==> exists i :: 0 <= i < |items| && n <= Nesting(items[i])
  {
    if items != [] {
      NestingOfItems(items[1..], n);
      assert forall i :: 0 < i < |items| ==> items[i] == items[1..][i - 1];
    }
  }

  lemma {:induction false} NestingOfMembers(members: seq<Member>, n: nat)
    requires n > 0
    ensures n <= NestingMembers(members) <==> exists i :: 0 <= i < |members| && n <= Nesting(members[i].value)
  {
    if members != [] {
      NestingOfMembers(members[1..], n);
      assert forall i :: 0 < i < |members| ==> members[i] == members[1..][i - 1];
    }
  }

  /** Decimal digits of a natural number, no leading zero. */
  function Digits(n: nat): (r: bytes)
    ensures |r| > 0
    ensures forall i :: 0 <= i < |r| ==> DIGIT_0 <= r[i] <= DIGIT_0 + 9
  {
    if n < 10 then [DIGIT_0 + n] else Digits(n / 10) + [DIGIT_0 + n % 10]
  }

  /** The text of `%d`. */
  function DecimalText(n: int): bytes {
    if n < 0 then [MINUS] + Digits(-n) else Digits(n)
  }

  /** A lower-case hexadecimal digit, as `%x` prints it. */
  function HexDigit(n: nat): byte
    requires n < 16
  {
    if n < 10 then DIGIT_0 + n else 87 + n
  }

  lemma HexDigitIsPlace(n: nat)
    requires n < 16
    ensures HexDigit(n) == "0123456789abcdef"[n] as int
  {
  }

  /** Section 7 of RFC 8259: quote, backslash and control characters must be escaped. */
  function EscapeByte(b: byte): (r: bytes)
    ensures 1 <= |r| <= 6
  {
    if b > 31 && b != QUOTE && b != BACKSLASH then [b]
    else if b == BACKSLASH then [BACKSLASH, BACKSLASH]
    else if b == QUOTE then [BACKSLASH, QUOTE]
    else if b == BACKSPACE then [BACKSLASH, 98]
    else if b == FORM_FEED then [BACKSLASH, 102]
    else if b == NEWLINE then [BACKSLASH, 110]
    else if b == RETURN then [BACKSLASH, 114]
    else if b == TAB then [BACKSLASH, 116]
    else [BACKSLASH, 117, DIGIT_0, DIGIT_0, HexDigit(b / 16), HexDigit(b % 16)]
  }

  /** Which bytes have a short escape, and which one. */
  lemma ShortEscapes()
    ensures EscapeByte(34) == [92, 34] && EscapeByte(92) == [92, 92]
    ensures EscapeByte(8) == [92, 98] && EscapeByte(12) == [92, 102] && EscapeByte(10) == [92, 110]
    ensures EscapeByte(13) == [92, 114] && EscapeByte(9) == [92, 116]
    ensures forall b: byte :: |EscapeByte(b)| == 2 ==> b in [34, 92, 8, 12, 10, 13, 9]
    ensures forall b: byte :: |EscapeByte(b)| == 1 ==> EscapeByte(b) == [b] && b >= 32
  {
  }

  function Escape(s: bytes): bytes {
    if s == [] then [] else EscapeByte(s[0]) + Escape(s[1..])
  }

  function Quoted(s: bytes): bytes {
    [QUOTE] + Escape(s) + [QUOTE]
  }

  /** The text of a value; `depth` is the nesting of the place it is printed at. A number is printed
      through its `valueint`, which is the branch taken for every integer a number can hold exactly. */
  function Render(v: Json, format: bool, depth: nat): bytes
    decreases v, 1
  {
    match v
    case Null => NULL_TEXT
    case False => FALSE_TEXT
    case True => TRUE_TEXT
    case Number(x) => DecimalText(ValueInt(x))
    case Str(t) => Quoted(t)
    case Array(items) => [LEFT_BRACKET] + RenderItems(items, format, depth + 1) + [RIGHT_BRACKET]
    case Object(members) =>
      ObjectOpen(format) + RenderMembers(members, format, depth + 1) + ObjectClose(format, depth)
  }

  function ItemGap(format: bool): bytes {
    if format then [COMMA, SPACE] else [COMMA]
  }

  function RenderItems(items: seq<Json>, format: bool, depth: nat): bytes
    decreases items, 0
  {
    if items == [] then []
    else Render(items[0], format, depth) +
         (if |items| == 1 then [] else ItemGap(format) + RenderItems(items[1..], format, depth))
  }

  function ObjectOpen(format: bool): bytes {
    if format then [LEFT_BRACE, NEWLINE] else [LEFT_BRACE]
  }

  function ObjectClose(format: bool, depth: nat): bytes {
    (if format then Repeat(TAB, depth) else []) + [RIGHT_BRACE]
  }

  /** What stands before a member's value: indentation, key, colon. */
  function MemberHead(key: bytes, format: bool, depth: nat): bytes {
    (if format then Repeat(TAB, depth) else []) + Quoted(key) + (if format then [COLON, TAB] else [COLON])
  }

  /** What stands after a member's value. */
  function MemberTail(last: bool, format: bool): bytes {
    (if last then [] else [COMMA]) + (if format then [NEWLINE] else [])
  }

  function RenderMembers(members: seq<Member>, format: bool, depth: nat): bytes
    decreases members, 0
  {
    if members == [] then []
    else MemberHead(members[0].key, format, depth) + Render(members[0].value, format, depth) +
         MemberTail(|members| == 1, format) + RenderMembers(members[1..], format, depth)
  }

  // ----- the text of lists, one round at a time -----

  /** What one round over elements prints. */
  function ItemText(v: Json, last: bool, format: bool, depth: nat): bytes {
    Render(v, format, depth) + (if last then [] else ItemGap(format))
  }

  /** What one round over members prints. */
  function MemberText(m: Member, last: bool, format: bool, depth: nat): bytes {
    MemberHead(m.key, format, depth) + Render(m.value, format, depth) + MemberTail(last, format)
  }

  lemma ArrayFrame(items: seq<Json>, format: bool, depth: nat)
    ensures Render(Array(items), format, depth) ==
            [LEFT_BRACKET] + (RenderItems(items, format, depth + 1) + [RIGHT_BRACKET])
  {
    hide RenderItems;
  }

  /** The text of the elements from `i` on begins with that element's round. */
  lemma ItemsFrame(items: seq<Json>, i: nat, format: bool, depth: nat)
    requires i < |items|
    ensures RenderItems(items[i..], format, depth) ==
            ItemText(items[i], i + 1 == |items|, format, depth) + RenderItems(items[i + 1..], format, depth)
  {
    hide Render;
    assert items[i..][1..] == items[i + 1..];
  }

  lemma NoItems(items: seq<Json>, format: bool, depth: nat)
    requires items == []
    ensures RenderItems(items, format, depth) == []
  {
  }

  lemma MemberFrame(m: Member, last: bool, format: bool, depth: nat)
    ensures MemberText(m, last, format, depth) ==
            (if format then Repeat(TAB, depth) else []) +
            (Quoted(m.key) + ((if format then [COLON, TAB] else [COLON]) +
                              (Render(m.value, format, depth) + MemberTail(last, format))))
  {
    hide Render, Quoted, Repeat;
  }

  lemma ObjectFrame(members: seq<Member>, format: bool, depth: nat)
    ensures Render(Object(members), format, depth) ==
            ObjectOpen(format) + (RenderMembers(members, format, depth + 1) + ObjectClose(format, depth))
  {
    hide RenderMembers;
  }

  lemma MembersFrame(members: seq<Member>, i: nat, format: bool, depth: nat)
    requires i < |members|
    ensures RenderMembers(members[i..], format, depth) ==
            MemberText(members[i], i + 1 == |members|, format, depth) + RenderMembers(members[i + 1..], format, depth)
  {
    hide Render, MemberHead, MemberTail;
    assert members[i..][1..] == members[i + 1..];
  }

  lemma NoMembers(members: seq<Member>, format: bool, depth: nat)
    requires members == []
    ensures RenderMembers(members, format, depth) == []
  {
  }

  /** How elements are laid out: on one line, with a space behind the comma; an object in them is closed at its depth.
      */
  lemma ArrayExample()
    ensures Render(Array([Null, Object([])]), true, 1) ==
            [91] + ([110, 117, 108, 108] + [44, 32] + ([123, 10] + [] + ([9, 9] + [125]))) + [93]
    ensures Render(Array([Null, Object([])]), false, 1) ==
            [91] + ([110, 117, 108, 108] + [44] + ([123] + [] + ([] + [125]))) + [93]
  {
    TwoItems(Null, Object([]), true, 1);
    TwoItems(Null, Object([]), false, 1);
    assert Repeat(TAB, 2) == [9, 9];
    hide RenderItems, Repeat;
    NoMembers([], true, 3);
    NoMembers([], false, 3);
  }

  lemma TwoItems(v: Json, w: Json, format: bool, depth: nat)
    ensures Render(Array([v, w]), format, depth) ==
            [LEFT_BRACKET] + (Render(v, format, depth + 1) + ItemGap(format) + Render(w, format, depth + 1)) +
            [RIGHT_BRACKET]
  {
    hide ItemGap;
    var items := [v, w];
    ArrayFrame(items, format, depth);
    ItemsFrame(items, 0, format, depth + 1);
    ItemsFrame(items, 1, format, depth + 1);
    NoItems([], format, depth + 1);
    assert items[0..] == items && items[2..] == [];
  }

  /** How members are laid out: each on a line of its own, indented by its depth, a tab behind the colon. */
  lemma ObjectExample()
    ensures Render(Object([Member([97], Null), Member([98], True)]), true, 1) ==
            [123, 10] + ([9, 9] + [34, 97, 34] + [58, 9] + [110, 117, 108, 108] + ([44] + [10]) +
                         ([9, 9] + [34, 98, 34] + [58, 9] + [116, 114, 117, 101] + ([] + [10]))) + ([9] + [125])
    ensures Render(Object([Member([97], Null), Member([98], True)]), false, 1) ==
            [123] + ([] + [34, 97, 34] + [58] + [110, 117, 108, 108] + ([44] + []) +
                     ([] + [34, 98, 34] + [58] + [116, 114, 117, 101] + ([] + []))) + ([] + [125])
  {
    OneKey(97);
    OneKey(98);
    assert Repeat(TAB, 1) == [9] && Repeat(TAB, 2) == [9, 9];
    hide Quoted, Repeat, RenderMembers;
    TwoMembers(Member([97], Null), Member([98], True), true);
    TwoMembers(Member([97], Null), Member([98], True), false);
  }

  lemma TwoMembers(a: Member, b: Member, format: bool)
    ensures Render(Object([a, b]), format, 1) ==
            ObjectOpen(format) + (MemberText(a, false, format, 2) + MemberText(b, true, format, 2)) +
            ObjectClose(format, 1)
  {
    hide MemberText, ObjectOpen, ObjectClose, RenderMembers, MemberHead, MemberTail;
    ObjectFrame([a, b], format, 1);
    var members := [a, b];
    MembersFrame(members, 0, format, 2);
    MembersFrame(members, 1, format, 2);
    assert members[0..] == members && members[2..] == [];
    NoMembers([], format, 2);
  }

  lemma OneKey(b: byte)
    requires b > 92
    ensures Quoted([b]) == [34, b, 34]
  {
    assert Escape([b][1..]) == [];
    assert Escape([b]) == [b];
  }

  // ----- the bytes that occur in printed text -----

  /** How a printed value starts: never with a blank, nor with a byte that ends a list. */
  lemma RenderStarts(v: Json, format: bool, depth: nat)
    ensures var s := Render(v, format, depth);
            s != [] && SPACE < s[0] < 0x80 && s[0] != RIGHT_BRACKET
  {
  }

  predicate IsPrintable(s: bytes) {
    forall i :: 0 <= i < |s| ==> s[i] >= SPACE
  }

  lemma {:induction false} EscapeIsPrintable(s: bytes)
    ensures IsPrintable(Escape(s))
  {
    if s != [] {
      EscapeIsPrintable(s[1..]);
    }
  }

  /** What a byte of a text printed with `format` can be: printable, or a line break or tab. */
  predicate IsTextByte(b: byte, format: bool) {
    b >= SPACE || (format && (b == NEWLINE || b == TAB))
  }

  predicate AreTextBytes(s: bytes, format: bool) {
    forall i :: 0 <= i < |s| ==> IsTextByte(s[i], format)
  }

  lemma JoinTextBytes(a: bytes, b: bytes, c: bytes, format: bool)
    requires AreTextBytes(a, format) && AreTextBytes(b, format) && AreTextBytes(c, format)
    ensures AreTextBytes(a + b + c, format)
  {
  }

  /** Compact text has no byte below the space at all; formatted text only line breaks and tabs. */
  lemma {:induction false} RenderBytes(v: Json, format: bool, depth: nat)
    ensures AreTextBytes(Render(v, format, depth), format)
    decreases v, 1
  {
    match v
    case Str(t) =>
      hide Escape;
      EscapeIsPrintable(t);
    case Array(items) =>
      RenderItemsBytes(items, format, depth + 1);
    case Object(members) =>
      RenderMembersBytes(members, format, depth + 1);
      JoinTextBytes(ObjectOpen(format), RenderMembers(members, format, depth + 1), ObjectClose(format, depth), format);
    case Number(x) =>
    case _ =>
      assert Render(v, format, depth) in [NULL_TEXT, FALSE_TEXT, TRUE_TEXT];
  }

  lemma {:induction false} RenderItemsBytes(items: seq<Json>, format: bool, depth: nat)
    ensures AreTextBytes(RenderItems(items, format, depth), format)
    decreases items, 0
  {
    if items != [] {
      RenderBytes(items[0], format, depth);
      RenderItemsBytes(items[1..], format, depth);
    }
  }

  lemma {:induction false} RenderMembersBytes(members: seq<Member>, format: bool, depth: nat)
    ensures AreTextBytes(RenderMembers(members, format, depth), format)
    decreases members, 0
  {
    hide Escape, Render;
    if members != [] {
      EscapeIsPrintable(members[0].key);
      RenderBytes(members[0].value, format, depth);
      RenderMembersBytes(members[1..], format, depth);
    }
  }
}
