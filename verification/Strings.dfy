/** String literals: finding the closing quote, decoding the escapes, and what RFC 8259 says they mean. */
module Strings {
  import opened Bytes
  import opened Json
  import opened Utf
  import opened Wrappers

  /** How far the closing quote is, given what follows the opening one. A backslash hides the byte
      after it, and must have one. */
  function Scan(s: bytes): (r: Option<nat>)
    ensures r.Some? ==> r.value < |s| && s[r.value] == QUOTE
  {
    if s == [] then None
    else if s[0] == QUOTE then Some(0)
    else if s[0] == BACKSLASH then
      if |s| < 2 then None else Shift(2, Scan(s[2..]))
    else Shift(1, Scan(s[1..]))
  }

  function Shift(k: nat, r: Option<nat>): Option<nat> {
    match r
    case None => None
    case Some(n) => Some(n + k)
  }

  /** What the first scan hands to the decoder: no bare quote, no backslash without a successor. */
  predicate Closed(p: bytes) {
    p == [] || (p[0] != QUOTE &&
                if p[0] == BACKSLASH then |p| >= 2 && Closed(p[2..]) else Closed(p[1..]))
  }

  lemma EmptyIsClosed(p: bytes)
    requires p == []
    ensures Closed(p)
  {
  }

  lemma {:induction false} ScanFindsClosed(p: bytes, t: bytes)
    requires Closed(p)
    ensures Scan(p + [QUOTE] + t) == Some(|p|)
  {
    var s := p + [QUOTE] + t;
    if p != [] {
      var k := if p[0] == BACKSLASH then 2 else 1;
      assert s[k..] == p[k..] + [QUOTE] + t;
      ScanFindsClosed(p[k..], t);
    }
  }

  lemma {:induction false} ScanGivesClosed(s: bytes)
    requires Scan(s).Some?
    ensures Closed(s[..Scan(s).value])
  {
    if s[0] != QUOTE {
      var k := if s[0] == BACKSLASH then 2 else 1;
      ScanGivesClosed(s[k..]);
      var p := s[..Scan(s).value];
      assert p[k..] == s[k..][..Scan(s[k..]).value];
    }
  }

  /** The escapes of one letter: `\b \f \n \r \t`, and quote, backslash and slash for themselves. */
  function Short(c: byte): (r: Option<byte>) {
    if c == 98 then Some(BACKSPACE)
    else if c == 102 then Some(FORM_FEED)
    else if c == 110 then Some(NEWLINE)
    else if c == 114 then Some(RETURN)
    else if c == 116 then Some(TAB)
    else if c == QUOTE || c == BACKSLASH || c == SLASH then Some(c)
    else None
  }

  /** The letters and what they stand for: section 7 of RFC 8259. */
  lemma Letters()
    ensures Short(34) == Some(34) && Short(92) == Some(92) && Short(47) == Some(47) && Short(98) == Some(8)
    ensures Short(102) == Some(12) && Short(110) == Some(10) && Short(114) == Some(13) && Short(116) == Some(9)
    ensures forall c: byte :: Short(c).Some? ==> c in [34, 92, 47, 98, 102, 110, 114, 116]
  {
  }

  /** One round of the decoding loop at the front of `p`: bytes taken and bytes written. A backslash
      that is the last byte is followed, in the buffer, by the closing quote; the round then takes
      one byte more than the literal has. */
  function DecodeStep(p: bytes): (r: Option<(nat, bytes)>)
    requires p != []
    ensures r.Some? ==> 1 <= r.value.0 <= |p| + 1 && 1 <= |r.value.1| <= 4
  {
    if p[0] != BACKSLASH then Some((1, [p[0]]))
    else
      var c := if |p| == 1 then QUOTE else p[1];
      if c == LETTER_U then
        match Utf16Literal(p)
        case None => None
        case Some((k, n)) => Some((k, Utf8(n)))
      else
        match Short(c)
        case None => None
        case Some(b) => Some((2, [b]))
  }

  /** The decoding loop. */
  function Decode(p: bytes): Option<bytes>
    decreases |p|
  {
    if p == [] then Some([])
    else
      match DecodeStep(p)
      case None => None
      case Some((k, out)) =>
        match Decode(Drop(p, k))
        case None => None
        case Some(rest) => Some(out + rest)
  }

  // ----- the size computed by the first scan -----

  /** How many backslash pairs the first scan starts before position `n`. */
  function SkipsBefore(p: bytes, n: nat): nat
    requires n <= |p|
    decreases |p|
  {
    if n == 0 then 0
    else if p[0] == BACKSLASH then
      if |p| < 2 then 0 else 1 + SkipsBefore(p[2..], if n >= 2 then n - 2 else 0)
    else SkipsBefore(p[1..], n - 1)
  }

  /** `skipped_bytes` at the end of the first scan. */
  function Skipped(p: bytes): nat {
    SkipsBefore(p, |p|)
  }

  /** `allocation_length + sizeof("")` for a literal. */
  function OutputSize(p: bytes): (size: int) {
    |p| + 1 - Skipped(p) + 1
  }

  lemma {:induction false} SkipsByOne(p: bytes, n: nat)
    requires n < |p|
    ensures SkipsBefore(p, n) <= SkipsBefore(p, n + 1) <= SkipsBefore(p, n) + 1
    ensures p[n] != BACKSLASH || (n + 1 == |p| && Closed(p)) ==> SkipsBefore(p, n + 1) == SkipsBefore(p, n)
    decreases |p|
  {
    if p[0] == BACKSLASH {
      if n >= 2 { SkipsByOne(p[2..], n - 2); }
    } else if n >= 1 {
      SkipsByOne(p[1..], n - 1);
    }
  }

  lemma {:induction false} SkipsByTwo(p: bytes, n: nat)
    requires n + 2 <= |p|
    ensures SkipsBefore(p, n) <= SkipsBefore(p, n + 2) <= SkipsBefore(p, n) + 1
    decreases |p|
  {
    if p[0] == BACKSLASH {
      if n >= 2 {
        SkipsByTwo(p[2..], n - 2);
      } else if n == 1 {
        SkipsByOne(p[2..], 0);
      }
    } else if n >= 1 {
      SkipsByTwo(p[1..], n - 1);
    } else {
      SkipsByOne(p[1..], 0);
    }
  }

  /** A round never writes more than the first scan has reserved for the bytes it takes, in step
      with that scan or not. */
  lemma StepFits(p: bytes, n: nat)
    requires Closed(p) && n < |p|
    requires DecodeStep(p[n..]).Some?
    ensures var (k, out) := DecodeStep(p[n..]).value;
            var m := Min(n + k, |p|);
            |out| + n - SkipsBefore(p, n) <= m - SkipsBefore(p, m)
  {
    var (k, out) := DecodeStep(p[n..]).value;
    SkipsByOne(p, n);
    if k == 2 && n + 2 <= |p| {
      SkipsByTwo(p, n);
    } else if k >= 6 {
      SkipsByTwo(p, n);
      SkipsByTwo(p, n + 2);
      SkipsByTwo(p, n + 4);
      if k == 12 {
        SkipsByTwo(p, n + 6);
        SkipsByTwo(p, n + 8);
        SkipsByTwo(p, n + 10);
      }
    }
  }

  lemma DropOfSuffix(p: bytes, n: nat, k: nat)
    requires n < |p| && k > 0
    ensures Drop(p[n..], k) == p[Min(n + k, |p|)..] && n < Min(n + k, |p|) <= |p|
  {
  }

  lemma DecodeOnce(p: bytes)
    requires p != [] && Decode(p).Some?
    ensures DecodeStep(p).Some? && Decode(Drop(p, DecodeStep(p).value.0)).Some?
    ensures |Decode(p).value| == |DecodeStep(p).value.1| + |Decode(Drop(p, DecodeStep(p).value.0)).value|
  {
  }

  lemma DecodeOfNothing()
    ensures Decode([]) == Some([])
  {
  }

  /** For every literal, well-formed or not, the decoded bytes and the terminator fit the buffer. */
  lemma {:induction false} DecodeFitsFrom(p: bytes, n: nat)
    requires Closed(p) && n <= |p|
    requires Decode(p[n..]).Some?
    ensures |Decode(p[n..]).value| + n - SkipsBefore(p, n) <= |p| - Skipped(p)
    decreases |p| - n
  {
    hide Decode, DecodeStep, SkipsBefore, Closed, Drop, Min;
    if n < |p| {
      DecodeOnce(p[n..]);
      StepFits(p, n);
      var k := DecodeStep(p[n..]).value.0;
      DropOfSuffix(p, n, k);
      DecodeFitsFrom(p, Min(n + k, |p|));
    } else {
      assert p[n..] == [];
      DecodeOfNothing();
    }
  }

  lemma DecodeFits(p: bytes)
    requires Closed(p)
    ensures Decode(p).Some? ==> |Decode(p).value| + 1 <= OutputSize(p)
  {
    if Decode(p).Some? {
      assert p[0..] == p;
      DecodeFitsFrom(p, 0);
    }
  }

  // ----- what the standards say a literal means -----

  /** The pieces a literal is cut into. A well-formed one has the first four: a plain byte may be anything but a quote
      or a backslash (control characters are let through unescaped, which section 7 of RFC 8259 does not ask for).
      `Lone` is a surrogate without its other half, which the RFC lets through and the code refuses. The last two are
      what the code reads beyond the RFC: a `\u` without four digits, and a last backslash that takes the closing
      quote with it. */
  datatype Piece =
    | Plain(b: byte)
    | Letter(c: byte)
    | Basic(hex: bytes)
    | Pair(high: bytes, low: bytes)
    | Lone(hex: bytes)
    | BadHex(four: bytes)
    | Last

  predicate IsPiece(e: Piece) {
    match e
    case Plain(b) => b != QUOTE && b != BACKSLASH
    case Letter(c) => Short(c).Some?
    case Basic(h) => IsHex4(h) && IsScalar(HexNumber(h))
    case Pair(h, l) => IsHex4(h) && IsHex4(l) && IsHighSurrogate(HexNumber(h)) && IsLowSurrogate(HexNumber(l))
    case _ => false
  }

  /** What the decoder can find in a literal. It takes a quote that a bad `\u` has uncovered as it is. */
  predicate IsToken(e: Piece) {
    || IsPiece(e)
    || e.Last?
    || e == Plain(QUOTE)
    || (e.Lone? && IsHex4(e.hex) && !IsScalar(HexNumber(e.hex)))
    || (e.BadHex? && |e.four| == 4 && !IsHex4(e.four))
  }

  function PieceText(e: Piece): bytes {
    match e
    case Plain(b) => [b]
    case Letter(c) => [BACKSLASH, c]
    case Basic(h) => [BACKSLASH, LETTER_U] + h
    case Pair(h, l) => [BACKSLASH, LETTER_U] + h + ([BACKSLASH, LETTER_U] + l)
    case Lone(h) => [BACKSLASH, LETTER_U] + h
    case BadHex(four) => [BACKSLASH, LETTER_U] + four
    case Last => [BACKSLASH]
  }

  /** UTF-8 of the character a piece stands for; of a lone surrogate, the three bytes its number comes to; nothing for
      what is no piece at all. */
  function PieceMeaning(e: Piece): bytes {
    if !IsToken(e) then []
    else
      match e
      case Plain(b) => [b]
      case Letter(c) => [Short(c).value]
      case Basic(h) => Utf8(HexNumber(h))
      case Pair(h, l) => Utf8(SurrogateValue(HexNumber(h), HexNumber(l)))
      case Lone(h) => Utf8(HexNumber(h))
      case BadHex(_) => [NUL]
      case Last => [QUOTE]
  }

  predicate ArePieces(es: seq<Piece>) {
    forall i :: 0 <= i < |es| ==> IsPiece(es[i])
  }

  predicate AreTokens(es: seq<Piece>) {
    forall i :: 0 <= i < |es| ==> IsToken(es[i])
  }

  /** No surrogate stands alone. */
  predicate Paired(es: seq<Piece>) {
    forall i :: 0 <= i < |es| ==> !es[i].Lone?
  }

  predicate IsHigh(e: Piece) {
    e.Lone? && IsHex4(e.hex) && IsHighSurrogate(HexNumber(e.hex))
  }

  predicate IsLow(e: Piece) {
    e.Lone? && IsHex4(e.hex) && IsLowSurrogate(HexNumber(e.hex))
  }

  /** A high surrogate with a low one behind it is a pair and not two pieces; nothing is behind the last backslash. */
  predicate InOrder(es: seq<Piece>) {
    |es| < 2 || (MayFollow(es[0], es[1]) && InOrder(es[1..]))
  }

  predicate MayFollow(e: Piece, next: Piece) {
    !e.Last? && !(IsHigh(e) && IsLow(next))
  }

  lemma {:induction false} InOrderMeans(es: seq<Piece>)
    ensures InOrder(es) <==> forall i :: 0 < i < |es| ==> MayFollow(es[i - 1], es[i])
  {
    hide MayFollow;
    if |es| >= 2 {
      var rest := es[1..];
      InOrderMeans(rest);
      forall i | 0 < i < |rest|
        ensures MayFollow(rest[i - 1], rest[i]) == MayFollow(es[i], es[i + 1])
      {
      }
      if forall i :: 0 < i < |rest| ==> MayFollow(rest[i - 1], rest[i]) {
        forall i | 1 < i < |es|
          ensures MayFollow(es[i - 1], es[i])
        {
          assert MayFollow(rest[i - 2], rest[i - 1]);
        }
      }
    }
  }

  function Text(es: seq<Piece>): bytes {
    if es == [] then [] else PieceText(es[0]) + Text(es[1..])
  }

  function Meaning(es: seq<Piece>): bytes {
    if es == [] then [] else PieceMeaning(es[0]) + Meaning(es[1..])
  }

  /** Bytes the decoder takes for a piece: the closing quote too, behind a last backslash. */
  function Taken(e: Piece): nat {
    if e.Last? then 2 else |PieceText(e)|
  }

  lemma StepOnPiece(e: Piece, t: bytes)
    requires IsToken(e) && !e.Lone? && (e.Last? ==> t == [])
    ensures DecodeStep(PieceText(e) + t) == Some((Taken(e), PieceMeaning(e)))
  {
    hide Utf8, HexNumber, SurrogateValue, Utf16Literal, IsHexDigit;
    var p := PieceText(e) + t;
    match e
    case Basic(h) =>
      assert p[2..6] == h;
      LiteralReads(p);
    case Pair(h, l) =>
      assert p[2..6] == h;
      assert p[8..12] == l;
      LiteralReads(p);
    case BadHex(four) =>
      assert p[2..6] == four;
      LiteralReads(p);
      EncodedNul();
    case _ =>
  }

  lemma EncodedNul()
    ensures Utf8(0) == [NUL]
  {
  }

  /** A surrogate without its other half cannot be read, whatever comes next. */
  lemma StepOnLone(es: seq<Piece>)
    requires es != [] && AreTokens(es) && InOrder(es) && es[0].Lone?
    ensures DecodeStep(Text(es)) == None
  {
    hide HexNumber;
    var p, h := Text(es), es[0].hex;
    assert p[2..6] == h;
    LiteralReads(p);
    if IsHigh(es[0]) && |es| > 1 {
      var u := Text(es[1..]);
      assert p == [BACKSLASH, LETTER_U] + h + u;
      NoLowSurrogate(es[1], Text(es[1..][1..]));
      assert es[1..][0] == es[1] && u == PieceText(es[1]) + Text(es[1..][1..]);
      if |p| >= 12 {
        assert p[6] == u[0] && p[7] == u[1] && p[8..12] == u[2..6];
      }
    }
  }

  lemma NoLowSurrogate(e: Piece, t: bytes)
    requires IsToken(e) && !IsLow(e)
    ensures var p := PieceText(e) + t;
            |p| >= 6 && p[0] == BACKSLASH && p[1] == LETTER_U && IsHex4(p[2..6]) ==>
              e.Last? || !IsLowSurrogate(HexNumber(p[2..6]))
  {
  }

  /** Whatever the pieces, well-formed or not: the literal decodes to what they mean, unless a surrogate stands alone.
      */
  lemma {:induction false} DecodeReads(es: seq<Piece>)
    requires AreTokens(es) && InOrder(es)
    ensures Decode(Text(es)) == if Paired(es) then Some(Meaning(es)) else None
  {
    hide IsToken, PieceText, PieceMeaning, DecodeStep, IsHigh, IsLow;
    if es != [] {
      var p, rest := Text(es), es[1..];
      PieceIsThere(es[0]);
      if es[0].Lone? {
        StepOnLone(es);
      } else {
        DecodeReads(rest);
        StepOnPiece(es[0], Text(rest));
        DropTaken(es[0], Text(rest));
        assert Paired(es) <==> Paired(rest) by {
          assert forall i :: 0 <= i < |rest| ==> rest[i] == es[i + 1];
        }
      }
    }
  }

  /** How many backslashes a piece has that start an escape. */
  function Escapes(e: Piece): nat {
    if e.Plain? then 0 else if e.Pair? then 2 else 1
  }

  function AllEscapes(es: seq<Piece>): nat {
    if es == [] then 0 else Escapes(es[0]) + AllEscapes(es[1..])
  }

  /** On a well-formed literal the first scan counts one byte for each escape, so the size it computes is exactly that
      much less than the literal. */
  lemma {:induction false} SkippedOfPieces(es: seq<Piece>)
    requires ArePieces(es)
    ensures Skipped(Text(es)) == AllEscapes(es) && OutputSize(Text(es)) == |Text(es)| + 2 - AllEscapes(es)
  {
    hide IsPiece, PieceText;
    if es != [] {
      SkippedOfPieces(es[1..]);
      SkippedOfPiece(es[0], Text(es[1..]));
    }
  }

  lemma SkippedOfPiece(e: Piece, t: bytes)
    requires IsPiece(e)
    ensures Skipped(PieceText(e) + t) == Escapes(e) + Skipped(t)
  {
    hide HexNumber;
    var p := PieceText(e) + t;
    match e
    case Plain(_) =>
      assert p[1..] == t;
    case Letter(_) =>
      assert p[2..] == t;
    case Basic(h) =>
      SkippedEscape(h, t);
    case Pair(h, l) =>
      SkippedEscape(l, t);
      SkippedEscape(h, [BACKSLASH, LETTER_U] + l + t);
      assert p == [BACKSLASH, LETTER_U] + h + ([BACKSLASH, LETTER_U] + l + t);
  }

  lemma SkippedEscape(h: bytes, t: bytes)
    requires IsHex4(h)
    ensures Skipped([BACKSLASH, LETTER_U] + h + t) == 1 + Skipped(t)
  {
    var p := [BACKSLASH, LETTER_U] + h + t;
    assert p[2..] == h + t && (h + t)[4..] == t;
    SkippedPlain(h + t, 4);
  }

  lemma {:induction false} SkippedPlain(p: bytes, k: nat)
    requires k <= |p| && forall i :: 0 <= i < k ==> p[i] != BACKSLASH
    ensures Skipped(p) == Skipped(p[k..])
  {
    if k > 0 {
      SkippedPlain(p[1..], k - 1);
      assert p[1..][k - 1..] == p[k..];
    } else {
      assert p[0..] == p;
    }
  }

  lemma PieceIsThere(e: Piece)
    ensures PieceText(e) != []
  {
  }

  lemma DropTaken(e: Piece, t: bytes)
    requires e.Last? ==> t == []
    ensures Drop(PieceText(e) + t, Taken(e)) == t
  {
  }

  /** Every well-formed literal decodes to what its pieces mean. */
  lemma DecodeWellFormed(es: seq<Piece>)
    requires ArePieces(es)
    ensures Decode(Text(es)) == Some(Meaning(es))
  {
    hide Decode;
    PiecesAreInOrder(es);
    DecodeReads(es);
  }

  lemma {:induction false} PiecesAreInOrder(es: seq<Piece>)
    requires ArePieces(es)
    ensures AreTokens(es) && InOrder(es) && Paired(es)
  {
    if es != [] {
      PiecesAreInOrder(es[1..]);
    }
  }

  /** The decoding loop meets a `\u` that four hexadecimal digits do not follow. */
  predicate MeetsBadHex(p: bytes)
    decreases |p|
  {
    p != [] &&
    ((|p| >= 6 && p[0] == BACKSLASH && p[1] == LETTER_U && !IsHex4(p[2..6])) ||
     (DecodeStep(p).Some? && MeetsBadHex(Drop(p, DecodeStep(p).value.0))))
  }

  lemma {:induction false} ClosedPlain(p: bytes, k: nat)
    requires k <= |p| && forall i :: 0 <= i < k ==> p[i] != QUOTE && p[i] != BACKSLASH
    ensures Closed(p) <==> Closed(p[k..])
  {
    if k > 0 {
      ClosedPlain(p[1..], k - 1);
      assert p[1..][k - 1..] == p[k..];
    } else {
      assert p[0..] == p;
    }
  }

  lemma ClosedAfterHex(p: bytes)
    requires Closed(p) && |p| >= 6 && p[0] == BACKSLASH && p[1] == LETTER_U && IsHex4(p[2..6])
    ensures Closed(p[6..])
  {
    var q := p[2..];
    assert forall i :: 0 <= i < 4 ==> q[i] == p[2..6][i];
    assert IsHexDigit(p[2..6][0]) && IsHexDigit(p[2..6][1]) && IsHexDigit(p[2..6][2]) && IsHexDigit(p[2..6][3]);
    ClosedPlain(q, 4);
    assert q[4..] == p[6..];
  }

  lemma BasicIsPiece(p: bytes) returns (e: Piece)
    requires |p| >= 6 && p[0] == BACKSLASH && p[1] == LETTER_U && IsHex4(p[2..6])
    requires Utf16Literal(p).Some? && Utf16Literal(p).value.0 == 6
    ensures IsPiece(e) && PieceText(e) == p[..6] && PieceMeaning(e) == Utf8(Utf16Literal(p).value.1)
  {
    e := Basic(p[2..6]);
  }

  lemma PairIsPiece(p: bytes) returns (e: Piece)
    requires |p| >= 12 && p[0] == BACKSLASH && p[1] == LETTER_U && IsHex4(p[2..6])
    requires Utf16Literal(p).Some? && Utf16Literal(p).value.0 == 12
    ensures IsPiece(e) && PieceText(e) == p[..12] && PieceMeaning(e) == Utf8(Utf16Literal(p).value.1)
    ensures p[6] == BACKSLASH && p[7] == LETTER_U && IsHex4(p[8..12])
  {
    hide Utf8;
    PairValue(p);
    hide Utf16Literal, HexNumber, SurrogateValue;
    e := Pair(p[2..6], p[8..12]);
    assert p[..12] == [BACKSLASH, LETTER_U] + p[2..6] + ([BACKSLASH, LETTER_U] + p[8..12]);
  }

  /** What two escapes are read as when they form a pair. */
  lemma PairValue(p: bytes)
    requires |p| >= 12 && IsHex4(p[2..6]) && Utf16Literal(p).Some? && Utf16Literal(p).value.0 == 12
    ensures p[6] == BACKSLASH && p[7] == LETTER_U && IsHex4(p[8..12])
    ensures IsHighSurrogate(HexNumber(p[2..6])) && IsLowSurrogate(HexNumber(p[8..12]))
    ensures Utf16Literal(p).value.1 == SurrogateValue(HexNumber(p[2..6]), HexNumber(p[8..12]))
  {
    var high, low := Hex4(p[2..6]), Hex4(p[8..12]);
    hide HexNumber;
    hide SurrogateValue;
    PairArithmetic(high, low);
  }

  /** The piece at the front of a literal whose decoding meets only good digits. */
  lemma StepIsPiece(p: bytes) returns (e: Piece)
    requires p != [] && Closed(p) && DecodeStep(p).Some? && !MeetsBadHex(p)
    ensures IsPiece(e) && DecodeStep(p).value.0 <= |p| && PieceText(e) == p[..DecodeStep(p).value.0]
    ensures PieceMeaning(e) == DecodeStep(p).value.1
    ensures Closed(p[DecodeStep(p).value.0..])
  {
    if p[0] != BACKSLASH {
      e := Plain(p[0]);
    } else if p[1] != LETTER_U {
      e := Letter(p[1]);
    } else {
      ClosedAfterHex(p);
      if Utf16Literal(p).value.0 == 6 {
        e := BasicIsPiece(p);
      } else {
        e := PairIsPiece(p);
        var q := p[6..];
        assert q[2..6] == p[8..12];
        ClosedAfterHex(q);
        assert q[6..] == p[12..];
      }
    }
  }

  lemma DropIs(p: bytes, k: nat)
    requires k <= |p|
    ensures Drop(p, k) == p[k..] && p == p[..k] + p[k..]
  {
  }

  lemma DecodeUnfold(p: bytes)
    requires p != [] && Decode(p).Some? && !MeetsBadHex(p)
    ensures DecodeStep(p).Some?
    ensures var (k, out) := DecodeStep(p).value;
            !MeetsBadHex(Drop(p, k)) && Decode(Drop(p, k)).Some? && Decode(p).value == out + Decode(Drop(p, k)).value
  {
  }

  lemma ConsPieces(e: Piece, es: seq<Piece>)
    requires IsPiece(e) && ArePieces(es)
    ensures ArePieces([e] + es)
    ensures Text([e] + es) == PieceText(e) + Text(es)
    ensures Meaning([e] + es) == PieceMeaning(e) + Meaning(es)
  {
    assert ([e] + es)[1..] == es;
  }

  /** Conversely, a literal whose decoding meets only good digits is accepted only if it is
      well-formed, and then with the standard meaning. */
  lemma {:induction false} DecodeOnlyWellFormed(p: bytes, out: bytes) returns (es: seq<Piece>)
    requires Closed(p) && !MeetsBadHex(p) && Decode(p) == Some(out)
    ensures ArePieces(es) && Text(es) == p && Meaning(es) == out
    decreases |p|
  {
    if p == [] {
      es := [];
    } else {
      hide Decode, DecodeStep, PieceText, PieceMeaning, Closed, MeetsBadHex, IsPiece, ArePieces, Text, Meaning, Drop;
      DecodeUnfold(p);
      var e := StepIsPiece(p);
      var k := DecodeStep(p).value.0;
      var q := p[k..];
      DropIs(p, k);
      var rest := DecodeOnlyWellFormed(q, Decode(q).value);
      ConsPieces(e, rest);
      es := [e] + rest;
    }
  }

  lemma ConsTokens(e: Piece, es: seq<Piece>)
    requires IsToken(e) && !e.Lone? && AreTokens(es) && InOrder(es) && Paired(es) && (e.Last? ==> es == [])
    ensures AreTokens([e] + es) && InOrder([e] + es) && Paired([e] + es)
    ensures Text([e] + es) == PieceText(e) + Text(es)
    ensures Meaning([e] + es) == PieceMeaning(e) + Meaning(es)
  {
    hide IsToken, PieceText, PieceMeaning;
    assert ([e] + es)[1..] == es;
  }

  /** The piece in front of any text of which the decoder takes something. */
  lemma StepIsToken(p: bytes) returns (e: Piece)
    requires p != [] && DecodeStep(p).Some?
    ensures IsToken(e) && !e.Lone? && DecodeStep(p).value == (Taken(e), PieceMeaning(e))
    ensures p == PieceText(e) + Drop(p, Taken(e)) && (e.Last? ==> Drop(p, Taken(e)) == [])
  {
    hide Utf8, HexNumber, SurrogateValue;
    if p[0] != BACKSLASH {
      e := Plain(p[0]);
    } else if |p| == 1 {
      e := Last;
    } else if p[1] != LETTER_U {
      e := Letter(p[1]);
    } else if !IsHex4(p[2..6]) {
      e := BadHex(p[2..6]);
      EncodedNul();
    } else if Utf16Literal(p).value.0 == 6 {
      e := BasicIsPiece(p);
      assert p[..6][1] == LETTER_U;
    } else {
      e := PairIsPiece(p);
    }
  }

  lemma NoText(es: seq<Piece>)
    ensures Text(es) == [] ==> es == []
  {
    if es != [] {
      PieceIsThere(es[0]);
    }
  }

  /** Conversely, whatever is decoded at all is cut into such pieces, and decoded to what they mean. */
  lemma {:induction false} DecodeOnlyReads(p: bytes) returns (es: seq<Piece>)
    requires Decode(p).Some?
    ensures AreTokens(es) && InOrder(es) && Paired(es) && Text(es) == p && Meaning(es) == Decode(p).value
    decreases |p|
  {
    hide DecodeStep, IsToken, PieceText, PieceMeaning, Taken;
    if p == [] {
      es := [];
    } else {
      var e := StepIsToken(p);
      var rest := DecodeOnlyReads(Drop(p, DecodeStep(p).value.0));
      NoText(rest);
      ConsTokens(e, rest);
      es := [e] + rest;
    }
  }

  /** No well-formed literal meets bad digits. */
  lemma {:induction false} WellFormedMeetsNoBadHex(es: seq<Piece>)
    requires ArePieces(es)
    ensures !MeetsBadHex(Text(es))
  {
    if es != [] {
      WellFormedMeetsNoBadHex(es[1..]);
      var t := Text(es[1..]);
      var p := PieceText(es[0]) + t;
      StepOnPiece(es[0], t);
      PieceIsGoodHex(es[0], t);
      hide DecodeStep, PieceMeaning, PieceText, IsPiece, IsHex4;
      assert Drop(p, |PieceText(es[0])|) == t;
    }
  }

  lemma PieceIsGoodHex(e: Piece, t: bytes)
    requires IsPiece(e)
    ensures var p := PieceText(e) + t;
            |p| >= 6 && p[0] == BACKSLASH && p[1] == LETTER_U ==> IsHex4(p[2..6])
  {
    hide HexNumber;
    var p := PieceText(e) + t;
    if e.Basic? { assert p[2..6] == e.hex; }
    if e.Pair? { assert p[2..6] == e.high; }
  }

  ghost predicate WellFormed(p: bytes) {
    exists es :: ArePieces(es) && Text(es) == p
  }

  /** The exact condition: a literal is accepted without being well-formed if and only if it decodes
      and meets a `\u` without its four digits. */
  lemma AcceptsMalformed(p: bytes)
    requires Closed(p)
    ensures Decode(p).Some? && !WellFormed(p) <==> Decode(p).Some? && MeetsBadHex(p)
    ensures WellFormed(p) ==> Decode(p).Some?
  {
    if WellFormed(p) {
      var es :| ArePieces(es) && Text(es) == p;
      DecodeWellFormed(es);
      WellFormedMeetsNoBadHex(es);
    } else if Decode(p).Some? && !MeetsBadHex(p) {
      var es := DecodeOnlyWellFormed(p, Decode(p).value);
    }
  }

  /** One such literal, `\uzzzz`, reads as a NUL. */
  lemma MalformedExample()
    ensures var p := [BACKSLASH, LETTER_U, 122, 122, 122, 122];
            Closed(p) && !WellFormed(p) && Decode(p) == Some([NUL])
  {
    var p := [BACKSLASH, LETTER_U, 122, 122, 122, 122];
    ClosedPlain(p[2..], 4);
    assert p[2..][4..] == [];
    assert p[2..6] == [122, 122, 122, 122];
    assert Drop(p, 6) == [];
    assert DecodeStep(p) == Some((6, [NUL]));
    var none: bytes := [];
    assert Decode(p) == Some([NUL] + none);
    assert [NUL] + none == [NUL];
    AcceptsMalformed(p);
  }

  // ----- escaping and decoding -----

  lemma EscapeByteIsPiece(b: byte) returns (e: Piece)
    ensures IsPiece(e) && PieceText(e) == EscapeByte(b) && PieceMeaning(e) == [b] && (e.Plain? ==> b >= SPACE)
  {
    if b > 31 && b != QUOTE && b != BACKSLASH {
      e := Plain(b);
    } else if |EscapeByte(b)| == 2 {
      e := Letter(EscapeByte(b)[1]);
    } else {
      ControlDigits(b);
      hide HexNumber, HexDigit, Utf8;
      e := Basic(EscapeByte(b)[2..6]);
      assert e.hex == [DIGIT_0, DIGIT_0, HexDigit(b / 16), HexDigit(b % 16)];
      assert EscapeByte(b) == [BACKSLASH, LETTER_U] + e.hex;
    }
  }

  lemma ControlDigits(b: byte)
    requires b < 32
    ensures var h := [DIGIT_0, DIGIT_0, HexDigit(b / 16), HexDigit(b % 16)];
            IsHex4(h) && HexNumber(h) == b && Utf8(HexNumber(h)) == [b]
  {
    var h := [DIGIT_0, DIGIT_0, HexDigit(b / 16), HexDigit(b % 16)];
    assert HexNumber(h) == b / 16 * 16 + b % 16;
  }

  /** Escaping writes a well-formed literal that means the bytes it was given. */
  lemma {:induction false} EscapeIsWellFormed(s: bytes) returns (es: seq<Piece>)
    ensures ArePieces(es) && Text(es) == Escape(s) && Meaning(es) == s
    ensures forall i :: 0 <= i < |es| && es[i].Plain? ==> es[i].b >= SPACE
  {
    if s == [] {
      es := [];
    } else {
      var e := EscapeByteIsPiece(s[0]);
      var rest := EscapeIsWellFormed(s[1..]);
      es := [e] + rest;
      assert es[1..] == rest;
    }
  }

  lemma EscapeRoundTrip(s: bytes)
    ensures Decode(Escape(s)) == Some(s)
  {
    var es := EscapeIsWellFormed(s);
    DecodeWellFormed(es);
  }

  lemma {:induction false} EscapeIsClosed(s: bytes)
    ensures Closed(Escape(s))
  {
    if s != [] {
      EscapeIsClosed(s[1..]);
      var e := EscapeByte(s[0]);
      var p := Escape(s);
      if |e| == 1 {
        assert p[1..] == Escape(s[1..]);
      } else if |e| == 2 {
        assert p[2..] == Escape(s[1..]);
      } else {
        ClosedPlain(p[2..], 4);
        assert p[2..][4..] == Escape(s[1..]);
      }
    }
  }
}
