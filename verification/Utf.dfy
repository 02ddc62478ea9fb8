/** `\uXXXX` escapes: UTF-16 code units in, UTF-8 bytes out. */
module Utf {
  import opened Bytes
  import opened Wrappers

  const LETTER_U: byte := 117

  predicate IsHexDigit(b: byte) {
    48 <= b <= 57 || 65 <= b <= 70 || 97 <= b <= 102
  }

  function HexDigitValue(b: byte): (n: nat)
    requires IsHexDigit(b)
    ensures n < 16
  {
    if b <= 57 then b - 48 else if b <= 70 then b - 55 else b - 87
  }

  predicate IsHex4(s: bytes) {
    |s| == 4 && IsHexDigit(s[0]) && IsHexDigit(s[1]) && IsHexDigit(s[2]) && IsHexDigit(s[3])
  }

  /** What `parse_hex4` makes of four bytes. */
  function Hex4(s: bytes): (n: nat)
    requires |s| == 4
    ensures n <= 0xFFFF
    ensures n == if IsHex4(s) then Nibbles(s) else 0
  {
    if IsHex4(s) then
      FourNibbles(s);
      HexNumber(s)
    else 0
  }

  /** `0123456789abcdef` and `0123456789ABCDEF`. */
  const LOWER_HEX: bytes := [48, 49, 50, 51, 52, 53, 54, 55, 56, 57, 97, 98, 99, 100, 101, 102]
  const UPPER_HEX: bytes := [48, 49, 50, 51, 52, 53, 54, 55, 56, 57, 65, 66, 67, 68, 69, 70]

  /** The hexadecimal digits are these, and each counts as its place among them. */
  lemma HexDigits(b: byte)
    ensures IsHexDigit(b) <==> b in LOWER_HEX || b in UPPER_HEX
    ensures IsHexDigit(b) ==> LOWER_HEX[HexDigitValue(b)] == b || UPPER_HEX[HexDigitValue(b)] == b
    ensures forall n: nat :: n < 16 && (LOWER_HEX[n] == b || UPPER_HEX[n] == b) ==>
              IsHexDigit(b) && n == HexDigitValue(b)
  {
    if 48 <= b <= 57 {
      assert LOWER_HEX[b - 48] == b;
    } else if 65 <= b <= 70 {
      assert UPPER_HEX[b - 55] == b;
    } else if 97 <= b <= 102 {
      assert LOWER_HEX[b - 87] == b;
    }
  }

  /** The place of a digit among the sixteen. */
  ghost function Place(b: byte): (n: nat)
    requires IsHexDigit(b)
    ensures n < 16 && (LOWER_HEX[n] == b || UPPER_HEX[n] == b)
  {
    HexDigits(b);
    var n: nat :| n < 16 && (LOWER_HEX[n] == b || UPPER_HEX[n] == b);
    n
  }

  /** The number any run of hexadecimal digits stands for. */
  ghost function Nibbles(s: bytes): nat
    requires forall i :: 0 <= i < |s| ==> IsHexDigit(s[i])
  {
    if s == [] then 0 else 16 * Nibbles(s[..|s| - 1]) + Place(s[|s| - 1])
  }

  lemma NibblesMore(s: bytes, i: nat)
    requires i < |s| && forall k :: 0 <= k <= i ==> IsHexDigit(s[k])
    ensures Nibbles(s[..i + 1]) == 16 * Nibbles(s[..i]) + HexDigitValue(s[i])
    ensures i == 0 ==> Nibbles(s[..i]) == 0
  {
    HexDigits(s[i]);
    hide HexDigitValue, IsHexDigit;
    assert s[..i + 1][..i] == s[..i];
  }

  lemma FourNibbles(s: bytes)
    requires IsHex4(s)
    ensures Nibbles(s) == HexNumber(s)
  {
    hide Nibbles, HexDigitValue;
    NibblesMore(s, 0);
    NibblesMore(s, 1);
    NibblesMore(s, 2);
    NibblesMore(s, 3);
    assert s[..4] == s;
  }

  /** `parse_hex4`: four digits read as a number, and 0 as soon as one of them is not a digit. */
  method ParseHex4(input: bytes) returns (h: nat)
    requires |input| == 4
    ensures h == Hex4(input)
  {
    hide Nibbles;
    h := 0;
    for i := 0 to 4
      invariant forall k :: 0 <= k < i ==> IsHexDigit(input[k])
      invariant h == if i == 0 then 0 else if i < 4 then 16 * Nibbles(input[..i]) else Nibbles(input[..i])
    {
      if 48 <= input[i] <= 57 {
        h := h + (input[i] - 48);
      } else if 65 <= input[i] <= 70 {
        h := h + (10 + input[i] - 65);
      } else if 97 <= input[i] <= 102 {
        h := h + (10 + input[i] - 97);
      } else {
        return 0;
      }
      NibblesMore(input, i);
      if i < 3 {
        h := h * 16;
      }
    }
    assert input[..4] == input;
  }

  /** The number four hexadecimal digits stand for. */
  function HexNumber(s: bytes): (n: nat)
    requires IsHex4(s)
    ensures n <= 0xFFFF
  {
    4096 * HexDigitValue(s[0]) + 256 * HexDigitValue(s[1]) + 16 * HexDigitValue(s[2]) + HexDigitValue(s[3])
  }

  predicate IsHighSurrogate(n: int) { 0xD800 <= n <= 0xDBFF }

  predicate IsLowSurrogate(n: int) { 0xDC00 <= n <= 0xDFFF }

  /** A Unicode scalar value: what UTF-8 can carry. */
  predicate IsScalar(n: int) {
    0 <= n <= 0x10FFFF && !(0xD800 <= n <= 0xDFFF)
  }

  /** Section 2.2 of RFC 2781: the value two surrogates encode. */
  function SurrogateValue(high: int, low: int): (n: int)
    requires IsHighSurrogate(high) && IsLowSurrogate(low)
    ensures 0x10000 <= n <= 0x10FFFF
  {
    0x10000 + (high - 0xD800) * 0x400 + (low - 0xDC00)
  }

  /** Section 2.1 of RFC 2781: the surrogates a value beyond the basic plane is written with. */
  function Surrogates(n: int): (r: (int, int))
    requires 0x10000 <= n <= 0x10FFFF
    ensures IsHighSurrogate(r.0) && IsLowSurrogate(r.1)
  {
    (0xD800 + (n - 0x10000) / 0x400, 0xDC00 + (n - 0x10000) % 0x400)
  }

  lemma SurrogatesRoundTrip(n: int)
    requires 0x10000 <= n <= 0x10FFFF
    ensures SurrogateValue(Surrogates(n).0, Surrogates(n).1) == n
  {
    var k := n - 0x10000;
    assert k == (k / 0x400) * 0x400 + k % 0x400;
  }

  /** Reading one or two `\uXXXX` at the front of `p`: how many bytes they take and the scalar value
      they mean, or nothing if the literal ends early or the surrogates do not pair up. */
  function Utf16Literal(p: bytes): (r: Option<(nat, int)>)
    ensures r.Some? ==> (r.value.0 == 6 || r.value.0 == 12) && r.value.0 <= |p| && IsScalar(r.value.1)
    ensures r.Some? && r.value.0 == 6 ==> r.value.1 <= 0xFFFF
  {
    if |p| < 6 then None
    else
      var first := Hex4(p[2..6]);
      if IsLowSurrogate(first) then None
      else if IsHighSurrogate(first) then
        if |p| < 12 || p[6] != BACKSLASH || p[7] != LETTER_U then None
        else
          var second := Hex4(p[8..12]);
          if !IsLowSurrogate(second) then None
          else Some((12, 0x10000 + (first % 0x400) * 0x400 + second % 0x400))
      else Some((6, first))
  }

  function Utf8Length(n: int): (k: nat)
    ensures 1 <= k <= 4
  {
    if n < 0x80 then 1 else if n < 0x800 then 2 else if n < 0x10000 then 3 else 4
  }

  /** The table of section 3 of RFC 3629. */
  function Utf8(n: int): (r: bytes)
    requires 0 <= n <= 0x10FFFF
    ensures |r| == Utf8Length(n)
  {
    if n < 0x80 then [n]
    else if n < 0x800 then [0xC0 + n / 0x40, 0x80 + n % 0x40]
    else if n < 0x10000 then [0xE0 + n / 0x1000, 0x80 + n / 0x40 % 0x40, 0x80 + n % 0x40]
    else [0xF0 + n / 0x40000, 0x80 + n / 0x1000 % 0x40, 0x80 + n / 0x40 % 0x40, 0x80 + n % 0x40]
  }

  predicate IsContinuation(b: byte) { 0x80 <= b < 0xC0 }

  /** Section 3 of RFC 3629 read backwards: the scalar value of exactly one encoded character,
      rejecting longer forms than needed and surrogates. */
  function FromUtf8(s: bytes): Option<int> {
    if |s| == 1 && s[0] < 0x80 then Some(s[0])
    else if |s| == 2 && 0xC0 <= s[0] < 0xE0 && IsContinuation(s[1]) then
      Scalar((s[0] as int - 0xC0) * 0x40 + (s[1] as int - 0x80), 0x80)
    else if |s| == 3 && 0xE0 <= s[0] < 0xF0 && IsContinuation(s[1]) && IsContinuation(s[2]) then
      Scalar((s[0] as int - 0xE0) * 0x1000 + (s[1] as int - 0x80) * 0x40 + (s[2] as int - 0x80), 0x800)
    else if |s| == 4 && 0xF0 <= s[0] < 0xF8 && IsContinuation(s[1]) && IsContinuation(s[2]) && IsContinuation(s[3]) then
      Scalar((s[0] as int - 0xF0) * 0x40000 + (s[1] as int - 0x80) * 0x1000 + (s[2] as int - 0x80) * 0x40 +
               (s[3] as int - 0x80),
             0x10000)
    else None
  }

  function Scalar(n: int, least: int): Option<int> {
    if n >= least && IsScalar(n) then Some(n) else None
  }

  lemma Utf8RoundTrip(n: int)
    requires IsScalar(n)
    ensures FromUtf8(Utf8(n)) == Some(n)
  {
    assert n / 0x1000 == n / 0x40 / 0x40;
    assert n / 0x40000 == n / 0x1000 / 0x40;
    assert n == n / 0x40 * 0x40 + n % 0x40;
    assert n / 0x40 == n / 0x1000 * 0x40 + n / 0x40 % 0x40;
    assert n / 0x1000 == n / 0x40000 * 0x40 + n / 0x1000 % 0x40;
  }

  /** The other direction: no two texts decode to the same character. */
  lemma FromUtf8Injective(s: bytes)
    requires FromUtf8(s).Some?
    ensures Utf8(FromUtf8(s).value) == s
  {
    if |s| == 2 {
      Split64(s[0] as int - 0xC0, s[1] as int - 0x80);
    } else if |s| == 3 {
      SplitThree(s[0] as int - 0xE0, s[1] as int - 0x80, s[2] as int - 0x80);
    } else if |s| == 4 {
      SplitFour(s[0] as int - 0xF0, s[1] as int - 0x80, s[2] as int - 0x80, s[3] as int - 0x80);
    }
  }

  lemma SplitThree(a: int, b: int, c: int)
    requires 0 <= b < 0x40 && 0 <= c < 0x40
    ensures var n := a * 0x1000 + b * 0x40 + c;
            n / 0x1000 == a && n / 0x40 % 0x40 == b && n % 0x40 == c
  {
    Split64(a, b);
    Split64(a * 0x40 + b, c);
  }

  lemma SplitFour(a: int, b: int, c: int, d: int)
    requires 0 <= b < 0x40 && 0 <= c < 0x40 && 0 <= d < 0x40
    ensures var n := a * 0x40000 + b * 0x1000 + c * 0x40 + d;
            n / 0x40000 == a && n / 0x1000 % 0x40 == b && n / 0x40 % 0x40 == c && n % 0x40 == d
  {
    SplitThree(a, b, c);
    Split64(a * 0x1000 + b * 0x40 + c, d);
  }

  lemma Split64(high: int, low: int)
    requires 0 <= low < 0x40
    ensures (high * 0x40 + low) / 0x40 == high && (high * 0x40 + low) % 0x40 == low
  {
  }

  /** The bit operations of `utf16_literal_to_utf8`, on words as wide as its `codepoint`, are the
      divisions and remainders written in this module. */
  lemma BitForms(n: bv32)
    requires n <= 0x10FFFF
    ensures (n | 0x80) & 0xBF == 0x80 + n % 0x40
    ensures n >> 6 == n / 0x40
    ensures n <= 0x1F ==> (n | 0xC0) & 0xFF == 0xC0 + n
    ensures n <= 0x0F ==> (n | 0xE0) & 0xFF == 0xE0 + n
    ensures n <= 0x07 ==> (n | 0xF0) & 0xFF == 0xF0 + n
  {
  }

  lemma SurrogateBitForm(high: bv32, low: bv32)
    ensures ((high & 0x3FF) << 10) | (low & 0x3FF) == (high % 0x400) * 0x400 + low % 0x400
  {
  }

  /** `codepoint` after `k` bytes. */
  function Shifted(n: nat, k: nat): nat {
    if k == 0 then n else Shifted(n, k - 1) / 0x40
  }

  function Mark(length: nat): nat {
    if length == 1 then 0 else if length == 2 then 0xC0 else if length == 3 then 0xE0 else 0xF0
  }

  /** The table, byte by byte from the last one. */
  lemma ByteOfUtf8(n: int, i: nat)
    requires IsScalar(n) && i < Utf8Length(n)
    ensures var rest := Shifted(n, Utf8Length(n) - 1 - i);
            Utf8(n)[i] == if i == 0 then Mark(Utf8Length(n)) + rest else 0x80 + rest % 0x40
  {
    assert Shifted(n, 1) == n / 0x40;
    assert Shifted(n, 2) == n / 0x1000;
    assert Shifted(n, 3) == n / 0x40000;
  }

  /** Writing the bytes of one character into `out` from position `at`, last byte first. */
  method EncodeUtf8(n: int, out: array<byte>, at: nat)
    requires IsScalar(n)
    requires at + Utf8Length(n) <= out.Length
    modifies out
    ensures out[..] == old(out[..at]) + Utf8(n) + old(out[at + Utf8Length(n)..])
  {
    hide Utf8, Utf8Length, Shifted, Mark;
    var length: nat := Utf8Length(n);
    var codepoint: nat := n;
    var position: nat := length - 1;
    ghost var was := out[..];
    ByteOfUtf8(n, position);
    ShiftedMore(n, 0);
    while position > 0
      invariant position < length
      invariant out[..at] == was[..at] && out[at + length..] == was[at + length..]
      invariant codepoint == Shifted(n, length - 1 - position)
      invariant forall i :: position < i < length ==> out[at + i] == Utf8(n)[i]
    {
      ByteOfUtf8(n, position);
      ShiftedMore(n, length - 1 - position);
      out[at + position] := 0x80 + codepoint % 0x40;
      codepoint := codepoint / 0x40;
      position := position - 1;
    }
    ByteOfUtf8(n, 0);
    out[at] := Mark(length) + codepoint;
    assert out[at..at + length] == Utf8(n);
    assert out[..] == out[..at] + out[at..at + length] + out[at + length..];
  }

  lemma ShiftedMore(n: nat, k: nat)
    ensures Shifted(n, 0) == n && Shifted(n, k + 1) == Shifted(n, k) / 0x40
  {
  }

  /** What is read, for all bytes: the character of one escape outside the surrogates, the character of a pair of
      surrogates, nothing for a surrogate on its own or a literal that ends early, and a NUL for bad digits. */
  lemma LiteralReads(p: bytes)
    ensures |p| < 6 ==> Utf16Literal(p) == None
    ensures |p| >= 6 && !IsHex4(p[2..6]) ==> Utf16Literal(p) == Some((6, 0))
    ensures |p| >= 6 && IsHex4(p[2..6]) ==>
              var first := HexNumber(p[2..6]);
              && (IsScalar(first) ==> Utf16Literal(p) == Some((6, first)))
              && (IsLowSurrogate(first) ==> Utf16Literal(p) == None)
              && (IsHighSurrogate(first) ==>
                    var paired := |p| >= 12 && p[6] == BACKSLASH && p[7] == LETTER_U && IsHex4(p[8..12]) &&
                                  IsLowSurrogate(HexNumber(p[8..12]));
                    Utf16Literal(p) == if paired then Some((12, SurrogateValue(first, HexNumber(p[8..12])))) else None)
  {
    if |p| >= 6 && IsHex4(p[2..6]) {
      FourNibbles(p[2..6]);
      if |p| >= 12 && IsHex4(p[8..12]) {
        FourNibbles(p[8..12]);
        PairArithmetic(HexNumber(p[2..6]), HexNumber(p[8..12]));
      }
    }
  }

  /** The code's arithmetic on two surrogates is that of the standard. */
  lemma PairArithmetic(high: int, low: int)
    ensures IsHighSurrogate(high) && IsLowSurrogate(low) ==>
              0x10000 + (high % 0x400) * 0x400 + low % 0x400 == SurrogateValue(high, low)
  {
    if IsHighSurrogate(high) && IsLowSurrogate(low) {
      assert high % 0x400 == high - 0xD800;
      assert low % 0x400 == low - 0xDC00;
    }
  }
}
