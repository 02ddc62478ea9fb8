/** Bytes of C strings and buffers, and the ASCII codes the JSON text codec works with. */
module Bytes {

  type byte = b: int | 0 <= b < 256

  type bytes = seq<byte>

  const NUL: byte := 0
  const BACKSPACE: byte := 8
  const TAB: byte := 9
  const NEWLINE: byte := 10
  const FORM_FEED: byte := 12
  const RETURN: byte := 13
  const SPACE: byte := 32
  const QUOTE: byte := 34
  const STAR: byte := 42
  const PLUS: byte := 43
  const COMMA: byte := 44
  const MINUS: byte := 45
  const DOT: byte := 46
  const SLASH: byte := 47
  const DIGIT_0: byte := 48
  const COLON: byte := 58
  const LEFT_BRACKET: byte := 91
  const BACKSLASH: byte := 92
  const RIGHT_BRACKET: byte := 93
  const LEFT_BRACE: byte := 123
  const RIGHT_BRACE: byte := 125

  const NULL_TEXT: bytes := [110, 117, 108, 108]
  const TRUE_TEXT: bytes := [116, 114, 117, 101]
  const FALSE_TEXT: bytes := [102, 97, 108, 115, 101]

  /** The codes are those of the characters they are named after. */
  lemma AsciiCodes()
    ensures NUL == 0 && BACKSPACE == 8 && FORM_FEED == 12
    ensures TAB == '\t' as int && NEWLINE == '\n' as int && RETURN == '\r' as int && SPACE == ' ' as int
    ensures QUOTE == '"' as int && BACKSLASH == '\\' as int && SLASH == '/' as int && STAR == '*' as int
    ensures PLUS == '+' as int && MINUS == '-' as int && DOT == '.' as int && DIGIT_0 == '0' as int
    ensures COMMA == ',' as int && COLON == ':' as int
    ensures LEFT_BRACKET == '[' as int && RIGHT_BRACKET == ']' as int
    ensures LEFT_BRACE == '{' as int && RIGHT_BRACE == '}' as int
  {
  }

  /** A C string's contents hold no NUL. */
  ghost predicate NulFree(s: bytes) {
    forall i :: 0 <= i < |s| ==> s[i] != NUL
  }

  /** The C string that starts a byte buffer: everything before the first NUL. */
  function CString(s: bytes): (r: bytes)
    ensures NulFree(r)
    ensures r <= s
    ensures |r| == |s| || s[|r|] == NUL
  {
    if s == [] || s[0] == NUL then [] else [s[0]] + CString(s[1..])
  }

  /** `strlen` as the first NUL: a NUL-free text ended by a NUL is read back whole. */
  lemma {:induction false} CStringOfTerminated(s: bytes, t: bytes)
    requires NulFree(s)
    ensures CString(s + [NUL] + t) == s
    ensures CString(s) == s
  {
    if s == [] {
      assert (s + [NUL] + t)[0] == NUL;
    } else {
      CStringOfTerminated(s[1..], t);
      assert (s + [NUL] + t)[1..] == s[1..] + [NUL] + t;
    }
  }

  /** What stands behind a NUL is not part of the C string. */
  lemma {:induction false} CStringBefore(s: bytes, buffer: bytes)
    requires s + [NUL] <= buffer
    ensures CString(buffer) == CString(s)
  {
    assert buffer[0] == (s + [NUL])[0];
    if s != [] && s[0] != NUL {
      assert (s + [NUL])[1..] == s[1..] + [NUL];
      CStringBefore(s[1..], buffer[1..]);
    }
  }

  lemma {:induction false} CStringFrom(s: bytes, p: nat)
    requires p <= |CString(s)|
    ensures CString(s[p..]) == CString(s)[p..]
  {
    if p == 0 {
      assert s[0..] == s && CString(s)[0..] == CString(s);
    } else {
      CStringFrom(s[1..], p - 1);
      assert s[1..][p - 1..] == s[p..];
      assert CString(s)[1..] == CString(s[1..]);
    }
  }

  /** `n` copies of a byte. */
  function Repeat(b: byte, n: nat): (r: bytes)
    ensures |r| == n && forall i :: 0 <= i < n ==> r[i] == b
  {
    seq(n, i => b)
  }

  function Min(a: nat, b: nat): nat {
    if a < b then a else b
  }

  /** What is left of a text without its first `k` bytes. */
  function Drop(s: bytes, k: nat): (r: bytes)
    ensures |r| == if k <= |s| then |s| - k else 0
  {
    if k <= |s| then s[k..] else []
  }

  lemma RegroupThree(a: bytes, b: bytes, c: bytes)
    ensures a + b + c == a + (b + c)
  {
  }
}
