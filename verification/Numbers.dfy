/** Numbers in JSON text. Values are exact: the rounding of `double` is not modelled. */
module Numbers {
  import opened Bytes
  import opened Json
  import opened Wrappers

  predicate IsDigit(b: byte) { DIGIT_0 <= b <= DIGIT_0 + 9 }

  /** The bytes a number is collected from before `strtod` sees it. */
  predicate IsNumberByte(b: byte) {
    IsDigit(b) || b == PLUS || b == MINUS || b == DOT || b == 69 || b == 101
  }

  /** How many number bytes stand at the front. */
  function NumberRun(s: bytes): (n: nat)
    ensures n <= |s|
  {
    if s == [] || !IsNumberByte(s[0]) then 0 else 1 + NumberRun(s[1..])
  }

  function DigitRun(s: bytes): (n: nat)
    ensures n <= |s|
  {
    if s == [] || !IsDigit(s[0]) then 0 else 1 + DigitRun(s[1..])
  }

  function DigitsValue(s: bytes): int {
    if s == [] then 0 else 10 * DigitsValue(s[..|s| - 1]) + (s[|s| - 1] as int - DIGIT_0)
  }

  function Pow10(n: nat): (p: int)
    ensures p > 0
  {
    if n == 0 then 1 else 10 * Pow10(n - 1)
  }

  function Scale(m: int, e: int): real {
    if e >= 0 then (m * Pow10(e)) as real else m as real / Pow10(-e) as real
  }

  predicate IsSign(s: bytes, i: nat) {
    i < |s| && (s[i] == PLUS || s[i] == MINUS)
  }

  /** The exponent at the front of a text, if there is one, and its length. A mark without digits is none. */
  function ReadPower(s: bytes): (r: (int, nat))
    ensures r.1 <= |s|
  {
    var mark := s != [] && (s[0] == 69 || s[0] == 101);
    var c := if mark && IsSign(s, 1) then 2 else 1;
    var power := if mark then DigitRun(s[c..]) else 0;
    if power == 0 then (0, 0)
    else ((if s[1] == MINUS then -1 else 1) * DigitsValue(s[c..c + power]), c + power)
  }

  /** `strtod` on a text of number bytes: the value of the longest prefix that is a decimal number,
      and the length of that prefix. */
  function Strtod(s: bytes): (r: Option<(real, nat)>)
    ensures r.Some? ==> 0 < r.value.1 <= |s|
  {
    var sign := if IsSign(s, 0) then 1 else 0;
    var a := sign + DigitRun(s[sign..]);
    var dot := a < |s| && s[a] == DOT;
    var fraction := if dot then DigitRun(s[a + 1..]) else 0;
    if a - sign + fraction == 0 then None
    else
      var b := if dot then a + 1 + fraction else a;
      var mantissa := DigitsValue(s[sign..a] + (if dot then s[a + 1..b] else []));
      var (exponent, power) := ReadPower(s[b..]);
      Some((Scale(if sign == 1 && s[0] == MINUS then -mantissa else mantissa, exponent - fraction), b + power))
  }

  lemma {:induction false} DigitsRoundTrip(n: nat)
    ensures DigitsValue(Digits(n)) == n
  {
    if n >= 10 {
      DigitsRoundTrip(n / 10);
      assert Digits(n)[..|Digits(n)| - 1] == Digits(n / 10);
    } else {
      assert Digits(n)[..0] == [];
    }
  }

  lemma {:induction false} RunOfDigits(s: bytes)
    requires forall i :: 0 <= i < |s| ==> IsDigit(s[i])
    ensures DigitRun(s) == |s|
  {
    if s != [] {
      RunOfDigits(s[1..]);
    }
  }

  /** Reading back a printed `%d`. */
  lemma StrtodOfDecimal(n: int)
    ensures Strtod(DecimalText(n)) == Some((n as real, |DecimalText(n)|))
  {
    hide Digits, DigitsValue, DigitRun;
    var s := DecimalText(n);
    var m: nat := if n < 0 then -n else n;
    var sign := if n < 0 then 1 else 0;
    var none: bytes := [];
    assert s[sign..] == Digits(m);
    RunOfDigits(Digits(m));
    DigitsRoundTrip(m);
    assert s[sign..|s|] + none == Digits(m);
    assert Scale(n, 0) == n as real;
  }

  lemma {:induction false} NumberRunStops(s: bytes, t: bytes)
    requires forall i :: 0 <= i < |s| ==> IsNumberByte(s[i])
    requires t == [] || !IsNumberByte(t[0])
    ensures NumberRun(s + t) == |s|
  {
    if s != [] {
      assert (s + t)[1..] == s[1..] + t;
      NumberRunStops(s[1..], t);
    } else {
      assert s + t == t;
    }
  }

  /** Whatever `int` holds is printed to a text that `strtod` and the saturating conversion read back. */
  lemma ValueIntOfDecimal(n: int)
    requires INT_MIN <= n <= INT_MAX
    ensures ValueInt(n as real) == n && IsInt32(n as real)
  {
    assert (n as real).Floor == n;
    assert (-(n as real)) == (-n) as real;
    assert (-(n as real)).Floor == -n;
  }
}
