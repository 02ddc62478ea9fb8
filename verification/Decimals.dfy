/** The value of a spelled number, digit by digit, is what `strtod` computes from all its digits and one power of ten.
    */
module Decimals {
  import opened Bytes
  import opened Grammar
  import opened Numbers

  lemma {:induction false} WholeIsDigits(s: bytes)
    ensures Whole(s) == DigitsValue(s)
  {
    if s != [] {
      WholeIsDigits(s[..|s| - 1]);
    }
  }

  lemma {:induction false} PowAdd(a: nat, b: nat)
    ensures Pow10(a + b) == Pow10(a) * Pow10(b)
  {
    if b > 0 {
      PowAdd(a, b - 1);
      assert Pow10(a + b) == 10 * Pow10(a + b - 1);
    }
  }

  lemma {:induction false} DigitsAppend(a: bytes, b: bytes)
    ensures DigitsValue(a + b) == DigitsValue(a) * Pow10(|b|) + DigitsValue(b)
  {
    if b == [] {
      assert a + b == a;
    } else {
      var n := |b| - 1;
      DigitsAppend(a, b[..n]);
      assert (a + b)[..|a| + n] == a + b[..n];
      TenTimes(DigitsValue(a), Pow10(n));
    }
  }

  lemma TenTimes(x: int, y: int)
    ensures x * (10 * y) == 10 * (x * y)
  {
  }

  /** The digits behind the dot, as hundredths, thousandths or whatever their number makes them. */
  lemma {:induction false} TenthsAreDigits(s: bytes)
    ensures Tenths(s) * Pow10(|s|) as real == DigitsValue(s) as real
  {
    hide DigitsValue;
    if s == [] {
      OneDigit(48);
    } else {
      var c, rest := s[0] as int - 48, s[1..];
      var p := Pow10(|rest|);
      TenthsAreDigits(rest);
      assert s == [s[0]] + rest;
      DigitsAppend([s[0]], rest);
      OneDigit(s[0]);
      OneTenth(c as real, Tenths(rest), p as real);
      assert Pow10(|s|) as real == 10.0 * p as real;
      assert (c * p) as real == c as real * p as real;
    }
  }

  lemma OneDigit(b: byte)
    ensures DigitsValue([b]) == b as int - 48 && DigitsValue([]) == 0
  {
    assert [b][..0] == [];
  }

  lemma OneTenth(c: real, t: real, p: real)
    ensures (c + t) / 10.0 * (10.0 * p) == c * p + t * p
  {
  }

  lemma {:induction false} MovedUp(x: real, e: nat)
    ensures Moved(x, e) == x * Pow10(e) as real
  {
    if e > 0 {
      MovedUp(x, e - 1);
      ThreeFactors(x, Pow10(e - 1) as real);
    }
  }

  lemma ThreeFactors(x: real, p: real)
    ensures x * p * 10.0 == x * (10.0 * p)
  {
  }

  lemma {:induction false} MovedDown(x: real, e: int)
    requires e >= 0
    ensures Moved(x, -e) * Pow10(e) as real == x
  {
    if e > 0 {
      MovedDown(x, e - 1);
      BackUp(Moved(x, 1 - e), Pow10(e - 1) as real);
    }
  }

  lemma BackUp(y: real, p: real)
    ensures y / 10.0 * (10.0 * p) == y * p
  {
  }

  /** What makes a quotient. */
  lemma Quotient(m: real, p: real, y: real)
    requires p > 0.0 && y * p == m
    ensures m / p == y
  {
  }

  lemma Associate(x: real, p: real, q: real)
    ensures x * (p * q) == x * p * q
  {
  }

  /** `m` digits of which `f` are behind the dot, moved by `e` places. */
  lemma ScaleIsMoved(x: real, m: int, f: nat, e: int)
    requires x * Pow10(f) as real == m as real
    ensures Scale(m, e - f) == Moved(x, e)
  {
    hide Moved, Pow10;
    if e >= f {
      MovedUp(x, e);
      PowAdd(f, e - f);
      Associate(x, Pow10(f) as real, Pow10(e - f) as real);
      assert Pow10(e) as real == Pow10(f) as real * Pow10(e - f) as real;
    } else if e >= 0 {
      MovedUp(x, e);
      PowAdd(e, f - e);
      Associate(x, Pow10(e) as real, Pow10(f - e) as real);
      Quotient(m as real, Pow10(f - e) as real, Moved(x, e));
    } else {
      MovedDown(x, -e);
      PowAdd(-e, f);
      Associate(Moved(x, e), Pow10(-e) as real, Pow10(f) as real);
      Quotient(m as real, Pow10(f - e) as real, Moved(x, e));
    }
  }

  /** A numeral's value, as one scaled integer. */
  lemma ValueIsScaled(n: Numeral)
    ensures var m := DigitsValue(n.digits + n.fraction);
            NumeralValue(n) == Scale(if n.negative then -m else m, Power(n.exponent) - |n.fraction|)
  {
    hide Scale, Moved, DigitsValue, Whole, Tenths, Pow10, Power;
    var m, f := DigitsValue(n.digits + n.fraction), |n.fraction|;
    var x := Whole(n.digits) as real + Tenths(n.fraction);
    WholeIsDigits(n.digits);
    TenthsAreDigits(n.fraction);
    DigitsAppend(n.digits, n.fraction);
    Distribute(Whole(n.digits) as real, Tenths(n.fraction), Pow10(f) as real);
    assert x * Pow10(f) as real == m as real;
    if n.negative {
      Opposite(x, Pow10(f) as real);
      ScaleIsMoved(-x, -m, f, Power(n.exponent));
    } else {
      ScaleIsMoved(x, m, f, Power(n.exponent));
    }
  }

  lemma Distribute(a: real, b: real, p: real)
    ensures (a + b) * p == a * p + b * p
  {
  }

  lemma Opposite(x: real, p: real)
    ensures -x * p == -(x * p)
  {
  }
}
