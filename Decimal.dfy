/** Exact reading of a comma-free decimal literal such as "1088.6" or ".5",
    standing for Python's `float(...)` without its binary rounding. The value
    is an exact real: the integer digits plus each fraction digit over its
    power of ten. */
module Decimal {
  import opened Text

  function DigitValue(c: char): nat {
    if IsDigit(c) then c as int - '0' as int else 0
  }

  /** Value of a digit string read in base ten ("" reads as 0). */
  function DigitsValue(d: string): nat {
    if d == [] then 0 else 10 * DigitsValue(d[..|d| - 1]) + DigitValue(d[|d| - 1])
  }

  function Pow10(n: nat): (p: nat)
    ensures p >= 1
  {
    if n == 0 then 1 else 10 * Pow10(n - 1)
  }

  /** Value of the digits after a decimal point: ".25" contributes 0.25. */
  function FractionValue(f: string): (r: real)
    ensures 0.0 <= r < 1.0
  {
    if f == [] then 0.0 else (DigitValue(f[0]) as real + FractionValue(f[1..])) / 10.0
  }

  /** `float(t)` taken exactly for a comma-free literal: the digits before
      the first '.' as an integer plus the digits after it as a fraction. */
  function ParseDecimal(t: string): (r: real)
    ensures r >= 0.0
  {
    var dot := IndexOf(t, '.');
    DigitsValue(t[..dot]) as real + if dot < |t| then FractionValue(t[dot + 1..]) else 0.0
  }

  /** Appending digits shifts the value already read. */
  lemma {:induction false} DigitsValueAppend(a: string, b: string)
    ensures DigitsValue(a + b) == DigitsValue(a) * Pow10(|b|) + DigitsValue(b)
  {
    if b == [] {
      assert a + b == a;
    } else {
      var b' := b[..|b| - 1];
      var last := DigitValue(b[|b| - 1]);
      assert (a + b)[..|a + b| - 1] == a + b';
      assert (a + b)[|a + b| - 1] == b[|b| - 1];
      DigitsValueAppend(a, b');
      var x, y, p := DigitsValue(a), DigitsValue(b'), Pow10(|b'|);
      assert DigitsValue(a + b) == 10 * (x * p + y) + last;
      assert Pow10(|b|) == 10 * p;
      MulShift(x, p);
    }
  }

  lemma MulShift(x: nat, p: nat)
    ensures 10 * (x * p) == x * (10 * p)
  {
  }

  /** A plain digit string reads as its integer value ... */
  lemma ParseInteger(i: string)
    requires AllDigits(i)
    ensures ParseDecimal(i) == DigitsValue(i) as real
  {
    assert IndexOf(i, '.') == |i|;
    assert i[..|i|] == i;
  }

  /** ... and "i.f" as i plus the fraction f. */
  lemma ParseFraction(i: string, f: string)
    requires AllDigits(i)
    ensures ParseDecimal(i + "." + f) == DigitsValue(i) as real + FractionValue(f)
  {
    var t := i + "." + f;
    assert t[|i|] == '.';
    assert forall k :: 0 <= k < |i| ==> t[k] == i[k];
    assert IndexOf(t, '.') == |i|;
    assert t[..|i|] == i;
    assert t[|i| + 1..] == f;
  }

  /** The fraction is the digits read as an integer over ten to the number
      of digits: "25" after the point is 25/100. */
  lemma {:induction false} FractionPositional(f: string)
    ensures FractionValue(f) == DigitsValue(f) as real / Pow10(|f|) as real
  {
    if f != [] {
      var rest := f[1..];
      FractionPositional(rest);
      assert f == [f[0]] + rest;
      DigitsValueAppend([f[0]], rest);
      assert DigitsValue([f[0]]) == DigitValue(f[0]) by {
        assert [f[0]][..0] == [];
      }
      ShiftFraction(DigitValue(f[0]), DigitsValue(rest), Pow10(|rest|));
    }
  }

  lemma ShiftFraction(d: nat, y: nat, p: nat)
    requires p >= 1
    ensures (d as real + y as real / p as real) / 10.0 == (d * p + y) as real / (10 * p) as real
  {
    var a := d as real + y as real / p as real;
    assert a * p as real == (d * p + y) as real;
    assert (d * p + y) as real / (10 * p) as real == a * p as real / (10.0 * p as real);
  }
}
