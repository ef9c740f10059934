/** Python's float() and int() on text, as the runner scripts apply them to the
    values they cut out of a subject's output. float() is modelled on exact
    rationals: the decimal text denotes a real number and no rounding to a
    binary double happens. */
module PyNumbers {
  import opened Wrappers
  import opened Text

  function DigitValue(c: char): nat
    requires IsDigit(c)
  {
    c as int - '0' as int
  }

  /** The number a string of decimal digits denotes ("" denotes 0). */
  function DigitsValue(s: string): nat
    requires AllDigits(s)
    decreases |s|
  {
    if |s| == 0 then 0 else DigitsValue(s[..|s| - 1]) * 10 + DigitValue(s[|s| - 1])
  }

  /** m times ten to the power e. */
  function Scale(m: real, e: int): real
    decreases if e >= 0 then e else -e
  {
    if e == 0 then m else if e > 0 then Scale(m * 10.0, e - 1) else Scale(m / 10.0, e + 1)
  }

  /** An optional leading '+' or '-': whether it was '-', and the rest. */
  function SplitSign(t: string): (bool, string)
  {
    if |t| > 0 && t[0] == '-' then (true, t[1..])
    else if |t| > 0 && t[0] == '+' then (false, t[1..])
    else (false, t)
  }

  /** The value of the digits after a decimal point. */
  function FractionValue(f: string): real
    requires AllDigits(f)
    decreases |f|
  {
    if |f| == 0 then 0.0 else (DigitValue(f[0]) as real + FractionValue(f[1..])) / 10.0
  }

  /** digits, digits '.', '.' digits or digits '.' digits. */
  function ParseMantissa(m: string): Option<real>
  {
    var dot := FirstIndexOf(m, {'.'});
    var whole := m[..dot];
    var fraction := if dot < |m| then m[dot + 1..] else "";
    if AllDigits(whole) && AllDigits(fraction) && |whole| + |fraction| > 0 then
      Some(DigitsValue(whole) as real + FractionValue(fraction))
    else None
  }

  /** The part after 'e' or 'E': an optional sign and at least one digit. */
  function ParseExponent(e: string): Option<int>
  {
    var (negative, digits) := SplitSign(e);
    if |digits| > 0 && AllDigits(digits) then
      Some(if negative then -(DigitsValue(digits) as int) else DigitsValue(digits))
    else None
  }

  /** A mantissa with an optional exponent, no sign. */
  function ParseUnsigned(body: string): Option<real>
  {
    var e := FirstIndexOf(body, {'e', 'E'});
    var mantissa := ParseMantissa(body[..e]);
    var exponent := if e < |body| then ParseExponent(body[e + 1..]) else Some(0);
    if mantissa.Some? && exponent.Some? then Some(Scale(mantissa.value, exponent.value)) else None
  }

  function Negated(negative: bool, v: Option<real>): Option<real>
  {
    if v.None? then None else Some(if negative then -v.value else v.value)
  }

  /** An optional sign, then an unsigned number. */
  function ParseSigned(t: string): Option<real>
  {
    var (negative, body) := SplitSign(t);
    Negated(negative, ParseUnsigned(body))
  }

  /** Python's float(s); None where Python raises ValueError. */
  function ParseFloat(s: string): Option<real>
  {
    ParseSigned(Strip(s))
  }

  /** Python's int(s) on a decimal literal; None where Python raises ValueError. */
  function ParseInt(s: string): Option<int>
  {
    var (negative, digits) := SplitSign(Strip(s));
    if |digits| > 0 && AllDigits(digits) then
      Some(if negative then -(DigitsValue(digits) as int) else DigitsValue(digits))
    else None
  }

  /** Reading back a rendered natural number gives the number. */
  lemma {:induction false} DigitsOfNat(n: nat)
    ensures DigitsValue(NatToString(n)) == n
    decreases n
  {
    if n >= 10 {
      DigitsOfNat(n / 10);
      var s := NatToString(n);
      assert s[..|s| - 1] == NatToString(n / 10);
    }
  }

  lemma FirstIndexOfAbsent(s: string, cs: set<char>)
    requires forall j :: 0 <= j < |s| ==> s[j] !in cs
    ensures FirstIndexOf(s, cs) == |s|
  {
  }

  lemma DigitNotSpace(c: char)
    requires IsDigit(c)
    ensures !IsSpace(c) && c != '-' && c != '+' && c != '.' && c != 'e' && c != 'E'
  {
  }

  lemma FractionOfNothing()
    ensures FractionValue("") == 0.0
  {
  }

  /** Where the prefix holds no character of cs, the search runs past it. */
  lemma {:induction false} FirstIndexPrefix(a: string, b: string, cs: set<char>)
    requires FirstIndexOf(a, cs) == |a|
    ensures FirstIndexOf(a + b, cs) == |a| + FirstIndexOf(b, cs)
    decreases |a|
  {
    if |a| > 0 {
      assert (a + b)[1..] == a[1..] + b;
      FirstIndexPrefix(a[1..], b, cs);
    } else {
      assert a + b == b;
    }
  }

  lemma DigitsNoDot(d: string)
    requires AllDigits(d)
    ensures FirstIndexOf(d, {'.'}) == |d|
  {
    forall j | 0 <= j < |d| ensures d[j] !in {'.'} {
      DigitNotSpace(d[j]);
    }
    FirstIndexOfAbsent(d, {'.'});
  }

  // Reading the layers of float() one at a time.

  lemma FloatOfStripped(s: string)
    requires Stripped(s)
    ensures ParseFloat(s) == ParseSigned(s)
  {
    StripStripped(s);
  }

  lemma SignedOfDigit(t: string)
    requires |t| > 0 && IsDigit(t[0])
    ensures ParseSigned(t) == ParseUnsigned(t)
  {
    DigitNotSpace(t[0]);
    assert SplitSign(t) == (false, t);
  }

  lemma SignedOfMinus(t: string)
    ensures ParseSigned("-" + t) == Negated(true, ParseUnsigned(t))
  {
    assert ("-" + t)[1..] == t;
    assert SplitSign("-" + t) == (true, t);
  }

  lemma UnsignedWithoutExponent(b: string)
    requires forall j :: 0 <= j < |b| ==> b[j] !in {'e', 'E'}
    ensures ParseUnsigned(b) == ParseMantissa(b)
  {
    FirstIndexOfAbsent(b, {'e', 'E'});
    assert b[..|b|] == b;
  }

  lemma {:induction false} MantissaOfDigits(d: string)
    requires |d| > 0 && AllDigits(d)
    ensures ParseMantissa(d) == Some(DigitsValue(d) as real)
  {
    DigitsNoDot(d);
    assert d[..|d|] == d;
    FractionOfNothing();
  }

  lemma {:induction false} MantissaAtDot(m: string, dot: nat)
    requires dot < |m| && FirstIndexOf(m, {'.'}) == dot
    requires 0 < dot && AllDigits(m[..dot]) && AllDigits(m[dot + 1..])
    ensures ParseMantissa(m) == Some(DigitsValue(m[..dot]) as real + FractionValue(m[dot + 1..]))
  {
  }

  lemma {:induction false} MantissaOfDecimal(d: string, f: string)
    requires |d| > 0 && AllDigits(d) && AllDigits(f)
    ensures ParseMantissa(d + "." + f) == Some(DigitsValue(d) as real + FractionValue(f))
  {
    var m := d + "." + f;
    DigitsNoDot(d);
    assert FirstIndexOf(m, {'.'}) == |d| by {
      assert m == d + ("." + f);
      FirstIndexPrefix(d, "." + f, {'.'});
    }
    assert m[..|d|] == d;
    assert m[|d| + 1..] == f;
    MantissaAtDot(m, |d|);
  }

  /** The text of a decimal number: an optional '-', at least one digit, and
      optionally a '.' with further digits. */
  function Numeral(negative: bool, whole: string, dotted: bool, fraction: string): string
  {
    (if negative then "-" else "") + whole + (if dotted then "." + fraction else "")
  }

  /** The sign-free part of a numeral has no exponent marker and no space at its ends. */
  lemma {:induction false} NumeralShape(whole: string, dotted: bool, fraction: string)
    requires |whole| > 0 && AllDigits(whole) && AllDigits(fraction)
    ensures var b := Numeral(false, whole, dotted, fraction);
      && |b| > 0 && IsDigit(b[0]) && !IsSpace(b[|b| - 1])
      && forall j :: 0 <= j < |b| ==> b[j] !in {'e', 'E'}
  {
    var b := Numeral(false, whole, dotted, fraction);
    assert b == whole + (if dotted then "." + fraction else "");
    forall j | 0 <= j < |b|
      ensures b[j] !in {'e', 'E'}
    {
      if j < |whole| {
        DigitNotSpace(whole[j]);
      } else if j > |whole| {
        DigitNotSpace(fraction[j - |whole| - 1]);
      }
    }
    if dotted && |fraction| > 0 {
      DigitNotSpace(fraction[|fraction| - 1]);
    } else if !dotted {
      DigitNotSpace(whole[|whole| - 1]);
    }
  }

  /** The mantissa of a numeral without its sign. */
  lemma {:induction false} MantissaOfNumeral(whole: string, dotted: bool, fraction: string)
    requires |whole| > 0 && AllDigits(whole) && AllDigits(fraction)
    ensures ParseMantissa(Numeral(false, whole, dotted, fraction))
         == Some(DigitsValue(whole) as real + (if dotted then FractionValue(fraction) else 0.0))
  {
    if dotted {
      assert Numeral(false, whole, dotted, fraction) == whole + "." + fraction;
      MantissaOfDecimal(whole, fraction);
    } else {
      assert Numeral(false, whole, dotted, fraction) == whole;
      MantissaOfDigits(whole);
    }
  }

  /** The number a numeral without its sign denotes. */
  function UnsignedValue(whole: string, dotted: bool, fraction: string): real
    requires AllDigits(whole) && AllDigits(fraction)
  {
    DigitsValue(whole) as real + (if dotted then FractionValue(fraction) else 0.0)
  }

  /** The sign-free part of a numeral reads as the number it denotes. */
  lemma {:induction false} UnsignedOfNumeral(whole: string, dotted: bool, fraction: string)
    requires |whole| > 0 && AllDigits(whole) && AllDigits(fraction)
    ensures ParseUnsigned(Numeral(false, whole, dotted, fraction)) == Some(UnsignedValue(whole, dotted, fraction))
  {
    NumeralShape(whole, dotted, fraction);
    UnsignedWithoutExponent(Numeral(false, whole, dotted, fraction));
    MantissaOfNumeral(whole, dotted, fraction);
  }

  /** A numeral has no whitespace at either end. */
  lemma {:induction false} NumeralStripped(negative: bool, whole: string, dotted: bool, fraction: string)
    requires |whole| > 0 && AllDigits(whole) && AllDigits(fraction)
    ensures Stripped(Numeral(negative, whole, dotted, fraction))
  {
    var b := Numeral(false, whole, dotted, fraction);
    var t := Numeral(negative, whole, dotted, fraction);
    NumeralShape(whole, dotted, fraction);
    if negative {
      assert t == "-" + b;
    } else {
      assert t == b;
    }
  }

  /** The sign of a numeral negates what the rest of it reads as. */
  lemma {:induction false} SignedOfNumeral(negative: bool, whole: string, dotted: bool, fraction: string)
    requires |whole| > 0 && AllDigits(whole) && AllDigits(fraction)
    ensures ParseSigned(Numeral(negative, whole, dotted, fraction))
         == Negated(negative, ParseUnsigned(Numeral(false, whole, dotted, fraction)))
  {
    var b := Numeral(false, whole, dotted, fraction);
    var t := Numeral(negative, whole, dotted, fraction);
    if negative {
      assert t == "-" + b;
      SignedOfMinus(b);
    } else {
      assert t == b;
      NumeralShape(whole, dotted, fraction);
      SignedOfDigit(b);
    }
  }

  /** float() of a numeral is its sign applied to the rest. */
  lemma {:induction false} FloatOfSigned(negative: bool, whole: string, dotted: bool, fraction: string)
    requires |whole| > 0 && AllDigits(whole) && AllDigits(fraction)
    ensures ParseFloat(Numeral(negative, whole, dotted, fraction))
         == Negated(negative, ParseUnsigned(Numeral(false, whole, dotted, fraction)))
  {
    NumeralStripped(negative, whole, dotted, fraction);
    FloatOfStripped(Numeral(negative, whole, dotted, fraction));
    SignedOfNumeral(negative, whole, dotted, fraction);
  }

  lemma NegatedSome(negative: bool, u: real)
    ensures Negated(negative, Some(u)) == Some(if negative then -u else u)
  {
  }

  /** The number a numeral denotes. */
  function NumeralValue(negative: bool, whole: string, dotted: bool, fraction: string): real
    requires AllDigits(whole) && AllDigits(fraction)
  {
    if negative then -UnsignedValue(whole, dotted, fraction) else UnsignedValue(whole, dotted, fraction)
  }

  /** float() reads every numeral as the number it denotes. */
  lemma {:induction false} FloatOfNumeral(negative: bool, whole: string, dotted: bool, fraction: string)
    requires |whole| > 0 && AllDigits(whole) && AllDigits(fraction)
    ensures ParseFloat(Numeral(negative, whole, dotted, fraction)) == Some(NumeralValue(negative, whole, dotted, fraction))
  {
    var u := UnsignedValue(whole, dotted, fraction);
    assert ParseUnsigned(Numeral(false, whole, dotted, fraction)) == Some(u) by {
      UnsignedOfNumeral(whole, dotted, fraction);
    }
    FloatOfSigned(negative, whole, dotted, fraction);
    NegatedSome(negative, u);
  }

  /** %d writes an integer as a numeral without a fractional part. */
  lemma IntNumeral(i: int)
    ensures IntToString(i) == Numeral(i < 0, NatToString(if i < 0 then -i else i), false, "")
  {
  }

  lemma {:induction false} IntNumeralValue(i: int)
    ensures NumeralValue(i < 0, NatToString(if i < 0 then -i else i), false, "") == i as real
  {
    DigitsOfNat(if i < 0 then -i else i);
  }

  /** float() reads back what Go's and Java's %d render, negative numbers included. */
  lemma {:induction false} FloatOfInt(i: int)
    ensures ParseFloat(IntToString(i)) == Some(i as real)
  {
    IntNumeral(i);
    FloatOfNumeral(i < 0, NatToString(if i < 0 then -i else i), false, "");
    IntNumeralValue(i);
  }

  lemma Fixed2Numeral(i: int)
    ensures IntToString(i) + ".00" == Numeral(i < 0, NatToString(if i < 0 then -i else i), true, "00")
  {
  }

  lemma {:induction false} Fixed2NumeralValue(i: int)
    ensures NumeralValue(i < 0, NatToString(if i < 0 then -i else i), true, "00") == i as real
  {
    DigitsOfNat(if i < 0 then -i else i);
    assert FractionValue("00") == 0.0 by {
      assert "00"[1..] == "0";
      assert "0"[1..] == "";
    }
  }

  /** float() reads back what %d renders for a natural number. */
  lemma FloatOfNat(n: nat)
    ensures ParseFloat(NatToString(n)) == Some(n as real)
  {
    FloatOfInt(n);
    assert IntToString(n) == NatToString(n);
  }

  /** float() reads back a whole number rendered with two zero decimals, as
      Java's %.2f renders an integral double. */
  lemma {:induction false} FloatOfFixed2(i: int)
    ensures ParseFloat(IntToString(i) + ".00") == Some(i as real)
  {
    Fixed2Numeral(i);
    FloatOfNumeral(i < 0, NatToString(if i < 0 then -i else i), true, "00");
    Fixed2NumeralValue(i);
  }

  lemma DecimalNumeral(d: string, f: string)
    ensures d + "." + f == Numeral(false, d, true, f)
  {
  }

  lemma {:induction false} DecimalNumeralValue(w: nat, f: string)
    requires AllDigits(f)
    ensures NumeralValue(false, NatToString(w), true, f) == w as real + FractionValue(f)
  {
    DigitsOfNat(w);
  }

  /** float() reads a decimal with a fractional part, as Go renders a duration
      such as 12.5ms before its unit. */
  lemma {:induction false} FloatOfDecimal(w: nat, f: string)
    requires AllDigits(f)
    ensures ParseFloat(NatToString(w) + "." + f) == Some(w as real + FractionValue(f))
  {
    DecimalNumeral(NatToString(w), f);
    FloatOfNumeral(false, NatToString(w), true, f);
    DecimalNumeralValue(w, f);
  }

  /** float() rejects digits followed by a character that cannot continue a number. */
  lemma {:induction false} FloatRejectsTrailing(d: string, c: char)
    requires |d| > 0 && AllDigits(d)
    requires !IsDigit(c) && !IsSpace(c) && c !in {'.', 'e', 'E'}
    ensures ParseFloat(d + [c]) == None
  {
    var u := d + [c];
    assert Stripped(u) by {
      DigitNotSpace(d[0]);
    }
    FloatOfStripped(u);
    assert ParseSigned(u) == ParseUnsigned(u) by {
      DigitNotSpace(d[0]);
      SignedOfDigit(u);
    }
    assert forall j :: 0 <= j < |u| ==> u[j] !in {'e', 'E'} && u[j] !in {'.'} by {
      forall j | 0 <= j < |u| ensures u[j] !in {'e', 'E'} && u[j] !in {'.'} {
        if j < |d| {
          assert u[j] == d[j];
          DigitNotSpace(d[j]);
        }
      }
    }
    UnsignedWithoutExponent(u);
    FirstIndexOfAbsent(u, {'.'});
    assert u[..|u|] == u;
    assert !AllDigits(u) by {
      assert !IsDigit(u[|u| - 1]);
    }
  }

  /** int() of an optional minus sign followed by digits. */
  lemma IntOfSigned(negative: bool, d: string)
    requires |d| > 0 && AllDigits(d)
    ensures ParseInt((if negative then "-" else "") + d)
         == Some(if negative then -(DigitsValue(d) as int) else DigitsValue(d))
  {
    var t := (if negative then "-" else "") + d;
    if negative {
      assert t == "-" + d && t[1..] == d;
    } else {
      assert t == d;
    }
    DigitNotSpace(d[0]);
    StripStripped(t);
  }

  /** int() reads back what %d renders. */
  lemma IntOfInt(i: int)
    ensures ParseInt(IntToString(i)) == Some(i)
  {
    var n := if i < 0 then -i else i;
    DigitsOfNat(n);
    IntOfSigned(i < 0, NatToString(n));
  }

  /** int() reads back what %d renders for a natural number. */
  lemma IntOfNat(n: nat)
    ensures ParseInt(NatToString(n)) == Some(n)
  {
    IntOfInt(n);
    assert IntToString(n) == NatToString(n);
  }

  /** float() ignores surrounding whitespace. */
  lemma FloatPadding(w1: string, s: string, w2: string)
    requires AllSpace(w1) && AllSpace(w2)
    ensures ParseFloat(w1 + s + w2) == ParseFloat(s)
  {
    StripPadding(w1, s, w2);
  }

  /** int() ignores surrounding whitespace. */
  lemma IntPadding(w1: string, s: string, w2: string)
    requires AllSpace(w1) && AllSpace(w2)
    ensures ParseInt(w1 + s + w2) == ParseInt(s)
  {
    StripPadding(w1, s, w2);
  }
}
