/** The two number conversions the protocol engine performs on its text:
    `f"{value:07.1f}"` when a set value is sent, and `float(value)` when a
    read value comes back. Numbers are exact decimals here: a value in tenths
    on the way out, a mantissa with a count of fraction digits on the way in. */
module FixedPoint {
  import opened Ascii

  /** The number `mantissa / 10^scale`, which is what a decimal literal such
      as "-0150.0" denotes before Python rounds it to a binary float. */
  datatype Decimal = Decimal(mantissa: int, scale: nat)

  function Pow10(k: nat): (r: nat)
    ensures r >= 1
  {
    if k == 0 then 1 else 10 * Pow10(k - 1)
  }

  predicate IsDigit(c: char) {
    '0' <= c <= '9'
  }

  predicate IsDigits(s: string) {
    forall i :: 0 <= i < |s| ==> IsDigit(s[i])
  }

  function DigitValue(c: char): (d: nat)
    requires IsDigit(c)
    ensures d < 10
  {
    c as int - '0' as int
  }

  function DigitChar(d: nat): (c: char)
    requires d < 10
    ensures IsDigit(c) && DigitValue(c) == d
  {
    ('0' as int + d) as char
  }

  /** The value of a string of decimal digits, read left to right. */
  function DigitsValue(s: string): nat
    requires IsDigits(s)
  {
    if s == [] then 0 else DigitsValue(s[..|s| - 1]) * 10 + DigitValue(s[|s| - 1])
  }

  /** The shortest decimal digits of `n`, as `str(n)` prints them. */
  function Digits(n: nat): (s: string)
    ensures |s| >= 1 && IsDigits(s)
  {
    if n < 10 then [DigitChar(n)] else Digits(n / 10) + [DigitChar(n % 10)]
  }

  function Zeros(k: nat): (s: string)
    ensures |s| == k && IsDigits(s)
    ensures forall i :: 0 <= i < k ==> s[i] == '0'
  {
    if k == 0 then [] else Zeros(k - 1) + ['0']
  }

  /** `f"{value:07.1f}"` for a value given in tenths: a minus sign for a
      negative value, then the magnitude zero-padded to fill the rest of the
      minimum width of seven characters. */
  function FormatTenths(tenths: int): string {
    var sign := if tenths < 0 then "-" else "";
    sign + ZeroPad(7 - |sign|, Magnitude(if tenths < 0 then -tenths else tenths))
  }

  /** The magnitude of a value in tenths: its integer part, a point, and its
      one fraction digit. */
  function Magnitude(a: nat): string {
    Digits(a / 10) + "." + [DigitChar(a % 10)]
  }

  /** Zeros in front of `body` up to `width` characters, when it is shorter. */
  function ZeroPad(width: int, body: string): string {
    Zeros(if width - |body| > 0 then width - |body| else 0) + body
  }

  /** The number of leading digits of `s`. */
  function LeadingDigits(s: string): (k: nat)
    ensures k <= |s| && IsDigits(s[..k])
    ensures k < |s| ==> !IsDigit(s[k])
  {
    if s == [] || !IsDigit(s[0]) then 0
    else
      var k := LeadingDigits(s[1..]);
      assert s[..k + 1] == [s[0]] + s[1..][..k];
      k + 1
  }

  /** `float(text)` on the decimal-literal forms: an optional sign, then
      digits with at most one point among them and at least one digit in
      all; anything else raises ValueError, reported here as `None`. */
  function ParseDecimal(text: string): Option<Decimal> {
    if |text| > 0 && text[0] == '-' then
      match ParseUnsigned(text[1..])
      case Some(d) => Some(Decimal(-d.mantissa, d.scale))
      case None => None
    else if |text| > 0 && text[0] == '+' then ParseUnsigned(text[1..])
    else ParseUnsigned(text)
  }

  /** An unsigned literal: digits, or digits, a point and digits, with at
      least one digit in all. */
  function ParseUnsigned(u: string): Option<Decimal> {
    if IsDigits(u) then
      if u == [] then None else Some(Decimal(DigitsValue(u), 0))
    else
      var k := LeadingDigits(u);
      if u[k] == '.' && IsDigits(u[k + 1..]) && |u| > 1 then
        IsDigitsAppend(u[..k], u[k + 1..]);
        Some(Decimal(DigitsValue(u[..k] + u[k + 1..]), |u| - k - 1))
      else
        None
  }

  lemma IsDigitsAppend(a: string, b: string)
    ensures IsDigits(a + b) <==> IsDigits(a) && IsDigits(b)
  {
    if IsDigits(a + b) {
      forall i | 0 <= i < |a| ensures IsDigit(a[i]) { assert (a + b)[i] == a[i]; }
      forall i | 0 <= i < |b| ensures IsDigit(b[i]) { assert (a + b)[|a| + i] == b[i]; }
    }
  }

  /** Reading digits is positional: the digits of `a` are worth `10^|b|`
      times more than they would be alone. */
  lemma {:induction false} DigitsValueAppend(a: string, b: string)
    requires IsDigits(a) && IsDigits(b)
    ensures IsDigits(a + b)
    ensures DigitsValue(a + b) == DigitsValue(a) * Pow10(|b|) + DigitsValue(b)
    decreases |b|
  {
    IsDigitsAppend(a, b);
    if b == [] {
      assert a + b == a;
    } else {
      var b' := b[..|b| - 1];
      assert IsDigits(b');
      assert (a + b)[..|a + b| - 1] == a + b';
      assert b[..|b| - 1] == b';
      DigitsValueAppend(a, b');
      var x, p, y, d := DigitsValue(a), Pow10(|b'|), DigitsValue(b'), DigitValue(b[|b| - 1]);
      assert DigitsValue(a + b) == DigitsValue(a + b') * 10 + d;
      assert DigitsValue(b) == y * 10 + d;
      assert Pow10(|b|) == 10 * p;
      ShiftDigit(x, p, y, d);
    }
  }

  lemma ShiftDigit(x: int, p: int, y: int, d: int)
    ensures (x * p + y) * 10 + d == x * (10 * p) + (y * 10 + d)
  {
  }

  /** Leading zeros do not change the value of a digit string. */
  lemma LeadingZeros(k: nat, s: string)
    requires IsDigits(s)
    ensures IsDigits(Zeros(k) + s) && DigitsValue(Zeros(k) + s) == DigitsValue(s)
  {
    ZerosValue(k);
    DigitsValueAppend(Zeros(k), s);
  }

  lemma {:induction false} ZerosValue(k: nat)
    ensures DigitsValue(Zeros(k)) == 0
  {
    if k > 0 {
      assert Zeros(k)[..k - 1] == Zeros(k - 1);
      ZerosValue(k - 1);
    }
  }

  /** Reading back the digits of `n` gives `n`. */
  lemma {:induction false} DigitsRoundTrip(n: nat)
    ensures DigitsValue(Digits(n)) == n
  {
    if n >= 10 {
      var s := Digits(n);
      assert s[..|s| - 1] == Digits(n / 10);
      DigitsRoundTrip(n / 10);
    }
  }

  /** `Digits(n)` fits in `k` characters exactly when `n < 10^k`. */
  lemma {:induction false} DigitsLength(n: nat, k: nat)
    requires k >= 1
    ensures |Digits(n)| <= k <==> n < Pow10(k)
  {
    if n >= 10 {
      if k == 1 {
        assert |Digits(n)| >= 2 by { assert |Digits(n)| == |Digits(n / 10)| + 1; }
      } else {
        DigitsLength(n / 10, k - 1);
      }
    }
  }

  /** The number of leading digits of a digit string followed by a
      non-digit is that string's length. */
  lemma {:induction false} LeadingDigitsOf(a: string, rest: string)
    requires IsDigits(a) && rest != [] && !IsDigit(rest[0])
    ensures LeadingDigits(a + rest) == |a|
    decreases |a|
  {
    if a == [] {
      assert a + rest == rest;
    } else {
      var s := a + rest;
      assert s[0] == a[0] && IsDigit(s[0]);
      assert s[1..] == a[1..] + rest;
      assert IsDigits(a[1..]) by {
        forall i | 0 <= i < |a| - 1 ensures IsDigit(a[1..][i]) { assert a[1..][i] == a[i + 1]; }
      }
      LeadingDigitsOf(a[1..], rest);
    }
  }

  /** The formatted text is ASCII, so sending it never fails to encode. */
  lemma FormatIsAscii(tenths: int)
    ensures IsAsciiText(FormatTenths(tenths))
  {
    var a := if tenths < 0 then -tenths else tenths;
    var sign := if tenths < 0 then "-" else "";
    var u := ZeroPad(7 - |sign|, Magnitude(a));
    var whole := Zeros(|u| - |Magnitude(a)|) + Digits(a / 10);
    IsDigitsAppend(Zeros(|u| - |Magnitude(a)|), Digits(a / 10));
    assert u == whole + "." + [DigitChar(a % 10)];
    var s := FormatTenths(tenths);
    assert s == sign + u;
    forall i | 0 <= i < |s| ensures s[i] as int < 0x80 {
      if i >= |sign| {
        var j := i - |sign|;
        assert s[i] == u[j];
        if j < |whole| { assert u[j] == whole[j]; }
      }
    }
  }

  /** `07.1f` is a minimum width: seven characters exactly when the value
      lies in [-9999.9, 99999.9], and more otherwise. */
  lemma FormatWidth(tenths: int)
    ensures |FormatTenths(tenths)| >= 7
    ensures |FormatTenths(tenths)| == 7 <==> -99999 <= tenths <= 999999
  {
    var a := if tenths < 0 then -tenths else tenths;
    if tenths < 0 {
      DigitsLength(a / 10, 4);
    } else {
      DigitsLength(a / 10, 5);
    }
    assert Pow10(4) == 10000 && Pow10(5) == 100000;
  }

  /** A literal `whole.frac` reads as the digits of `whole` and `frac`
      together, with `|frac|` fraction digits. */
  lemma ParsePointed(whole: string, frac: string)
    requires IsDigits(whole) && IsDigits(frac) && |whole| + |frac| >= 1
    ensures IsDigits(whole + frac)
    ensures ParseUnsigned(whole + "." + frac) == Some(Decimal(DigitsValue(whole + frac), |frac|))
  {
    IsDigitsAppend(whole, frac);
    var u := whole + "." + frac;
    assert u == whole + ("." + frac);
    LeadingDigitsOf(whole, "." + frac);
    var k := |whole|;
    assert u[k] == '.' && u[k + 1..] == frac && u[..k] == whole;
    assert !IsDigits(u) by { assert !IsDigit(u[k]); }
  }

  /** The padded magnitude of a formatted value reads back as its tenths. */
  lemma ParseTenths(width: int, a: nat)
    ensures ParseUnsigned(ZeroPad(width, Magnitude(a))) == Some(Decimal(a, 1))
  {
    var q, d := a / 10, a % 10;
    var k := |ZeroPad(width, Magnitude(a))| - |Magnitude(a)|;
    var whole, frac := Zeros(k) + Digits(q), [DigitChar(d)];
    assert ZeroPad(width, Magnitude(a)) == whole + "." + frac;
    LeadingZeros(k, Digits(q));
    ParsePointed(whole, frac);
    DigitsValueAppend(whole, frac);
    DigitsRoundTrip(q);
    assert Pow10(|frac|) == 10;
    assert DigitsValue(frac) == d by { assert frac[..0] == []; }
    assert DigitsValue(whole + frac) == a;
  }

  /** A padded magnitude starts with a digit. */
  lemma PaddedStartsWithDigit(width: int, a: nat)
    ensures var u := ZeroPad(width, Magnitude(a)); u != [] && IsDigit(u[0])
  {
    var u := ZeroPad(width, Magnitude(a));
    var k := |u| - |Magnitude(a)|;
    if k == 0 {
      assert u[0] == Digits(a / 10)[0];
    } else {
      assert u[0] == Zeros(k)[0];
    }
  }

  /** A minus sign negates what the unsigned part reads as; without a sign,
      a literal that starts with a digit reads as its unsigned part. */
  lemma ParseSigned(negative: bool, u: string, d: Decimal)
    requires ParseUnsigned(u) == Some(d)
    requires !negative ==> u != [] && IsDigit(u[0])
    ensures ParseDecimal((if negative then "-" else "") + u)
         == Some(if negative then Decimal(-d.mantissa, d.scale) else d)
  {
    var text := (if negative then "-" else "") + u;
    if negative {
      assert text[0] == '-' && text[1..] == u;
      assert ParseDecimal(text) == Some(Decimal(-d.mantissa, d.scale));
    } else {
      assert text == u;
      assert u[0] != '-' && u[0] != '+';
      assert ParseDecimal(text) == ParseUnsigned(u);
    }
  }

  /** Reading back a formatted value gives the value in tenths. */
  lemma FormatRoundTrip(tenths: int)
    ensures ParseDecimal(FormatTenths(tenths)) == Some(Decimal(tenths, 1))
  {
    var a := if tenths < 0 then -tenths else tenths;
    var width := 7 - |(if tenths < 0 then "-" else "")|;
    ParseTenths(width, a);
    PaddedStartsWithDigit(width, a);
    ParseSigned(tenths < 0, ZeroPad(width, Magnitude(a)), Decimal(a, 1));
  }

  /** The set value of the unit tests, -150.0, as `07.1f` prints it. */
  lemma FormatNegativeExample()
    ensures FormatTenths(-1500) == "-0150.0"
  {
    assert Digits(150) == "150";
  }

  /** The set value 100.0 as `07.1f` prints it: zero-padded on the left. */
  lemma FormatPositiveExample()
    ensures FormatTenths(1000) == "00100.0"
  {
    assert Digits(100) == "100";
  }

  /** The value read back in the unit tests: "-0150.0" is -150.0. */
  lemma ParseExample()
    ensures ParseDecimal("-0150.0") == Some(Decimal(-1500, 1))
  {
    FormatNegativeExample();
    FormatRoundTrip(-1500);
  }
}
