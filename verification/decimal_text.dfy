/**
 The textual form of a price. The producer stores every price as the string
 `str(price)` and reads the history back with `float(metric)`; this module
 models both directions on exact decimals and proves that reading back a
 stored price gives the price itself.
 */
module DecimalText {
  import opened Wrappers

  /** A finite decimal number `mantissa / 10^scale`, the exact value of a quoted price. */
  datatype Decimal = Decimal(mantissa: int, scale: nat) {
    function Value(): real {
      Scaled(mantissa, scale)
    }
  }

  /** The real number `m / 10^scale`: `m` with the point moved `scale` places to the left. */
  function Scaled(m: int, scale: nat): (r: real)
    ensures m >= 0 ==> r >= 0.0
  {
    if scale == 0 then m as real else Scaled(m, scale - 1) / 10.0
  }

  lemma {:induction false} ScaledIsQuotient(m: int, scale: nat)
    ensures Scaled(m, scale) == m as real / Pow10(scale) as real
  {
    if scale > 0 {
      ScaledIsQuotient(m, scale - 1);
      var q := Pow10(scale - 1) as real;
      assert Pow10(scale) as real == 10.0 * q;
      assert (m as real / q) / 10.0 == m as real / (10.0 * q);
    }
  }

  lemma {:induction false} ScaledNegate(m: int, scale: nat)
    ensures Scaled(-m, scale) == -Scaled(m, scale)
  {
    if scale > 0 {
      ScaledNegate(m, scale - 1);
    }
  }

  function Pow10(n: nat): (p: nat)
    ensures p >= 1
  {
    if n == 0 then 1 else 10 * Pow10(n - 1)
  }

  predicate IsDigit(c: char) {
    '0' <= c <= '9'
  }

  predicate AllDigits(s: string) {
    forall i :: 0 <= i < |s| ==> IsDigit(s[i])
  }

  function DigitValue(c: char): (d: nat)
    requires IsDigit(c)
    ensures d < 10
  {
    (c as int) - ('0' as int)
  }

  function DigitChar(d: nat): (c: char)
    requires d < 10
    ensures IsDigit(c) && DigitValue(c) == d
  {
    ('0' as int + d) as char
  }

  /** The number a string of decimal digits denotes, most significant digit first. */
  function DigitsValue(s: string): nat
    requires AllDigits(s)
    decreases |s|
  {
    if |s| == 0 then 0 else DigitsValue(s[..|s| - 1]) * 10 + DigitValue(s[|s| - 1])
  }

  /** Writing `b` after `a` shifts `a` left by `|b|` decimal places. */
  lemma {:induction false} DigitsValueAppend(a: string, b: string)
    requires AllDigits(a) && AllDigits(b)
    ensures AllDigits(a + b)
    ensures DigitsValue(a + b) == DigitsValue(a) * Pow10(|b|) + DigitsValue(b)
    decreases |b|
  {
    AllDigitsAppend(a, b);
    var ab := a + b;
    if |b| == 0 {
      assert ab == a;
    } else {
      var b' := b[..|b| - 1];
      var last := DigitValue(b[|b| - 1]);
      assert ab[..|ab| - 1] == a + b';
      assert ab[|ab| - 1] == b[|b| - 1];
      DigitsValueAppend(a, b');
      assert DigitsValue(ab) == DigitsValue(a + b') * 10 + last;
      assert DigitsValue(b) == DigitsValue(b') * 10 + last;
      ShiftDigit(DigitsValue(a), Pow10(|b'|), DigitsValue(b'), last);
    }
  }

  lemma AllDigitsAppend(a: string, b: string)
    requires AllDigits(a) && AllDigits(b)
    ensures AllDigits(a + b)
  {
    var ab := a + b;
    forall i | 0 <= i < |ab| ensures IsDigit(ab[i]) {
      if i < |a| { assert ab[i] == a[i]; } else { assert ab[i] == b[i - |a|]; }
    }
  }

  /** One more digit `d` after `x * p + y` is `x * (10 * p) + (10 * y + d)`. */
  lemma ShiftDigit(x: nat, p: nat, y: nat, d: nat)
    ensures (x * p + y) * 10 + d == x * (10 * p) + (y * 10 + d)
  {
  }

  /** Leading zeros do not change the denoted number. */
  lemma {:induction false} LeadingZeros(k: nat, s: string)
    requires AllDigits(s)
    ensures AllDigits(Zeros(k) + s)
    ensures DigitsValue(Zeros(k) + s) == DigitsValue(s)
  {
    DigitsValueAppend(Zeros(k), s);
    ZerosValue(k);
  }

  function Zeros(k: nat): (z: string)
    ensures |z| == k && AllDigits(z)
    ensures forall i :: 0 <= i < k ==> z[i] == '0'
  {
    if k == 0 then [] else Zeros(k - 1) + ['0']
  }

  lemma {:induction false} ZerosValue(k: nat)
    ensures DigitsValue(Zeros(k)) == 0
  {
    if k > 0 {
      assert Zeros(k)[..k - 1] == Zeros(k - 1);
      ZerosValue(k - 1);
    }
  }

  /** The shortest decimal digit string of `n` (no leading zeros, "0" for zero). */
  function NatToDigits(n: nat): (s: string)
    ensures 1 <= |s| && AllDigits(s)
    ensures DigitsValue(s) == n
    decreases n
  {
    if n < 10 then
      var s := [DigitChar(n)];
      assert s[..0] == [];
      s
    else
      var front := NatToDigits(n / 10);
      var s := front + [DigitChar(n % 10)];
      assert s[..|s| - 1] == front;
      s
  }

  /** Left-pads a digit string with zeros up to `width` characters. */
  function PadLeft(s: string, width: nat): (p: string)
    requires AllDigits(s)
    ensures AllDigits(p) && |p| == if |s| < width then width else |s|
    ensures DigitsValue(p) == DigitsValue(s)
  {
    var k := if |s| < width then width - |s| else 0;
    LeadingZeros(k, s);
    Zeros(k) + s
  }

  /** Index of the first occurrence of `c` in `s`, or `|s|` when there is none. */
  function IndexOf(s: string, c: char): (i: nat)
    ensures i <= |s|
    ensures forall j :: 0 <= j < i ==> s[j] != c
    ensures i < |s| ==> s[i] == c
  {
    if |s| == 0 then 0
    else if s[0] == c then 0
    else 1 + IndexOf(s[1..], c)
  }

  /**
   `str(price)` for a decimal: an optional minus sign, the integer digits
   (at least one), and, when the scale is positive, a point followed by
   exactly `scale` fraction digits.
   */
  function Format(d: Decimal): (s: string)
    ensures |s| >= 1
    ensures (s[0] == '-') <==> d.mantissa < 0
  {
    SignPrefix(d.mantissa < 0) + FormatBody(ScaledDigits(d), d.scale)
  }

  function SignPrefix(negative: bool): string {
    if negative then "-" else ""
  }

  function Magnitude(m: int): nat {
    if m < 0 then -m else m
  }

  /** The digits of `|mantissa|`, zero-padded so that at least one digit precedes the point. */
  function ScaledDigits(d: Decimal): (digits: string)
    ensures AllDigits(digits) && |digits| > d.scale
    ensures DigitsValue(digits) == Magnitude(d.mantissa)
  {
    PadLeft(NatToDigits(Magnitude(d.mantissa)), d.scale + 1)
  }

  /** Places the decimal point `scale` digits from the right. */
  function FormatBody(digits: string, scale: nat): (body: string)
    requires AllDigits(digits) && |digits| > scale
    ensures |body| >= 1 && IsDigit(body[0])
  {
    var n := |digits|;
    if scale == 0 then digits else digits[..n - scale] + "." + digits[n - scale..]
  }

  /**
   `float(text)` restricted to plain decimal literals: an optional sign,
   then digits with at most one decimal point and at least one digit.
   Every other string is rejected.
   */
  function Parse(s: string): (r: Option<real>)
    ensures r.Some? ==> |s| >= 1
    ensures r.Some? && s[0] != '-' ==> r.value >= 0.0
    ensures r.Some? && s[0] == '-' ==> r.value <= 0.0
  {
    if |s| > 0 && (s[0] == '-' || s[0] == '+') then
      match ParseUnsigned(s[1..])
      case None => None
      case Some(v) => Some(if s[0] == '-' then -v else v)
    else
      ParseUnsigned(s)
  }

  /** An unsigned decimal literal: `digits`, `digits.digits`, `digits.` or `.digits`. */
  function ParseUnsigned(s: string): (r: Option<real>)
    ensures r.Some? ==> r.value >= 0.0
  {
    var i := IndexOf(s, '.');
    if i == |s| then
      if |s| > 0 && AllDigits(s) then Some(DigitsValue(s) as real) else None
    else
      var whole := s[..i];
      var frac := s[i + 1..];
      if AllDigits(whole) && AllDigits(frac) && |whole| + |frac| > 0 then
        Some(PointValue(whole, frac))
      else
        None
  }

  /** The value of the literal `whole.frac`. */
  function PointValue(whole: string, frac: string): real
    requires AllDigits(whole) && AllDigits(frac)
  {
    DigitsValue(whole) as real + Scaled(DigitsValue(frac), |frac|)
  }

  /**
   The accepted unsigned syntax, stated without reference to the parser:
   the characters are digits and at most one point, and there is a digit.
   */
  predicate UnsignedLiteral(s: string) {
    && (forall i :: 0 <= i < |s| ==> IsDigit(s[i]) || s[i] == '.')
    && (forall i, j :: 0 <= i < j < |s| && s[i] == '.' ==> s[j] != '.')
    && (exists i :: 0 <= i < |s| && IsDigit(s[i]))
  }

  /** The parser accepts exactly the unsigned literals. */
  lemma ParseUnsignedAccepts(s: string)
    ensures ParseUnsigned(s).Some? <==> UnsignedLiteral(s)
  {
  }

  /** Reading back a stored price yields exactly the price. */
  lemma FormatParseRoundTrip(d: Decimal)
    ensures Parse(Format(d)) == Some(d.Value())
  {
    var magnitude := Magnitude(d.mantissa);
    var body := FormatBody(ScaledDigits(d), d.scale);
    BodyRoundTrip(ScaledDigits(d), d.scale);
    SignedRoundTrip(body, d.mantissa < 0, Scaled(magnitude, d.scale));
    if d.mantissa < 0 {
      ScaledNegate(magnitude, d.scale);
    }
  }

  /** A sign in front of an unsigned literal negates its value or leaves it alone. */
  lemma SignedRoundTrip(body: string, negative: bool, v: real)
    requires |body| >= 1 && IsDigit(body[0])
    requires ParseUnsigned(body) == Some(v)
    ensures Parse(SignPrefix(negative) + body) == Some(if negative then -v else v)
  {
    if negative {
      NegativeRoundTrip(body, v);
    } else {
      assert SignPrefix(negative) + body == body;
      assert body[0] != '-' && body[0] != '+';
    }
  }

  lemma NegativeRoundTrip(body: string, v: real)
    requires ParseUnsigned(body) == Some(v)
    ensures Parse("-" + body) == Some(-v)
  {
    var s := "-" + body;
    assert s[0] == '-';
    assert s[1..] == body;
  }

  lemma BodyRoundTrip(digits: string, scale: nat)
    requires AllDigits(digits) && |digits| > scale
    ensures ParseUnsigned(FormatBody(digits, scale)) == Some(Scaled(DigitsValue(digits), scale))
  {
    if scale == 0 {
      ParseDigitsOnly(digits);
    } else {
      PointedRoundTrip(digits, scale);
    }
  }

  lemma PointedRoundTrip(digits: string, scale: nat)
    requires AllDigits(digits) && |digits| > scale > 0
    ensures ParseUnsigned(FormatBody(digits, scale)) == Some(Scaled(DigitsValue(digits), scale))
  {
    var n := |digits|;
    var whole := digits[..n - scale];
    var frac := digits[n - scale..];
    assert AllDigits(whole) && AllDigits(frac) by {
      assert forall i :: 0 <= i < |whole| ==> whole[i] == digits[i];
      assert forall i :: 0 <= i < |frac| ==> frac[i] == digits[n - scale + i];
    }
    assert digits == whole + frac;
    assert FormatBody(digits, scale) == whole + "." + frac;
    ParseWithPoint(whole, frac);
    PointValueScaled(whole, frac);
  }

  lemma ParseDigitsOnly(s: string)
    requires AllDigits(s) && |s| > 0
    ensures ParseUnsigned(s) == Some(Scaled(DigitsValue(s), 0))
  {
    assert forall j :: 0 <= j < |s| ==> s[j] != '.';
  }

  lemma ParseWithPoint(whole: string, frac: string)
    requires AllDigits(whole) && AllDigits(frac) && |whole| > 0
    ensures ParseUnsigned(whole + "." + frac) == Some(PointValue(whole, frac))
  {
    var s := whole + "." + frac;
    var n := |whole|;
    assert s[n] == '.';
    assert forall j :: 0 <= j < n ==> s[j] == whole[j];
    assert IndexOf(s, '.') == n;
    assert s[..n] == whole;
    assert s[n + 1..] == frac;
  }

  /** Moving the point: `whole.frac` is the digits of `whole + frac` scaled down by `|frac|` places. */
  lemma PointValueScaled(whole: string, frac: string)
    requires AllDigits(whole) && AllDigits(frac)
    ensures AllDigits(whole + frac)
    ensures PointValue(whole, frac) == Scaled(DigitsValue(whole + frac), |frac|)
  {
    DigitsValueAppend(whole, frac);
    ScaledIsQuotient(DigitsValue(frac), |frac|);
    ScaledIsQuotient(DigitsValue(whole + frac), |frac|);
    ShiftPoint(DigitsValue(whole), DigitsValue(frac), Pow10(|frac|));
  }

  /** `w + f / p` is the number whose `p`-scaled value is `w * p + f`. */
  lemma ShiftPoint(w: nat, f: nat, p: nat)
    requires p >= 1
    ensures w as real + f as real / p as real == (w * p + f) as real / p as real
  {
    var wr, fr, pr := w as real, f as real, p as real;
    assert (w * p + f) as real == wr * pr + fr;
    assert (wr * pr + fr) / pr == wr + fr / pr;
  }

  /** A whole number written in plain digits reads back as itself. */
  lemma ParseWholeNumber(n: nat)
    ensures Parse(NatToDigits(n)) == Some(n as real)
  {
    var s := NatToDigits(n);
    ParseDigitsOnly(s);
    assert s[0] != '-' && s[0] != '+';
  }
}
