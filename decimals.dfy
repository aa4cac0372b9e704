/**
 * Python `Decimal` values as far as `convert_amount` and the `:.2f` format use them:
 * exact products, `quantize(Decimal('0.01'))` under the default context
 * (ROUND_HALF_EVEN), parsing of the amount text and two-decimal printing.
 */
module Decimals {
  import opened Wrappers
  import opened Numerals
  import opened Text

  /**
   * A decimal number (-1)^neg * mag / 10^scale. The sign is kept apart from the
   * magnitude because Python's Decimal has a negative zero, and it prints as "-0.00".
   */
  datatype Dec = Dec(neg: bool, mag: nat, scale: nat)

  /** The exact number a `Dec` stands for. */
  function Value(d: Dec): real {
    var v := d.mag as real / Pow10(d.scale) as real;
    if d.neg then -v else v
  }

  /** Python's `d >= 0` on a Decimal: true of both zeros. */
  predicate IsNonNegative(d: Dec) {
    !d.neg || d.mag == 0
  }

  lemma NonNegativeValue(d: Dec)
    ensures IsNonNegative(d) <==> Value(d) >= 0.0
  {
    var v := d.mag as real / Pow10(d.scale) as real;
    assert d.mag > 0 ==> v > 0.0;
    assert d.mag == 0 ==> v == 0.0;
  }

  /** Python's `abs(d)`: the magnitude, with the sign cleared, also that of a negative zero. */
  function Abs(d: Dec): (r: Dec)
    ensures !r.neg && r.mag == d.mag && r.scale == d.scale
    ensures Value(r) == if Value(d) >= 0.0 then Value(d) else -Value(d)
  {
    NonNegativeValue(d);
    Dec(false, d.mag, d.scale)
  }

  lemma RealFraction(x: nat, y: nat, p: nat, q: nat)
    requires p > 0 && q > 0
    ensures (x as real / p as real) * (y as real / q as real) == (x * y) as real / (p * q) as real
  {
  }

  /** Decimal multiplication, exact (MulExact): the sign is the exclusive or of the operands' signs. */
  function Mul(a: Dec, b: Dec): (p: Dec)
    ensures p.neg == (a.neg != b.neg)
  {
    Dec(a.neg != b.neg, a.mag * b.mag, a.scale + b.scale)
  }

  lemma SignedProduct(na: bool, nb: bool, x: real, y: real)
    ensures (if na then -x else x) * (if nb then -y else y) == if na != nb then -(x * y) else x * y
  {
  }

  /** The value of a product is the product of the values: no digit is lost. */
  lemma MulExact(a: Dec, b: Dec)
    ensures Value(Mul(a, b)) == Value(a) * Value(b)
  {
    var x := a.mag as real / Pow10(a.scale) as real;
    var y := b.mag as real / Pow10(b.scale) as real;
    Pow10Add(a.scale, b.scale);
    RealFraction(a.mag, b.mag, Pow10(a.scale), Pow10(b.scale));
    assert (a.mag * b.mag) as real / Pow10(a.scale + b.scale) as real == x * y;
    SignedProduct(a.neg, b.neg, x, y);
  }

  /**
   * `q` is `n / d` rounded to the nearest integer, a tie going to the even one:
   * |n - q*d| is at most d/2, and exactly d/2 only when q is even.
   */
  predicate NearestEven(n: nat, d: nat, q: nat)
    requires d > 0
  {
    var dist := if n >= q * d then n - q * d else q * d - n;
    2 * dist <= d && (2 * dist == d ==> q % 2 == 0)
  }

  function RoundHalfEven(n: nat, d: nat): (q: nat)
    requires d > 0
    ensures NearestEven(n, d, q)
  {
    var f, r := n / d, n % d;
    assert n == f * d + r;
    assert (f + 1) * d == f * d + d;
    if 2 * r < d then f
    else if 2 * r > d then f + 1
    else if f % 2 == 0 then f
    else f + 1
  }

  lemma MulBounds(k: nat, d: nat)
    ensures k >= 1 ==> k * d >= d
    ensures k >= 2 ==> k * d >= 2 * d
  {
    if k >= 1 { assert k * d == d + (k - 1) * d; }
    if k >= 2 { assert (k - 1) * d == d + (k - 2) * d; }
  }

  /** The rounding rule leaves no choice: at most one integer satisfies it. */
  lemma NearestEvenUnique(n: nat, d: nat, q1: nat, q2: nat)
    requires d > 0 && NearestEven(n, d, q1) && NearestEven(n, d, q2)
    ensures q1 == q2
  {
    if q1 < q2 {
      assert q2 * d - q1 * d == (q2 - q1) * d;
      MulBounds(q2 - q1, d);
    } else if q2 < q1 {
      assert q1 * d - q2 * d == (q1 - q2) * d;
      MulBounds(q1 - q2, d);
    }
  }

  /** The number of fractional digits both `d` and a multiple of 0.01 can be written with. */
  function CommonScale(d: Dec): (s: nat)
    ensures s >= 2 && s >= d.scale
  {
    if d.scale < 2 then 2 else d.scale
  }

  /**
   * `c` hundredths is the magnitude of `d` rounded half-even to a multiple of 0.01:
   * both are brought to CommonScale(d) fractional digits and compared there.
   */
  predicate RoundsToCents(d: Dec, c: nat) {
    var s := CommonScale(d);
    NearestEven(d.mag * Pow10(s - d.scale), Pow10(s - 2), c)
  }

  /** `d.quantize(Decimal('0.01'))` under the default context (ROUND_HALF_EVEN); the sign is kept. */
  function Quantize(d: Dec): (q: Dec)
    ensures q.scale == 2 && q.neg == d.neg
    ensures RoundsToCents(d, q.mag)
  {
    if d.scale <= 2 then Dec(d.neg, d.mag * Pow10(2 - d.scale), 2)
    else Dec(d.neg, RoundHalfEven(d.mag, Pow10(d.scale - 2)), 2)
  }

  /** Quantize is the only rounding to cents the rule admits. */
  lemma QuantizeUnique(d: Dec, c: nat)
    requires RoundsToCents(d, c)
    ensures Quantize(d).mag == c
  {
    var s := CommonScale(d);
    NearestEvenUnique(d.mag * Pow10(s - d.scale), Pow10(s - 2), c, Quantize(d).mag);
  }

  /** Quantizing what is already in cents changes nothing. */
  lemma QuantizeIdempotent(d: Dec)
    ensures Quantize(Quantize(d)) == Quantize(d)
  {
    var q := Quantize(d);
    assert Pow10(0) == 1;
    assert Quantize(q) == Dec(q.neg, q.mag, 2);
  }

  lemma ScaleFraction(x: nat, p: nat, e: nat)
    requires p > 0 && e > 0
    ensures x as real / p as real == (x * e) as real / (p * e) as real
  {
  }

  lemma DivAtMost(a: real, b: real, c: real)
    requires b > 0.0 && a <= c * b
    ensures a / b <= c
  {
    var z := a / b;
    assert z * b == a;
    assert (z - c) * b == a - c * b;
  }

  lemma HalfUnitBound(x: real, y: real, dist: real, d: real, p: real)
    requires d > 0.0 && p == 100.0 * d
    requires -dist <= x - y <= dist && 2.0 * dist <= d
    ensures -0.005 <= x / p - y / p <= 0.005
  {
    assert x / p - y / p == (x - y) / p;
    DivAtMost(x - y, p, 0.005);
    DivAtMost(y - x, p, 0.005);
    assert (y - x) / p == -((x - y) / p);
  }

  lemma DistReal(a: nat, b: nat, dist: nat)
    requires dist == if a >= b then a - b else b - a
    ensures -(dist as real) <= a as real - b as real <= dist as real
  {
  }

  lemma CentsClose(m: nat, c: nat, e: nat, d: nat, ps: nat)
    requires ps > 0 && e > 0 && d > 0 && ps * e == 100 * d
    requires NearestEven(m * e, d, c)
    ensures -0.005 <= c as real / 100.0 - m as real / ps as real <= 0.005
  {
    var big, cd := m * e, c * d;
    var dist := if big >= cd then big - cd else cd - big;
    DistReal(cd, big, dist);
    HalfUnitBound(cd as real, big as real, dist as real, d as real, (ps * e) as real);
    ScaleFraction(m, ps, e);
    ScaleFraction(c, 100, d);
  }

  lemma MagnitudeClose(m: nat, s: nat, c: nat)
    requires RoundsToCents(Dec(false, m, s), c)
    ensures -0.005 <= c as real / 100.0 - m as real / Pow10(s) as real <= 0.005
  {
    var t := CommonScale(Dec(false, m, s));
    Pow10Add(s, t - s);
    Pow10Add(2, t - 2);
    assert Pow10(2) == 100;
    CentsClose(m, c, Pow10(t - s), Pow10(t - 2), Pow10(s));
  }

  /** The rounded value is within half a cent of the exact one. */
  lemma QuantizeWithinHalfCent(d: Dec)
    ensures -0.005 <= Value(Quantize(d)) - Value(d) <= 0.005
  {
    var q := Quantize(d);
    assert RoundsToCents(Dec(false, d.mag, d.scale), q.mag);
    MagnitudeClose(d.mag, d.scale, q.mag);
    assert Pow10(2) == 100;
  }

  /** Ties go to the even cent: 10.005 becomes 10.00 and 10.015 becomes 10.02. */
  lemma QuantizeTiesToEven()
    ensures Quantize(Dec(false, 10005, 3)) == Dec(false, 1000, 2)
    ensures Quantize(Dec(false, 10015, 3)) == Dec(false, 1002, 2)
    ensures Quantize(Dec(true, 10005, 3)) == Dec(true, 1000, 2)
  {
    assert Pow10(1) == 10;
  }

  // ---------------------------------------------------------------------
  // Text form

  /**
   * `Decimal(text)` for text in plain positional notation: surrounding whitespace
   * is ignored, an optional sign, digits with at most one decimal point and at least
   * one digit. `None` is Python's InvalidOperation.
   */
  function ParseDecimal(text: string): (r: Option<Dec>)
    ensures r.Some? ==> |Strip(text)| > 0 && (r.value.neg <==> Strip(text)[0] == '-')
  {
    var t := Strip(text);
    var signed := |t| > 0 && (t[0] == '-' || t[0] == '+');
    match ParseUnsigned(if signed then t[1..] else t)
    case None => None
    case Some(u) => Some(Dec(signed && t[0] == '-', u.0, u.1))
  }

  /** Digits with at most one decimal point, as (coefficient, number of fractional digits). */
  function ParseUnsigned(body: string): (r: Option<(nat, nat)>)
    ensures r.Some? ==> |body| > 0
  {
    match IndexOf(body, ".")
    case None =>
      if |body| > 0 && AllDigits(body) then Some((ParseDigits(body), 0)) else None
    case Some(p) =>
      var whole, frac := body[..p], body[p + 1..];
      if |whole| + |frac| > 0 && AllDigits(whole) && AllDigits(frac)
      then Some((ParseDigits(whole + frac), |frac|))
      else None
  }

  /** Plain positional notation without a sign: digits, at most one point, some digit. */
  predicate UnsignedShape(body: string) {
    && (forall i :: 0 <= i < |body| ==> IsDigit(body[i]) || body[i] == '.')
    && (forall i, j :: 0 <= i < j < |body| && body[i] == '.' ==> body[j] != '.')
    && (exists i :: 0 <= i < |body| && IsDigit(body[i]))
  }

  lemma ParseUnsignedShape(body: string)
    requires ParseUnsigned(body).Some?
    ensures UnsignedShape(body)
  {
    match IndexOf(body, ".")
    case None =>
      assert IsDigit(body[0]);
    case Some(p) =>
      var whole, frac := body[..p], body[p + 1..];
      assert body[p] == '.' by { assert body[p..p + 1] == "."; }
      forall i | 0 <= i < |body| && i != p ensures IsDigit(body[i]) {
        if i < p { assert body[i] == whole[i]; } else { assert body[i] == frac[i - p - 1]; }
      }
      if |whole| > 0 { assert IsDigit(body[0]); } else { assert IsDigit(body[p + 1]); }
  }

  /** Digits with at most one point and some digit are read by ParseUnsigned. */
  lemma ShapeParses(body: string)
    requires UnsignedShape(body)
    ensures ParseUnsigned(body).Some?
  {
    var d :| 0 <= d < |body| && IsDigit(body[d]);
    match IndexOf(body, ".")
    case None =>
      forall i | 0 <= i < |body| ensures IsDigit(body[i]) {
        assert !OccursAt(body, ".", i);
        assert body[i..i + 1] == [body[i]];
      }
    case Some(p) =>
      assert body[p] == '.' by { assert body[p..p + 1][0] == body[p]; }
      var whole, frac := body[..p], body[p + 1..];
      forall i | 0 <= i < |whole| ensures IsDigit(whole[i]) {
        assert whole[i] == body[i];
      }
      forall i | 0 <= i < |frac| ensures IsDigit(frac[i]) {
        assert frac[i] == body[p + 1 + i];
      }
      assert d != p;
  }

  /**
   * What `Decimal()` accepts here: exactly the texts that, once stripped, are an
   * optional sign and then digits with at most one point and at least one digit.
   */
  lemma ParseDecimalAccepts(text: string)
    ensures ParseDecimal(text).Some? <==>
      var t := Strip(text);
      |t| > 0 && UnsignedShape(if t[0] == '-' || t[0] == '+' then t[1..] else t)
  {
    var t := Strip(text);
    if |t| > 0 {
      var body := if t[0] == '-' || t[0] == '+' then t[1..] else t;
      if ParseUnsigned(body).Some? {
        ParseUnsignedShape(body);
      }
      if UnsignedShape(body) {
        ShapeParses(body);
      }
    }
  }

  /** `strip()` of a text with non-whitespace ends between whitespace-only pieces is that text. */
  lemma StripSurrounded(pre: string, core: string, post: string)
    requires AllSpace(pre) && AllSpace(post)
    requires |core| > 0 && !IsSpace(core[0]) && !IsSpace(core[|core| - 1])
    ensures Strip(pre + core + post) == core
  {
    var s := pre + core + post;
    assert StripsTo(s, core, |pre|) by {
      assert s[|pre|..|pre| + |core|] == core;
      forall k | 0 <= k < |pre| ensures IsSpace(s[k]) { assert s[k] == pre[k]; }
      forall k | |pre| + |core| <= k < |s| ensures IsSpace(s[k]) {
        assert s[k] == post[k - |pre| - |core|];
      }
    }
    StripRemovesSpaces(s);
    var i: nat :| StripsTo(s, Strip(s), i);
    StripsToUnique(s, Strip(s), i, core, |pre|);
  }

  /**
   * Whitespace, an optional sign, a body that starts and ends with a digit or a point,
   * and whitespace: the body's number, with that sign.
   */
  lemma ParseSignedSpaced(pre: string, sign: string, body: string, post: string)
    requires AllSpace(pre) && AllSpace(post)
    requires sign == "" || sign == "-" || sign == "+"
    requires |body| > 0 && (IsDigit(body[0]) || body[0] == '.')
    requires IsDigit(body[|body| - 1]) || body[|body| - 1] == '.'
    ensures ParseDecimal(pre + (sign + body) + post) ==
      match ParseUnsigned(body)
      case None => None
      case Some(u) => Some(Dec(sign == "-", u.0, u.1))
  {
    var core := sign + body;
    assert core[0] == if sign == "" then body[0] else sign[0];
    assert Strip(pre + core + post) == core by {
      assert core[|core| - 1] == body[|body| - 1];
      StripSurrounded(pre, core, post);
    }
    assert (if core[0] == '-' || core[0] == '+' then core[1..] else core) == body by {
      if sign != "" {
        assert core[1..] == body;
      }
    }
  }

  /**
   * `Decimal()` of a number with a point, an optional sign and whitespace around it:
   * the digits on both sides of the point as the coefficient, the number of digits
   * after it as the scale.
   */
  lemma ParsePointNumber(pre: string, sign: string, w: string, f: string, post: string)
    requires AllSpace(pre) && AllSpace(post)
    requires sign == "" || sign == "-" || sign == "+"
    requires AllDigits(w) && AllDigits(f) && |w| + |f| > 0
    ensures ParseDecimal(pre + sign + w + "." + f + post) == Some(Dec(sign == "-", ParseDigits(w + f), |f|))
  {
    var body := w + "." + f;
    assert body[0] == (if |w| > 0 then w[0] else '.');
    assert body[|body| - 1] == (if |f| > 0 then f[|f| - 1] else '.');
    ParseUnsignedPoint(w, f);
    ParseSignedSpaced(pre, sign, body, post);
    Regroup(pre, sign, w, ".", f, post);
  }

  lemma Regroup<T>(pre: seq<T>, sign: seq<T>, w: seq<T>, point: seq<T>, f: seq<T>, post: seq<T>)
    ensures pre + sign + w + point + f + post == pre + (sign + (w + point + f)) + post
  {
  }

  /** `Decimal()` of an integer with an optional sign and whitespace around it. */
  lemma ParseIntegerNumber(pre: string, sign: string, w: string, post: string)
    requires AllSpace(pre) && AllSpace(post)
    requires sign == "" || sign == "-" || sign == "+"
    requires AllDigits(w) && |w| > 0
    ensures ParseDecimal(pre + sign + w + post) == Some(Dec(sign == "-", ParseDigits(w), 0))
  {
    assert ParseUnsigned(w) == Some((ParseDigits(w), 0)) by {
      NoPointInDigits(w);
    }
    ParseSignedSpaced(pre, sign, w, post);
    RegroupSigned(pre, sign, w, post);
  }

  lemma RegroupSigned<T>(pre: seq<T>, sign: seq<T>, w: seq<T>, post: seq<T>)
    ensures pre + sign + w + post == pre + (sign + w) + post
  {
  }

  lemma NoPointInDigits(s: string)
    requires AllDigits(s)
    ensures Absent(s, ".")
  {
    forall j: nat | j <= |s| ensures !OccursAt(s, ".", j) {
      if j < |s| { assert s[j..j + 1] == [s[j]]; }
    }
  }

  lemma ParseDigitString(s: string)
    requires |s| > 0 && AllDigits(s)
    ensures ParseDecimal(s) == Some(Dec(false, ParseDigits(s), 0))
  {
    assert ParseUnsigned(s) == Some((ParseDigits(s), 0)) by {
      NoPointInDigits(s);
    }
    assert IsDigit(s[0]) && IsDigit(s[|s| - 1]);
    ParseSignedSpaced("", "", s, "");
    Unpadded("", s);
    assert "" + s == s;
  }

  /**
   * The digits of a number of cents: the integer part without leading zeros, a point,
   * two fractional digits.
   */
  function CentsDigits(c: nat): (s: string)
    ensures |s| >= 4 && s[|s| - 3] == '.' && IsDigit(s[0])
    ensures AllDigits(s[..|s| - 3]) && (|s| > 4 ==> s[0] != '0')
    ensures IsDigit(s[|s| - 2]) && IsDigit(s[|s| - 1])
  {
    var w, f := NatToDigits(c / 100), TwoDigits(c % 100);
    var s := w + "." + f;
    assert s[0] == w[0] && s[|s| - 2] == f[0] && s[|s| - 1] == f[1];
    assert s[..|s| - 3] == w;
    s
  }

  /**
   * How `:.2f` prints a number without its sign: one or more digits with no leading
   * zero (a lone `0` aside), a point, and two digits.
   */
  predicate CentsShape(b: string) {
    && |b| >= 4 && b[|b| - 3] == '.' && AllDigits(b[..|b| - 3]) && (|b| > 4 ==> b[0] != '0')
    && IsDigit(b[|b| - 2]) && IsDigit(b[|b| - 1])
  }

  /**
   * `format(d, '.2f')` for a Decimal: rounded half-even to two places, a minus sign
   * when the rounded value is negative or a negative zero. FormatFixed2Shape,
   * FormatParseRoundTrip and FormatFixed2Unique together determine the text.
   */
  function FormatFixed2(d: Dec): (s: string)
    ensures |s| >= 4 && s[|s| - 3] == '.' && IsDigit(s[|s| - 2]) && IsDigit(s[|s| - 1])
    ensures s[0] == '-' <==> d.neg
  {
    var q := Quantize(d);
    (if q.neg then "-" else "") + CentsDigits(q.mag)
  }

  /**
   * What `:.2f` prints after the sign: digits without a leading zero, a point and two
   * digits.
   */
  lemma FormatFixed2Shape(d: Dec)
    ensures var s := FormatFixed2(d);
      CentsShape(if d.neg then s[1..] else s)
  {
    SignedCentsShape(Quantize(d).neg, Quantize(d).mag);
  }

  /** CentsDigits, after an optional minus sign, has CentsShape. */
  lemma SignedCentsShape(neg: bool, c: nat)
    ensures var s := (if neg then "-" else "") + CentsDigits(c);
      CentsShape(if neg then s[1..] else s)
  {
    var s := (if neg then "-" else "") + CentsDigits(c);
    assert (if neg then s[1..] else s) == CentsDigits(c);
  }

  lemma ParseUnsignedPoint(w: string, f: string)
    requires |w| + |f| > 0 && AllDigits(w) && AllDigits(f)
    ensures ParseUnsigned(w + "." + f) == Some((ParseDigits(w + f), |f|))
  {
    var body := w + "." + f;
    assert OccursAt(body, ".", |w|) by { assert body[|w|..|w| + 1] == "."; }
    forall j: nat | j < |w| ensures !OccursAt(body, ".", j) {
      assert body[j..j + 1] == [w[j]];
    }
    var k := IndexOf(body, ".").value;
    assert k == |w|;
    assert body[..k] == w && body[k + 1..] == f;
    AllDigitsAppend(w, f);
  }

  /** Empty padding on both sides leaves a sequence as it is. */
  lemma Unpadded<T>(sign: seq<T>, body: seq<T>)
    ensures [] + (sign + body) + [] == sign + body
  {
  }

  lemma CentsDigitsValue(c: nat)
    ensures ParseUnsigned(CentsDigits(c)) == Some((c, 2))
  {
    var w, f := NatToDigits(c / 100), TwoDigits(c % 100);
    ParseUnsignedPoint(w, f);
    ParseDigitsAppend(w, f);
    assert Pow10(2) == 100;
  }

  /** Reading back what FormatFixed2 printed gives the quantized value. */
  lemma FormatParseRoundTrip(d: Dec)
    ensures ParseDecimal(FormatFixed2(d)) == Some(Quantize(d))
  {
    var q := Quantize(d);
    var body := CentsDigits(q.mag);
    ParseSignedSpaced("", if q.neg then "-" else "", body, "");
    Unpadded(if q.neg then "-" else "", body);
    CentsDigitsValue(q.mag);
  }

  /**
   * `:.2f` prints the only text of its shape that reads back as the rounded value: a
   * minus sign exactly for a negative sign, then digits without a leading zero, a
   * point and two digits.
   */
  lemma FormatFixed2Unique(d: Dec, s: string)
    requires |s| > 0 && (s[0] == '-' <==> d.neg)
    requires CentsShape(if d.neg then s[1..] else s)
    requires ParseDecimal(s) == Some(Quantize(d))
    ensures s == FormatFixed2(d)
  {
    var t := FormatFixed2(d);
    FormatFixed2Shape(d);
    FormatParseRoundTrip(d);
    CentsTextValue(Quantize(d), s);
    CentsTextValue(Quantize(d), t);
    var b, b' := if d.neg then s[1..] else s, if d.neg then t[1..] else t;
    CentsShapeInjective(b, b');
    assert d.neg ==> s == [s[0]] + b && t == [t[0]] + b';
  }

  /** The number of cents of a text of CentsShape: its digits before and after the point. */
  function CentsValue(b: string): nat
    requires CentsShape(b)
  {
    ParseDigits(b[..|b| - 3]) * 100 + ParseDigits(b[|b| - 2..])
  }

  /** A signed text of CentsShape that reads as `q` has `q`'s cents as its CentsValue. */
  lemma CentsTextValue(q: Dec, s: string)
    requires |s| > 0 && (s[0] == '-' <==> q.neg)
    requires CentsShape(if q.neg then s[1..] else s)
    requires ParseDecimal(s) == Some(q)
    ensures CentsValue(if q.neg then s[1..] else s) == q.mag
  {
    var sign := if q.neg then "-" else "";
    var b := if q.neg then s[1..] else s;
    assert s == sign + b;
    CentsShapeReads(sign, b);
    CentsValueJoined(b);
  }

  /** A text of CentsShape, with an optional minus sign, reads as the number of all its digits. */
  lemma CentsShapeReads(sign: string, b: string)
    requires sign == "" || sign == "-"
    requires CentsShape(b)
    ensures var w, f := b[..|b| - 3], b[|b| - 2..];
      && AllDigits(w + f)
      && ParseDecimal(sign + b) == Some(Dec(sign == "-", ParseDigits(w + f), 2))
  {
    var w, f := b[..|b| - 3], b[|b| - 2..];
    CentsShapeParts(b);
    ParseCents(sign, w, f);
  }

  /** The digits of a text of CentsShape, joined, denote its CentsValue. */
  lemma CentsValueJoined(b: string)
    requires CentsShape(b)
    ensures var w, f := b[..|b| - 3], b[|b| - 2..];
      AllDigits(w + f) && ParseDigits(w + f) == CentsValue(b)
  {
    CentsShapeParts(b);
    AppendTwoDigits(b[..|b| - 3], b[|b| - 2..]);
  }

  /** Two texts of CentsShape with the same number of cents are the same text. */
  lemma CentsShapeInjective(b: string, b': string)
    requires CentsShape(b) && CentsShape(b') && CentsValue(b) == CentsValue(b')
    ensures b == b'
  {
    var w, f := b[..|b| - 3], b[|b| - 2..];
    var w', f' := b'[..|b'| - 3], b'[|b'| - 2..];
    CentsShapeParts(b);
    CentsShapeParts(b');
    TwoDigitsCanonical(f);
    TwoDigitsCanonical(f');
    DivHundred(ParseDigits(w), ParseDigits(f));
    DivHundred(ParseDigits(w'), ParseDigits(f'));
    DigitsInjective(w, w');
    TwoDigitsInjective(f, f');
  }

  /** A text of CentsShape splits into canonical digits, the point and two digits. */
  lemma CentsShapeParts(b: string)
    requires CentsShape(b)
    ensures var w, f := b[..|b| - 3], b[|b| - 2..];
      && b == w + "." + f && |f| == 2 && AllDigits(f)
      && |w| > 0 && AllDigits(w) && (|w| > 1 ==> w[0] != '0')
  {
    var w, f := b[..|b| - 3], b[|b| - 2..];
    assert f[0] == b[|b| - 2] && f[1] == b[|b| - 1];
    assert w[0] == b[0];
  }

  /** `Decimal()` of a number with two places, as `:.2f` prints it. */
  lemma ParseCents(sign: string, w: string, f: string)
    requires sign == "" || sign == "-"
    requires AllDigits(w) && |w| > 0 && AllDigits(f) && |f| == 2
    ensures AllDigits(w + f) && ParseDecimal(sign + (w + "." + f)) == Some(Dec(sign == "-", ParseDigits(w + f), 2))
  {
    var body := w + "." + f;
    assert body[0] == w[0] && body[|body| - 1] == f[1];
    ParseUnsignedPoint(w, f);
    ParseSignedSpaced("", sign, body, "");
    Unpadded(sign, body);
    AllDigitsAppend(w, f);
  }

  // ---------------------------------------------------------------------
  // convert_amount

  /**
   * `convert_amount(amount, exchange_rate)`: the product rounded to cents. A missing
   * rate (the lookup returned None) yields no value instead of one.
   */
  function ConvertAmount(amount: Dec, rate: Option<Dec>): (r: Option<Dec>)
    ensures r.Some? <==> rate.Some?
    ensures r.Some? ==> r.value.scale == 2 && r.value.neg == (amount.neg != rate.value.neg)
    ensures r.Some? ==> RoundsToCents(Mul(amount, rate.value), r.value.mag)
  {
    match rate
    case None => None
    case Some(x) => Some(Quantize(Mul(amount, x)))
  }

  /** The converted amount is within half a cent of amount * rate. */
  lemma ConvertAmountWithinHalfCent(amount: Dec, rate: Dec)
    ensures var r := ConvertAmount(amount, Some(rate)).value;
      -0.005 <= Value(r) - Value(amount) * Value(rate) <= 0.005
  {
    QuantizeWithinHalfCent(Mul(amount, rate));
    MulExact(amount, rate);
  }

  /** A zero in cents prints "0.00", or "-0.00" when it is a negative zero. */
  lemma FormatZero(neg: bool)
    ensures FormatFixed2(Dec(neg, 0, 2)) == if neg then "-0.00" else "0.00"
  {
    assert Pow10(0) == 1;
    assert Quantize(Dec(neg, 0, 2)) == Dec(neg, 0, 2);
    assert NatToDigits(0) == "0" && TwoDigits(0) == "00";
    assert CentsDigits(0) == "0.00";
  }

  /**
   * A zero amount converts to zero, printed "0.00" once `abs` is applied; without it,
   * a zero of opposite sign to the rate prints "-0.00".
   */
  lemma ConvertZero(amount: Dec, rate: Dec)
    requires amount.mag == 0
    ensures var r := ConvertAmount(amount, Some(rate)).value;
      && r == Dec(amount.neg != rate.neg, 0, 2)
      && FormatFixed2(Abs(r)) == "0.00"
      && FormatFixed2(r) == if amount.neg != rate.neg then "-0.00" else "0.00"
  {
    QuantizeUnique(Mul(amount, rate), 0);
    FormatZero(false);
    FormatZero(amount.neg != rate.neg);
  }
}
