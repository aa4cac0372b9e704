/** Decimal digit strings: powers of ten, parsing and printing of naturals. */
module Numerals {

  function Pow10(n: nat): (r: nat)
    ensures r >= 1
  {
    if n == 0 then 1 else 10 * Pow10(n - 1)
  }

  lemma {:induction false} Pow10Add(a: nat, b: nat)
    ensures Pow10(a + b) == Pow10(a) * Pow10(b)
  {
    if b > 0 {
      Pow10Add(a, b - 1);
      calc {
        Pow10(a + b);
        10 * Pow10(a + b - 1);
        10 * (Pow10(a) * Pow10(b - 1));
        Pow10(a) * (10 * Pow10(b - 1));
      }
    }
  }

  predicate IsDigit(c: char) {
    '0' <= c <= '9'
  }

  predicate AllDigits(s: string) {
    forall i :: 0 <= i < |s| ==> IsDigit(s[i])
  }

  function DigitChar(d: nat): (c: char)
    requires d < 10
    ensures IsDigit(c) && DigitValue(c) == d
  {
    (48 + d) as char
  }

  function DigitValue(c: char): (d: nat)
    requires IsDigit(c)
    ensures d < 10
  {
    c as int - 48
  }

  /** The natural number a string of decimal digits denotes (Python's `int(s)` on such a string). */
  function ParseDigits(s: string): nat
    requires AllDigits(s)
  {
    if |s| == 0 then 0 else 10 * ParseDigits(s[..|s| - 1]) + DigitValue(s[|s| - 1])
  }

  /** The shortest decimal spelling of `n`: no leading zero, "0" for zero. */
  function NatToDigits(n: nat): (s: string)
    ensures |s| > 0 && AllDigits(s)
    ensures |s| > 1 ==> s[0] != '0'
    ensures ParseDigits(s) == n
    decreases n
  {
    if n < 10 then [DigitChar(n)]
    else
      var init := NatToDigits(n / 10);
      var s := init + [DigitChar(n % 10)];
      assert s[..|s| - 1] == init;
      s
  }

  /** Two digits with a leading zero, as strftime prints a month, a day or a two-digit year. */
  function TwoDigits(n: nat): (s: string)
    requires n < 100
    ensures |s| == 2 && AllDigits(s) && ParseDigits(s) == n
  {
    var s := [DigitChar(n / 10), DigitChar(n % 10)];
    assert s[..1][..0] == [];
    assert ParseDigits(s[..1]) == n / 10;
    s
  }

  lemma AllDigitsAppend(a: string, b: string)
    requires AllDigits(a) && AllDigits(b)
    ensures AllDigits(a + b)
  {
    var ab := a + b;
    forall i | 0 <= i < |ab| ensures IsDigit(ab[i]) {
      if i < |a| { assert ab[i] == a[i]; } else { assert ab[i] == b[i - |a|]; }
    }
  }

  lemma {:induction false} ParseDigitsAppend(a: string, b: string)
    requires AllDigits(a) && AllDigits(b)
    ensures AllDigits(a + b)
    ensures ParseDigits(a + b) == ParseDigits(a) * Pow10(|b|) + ParseDigits(b)
  {
    AllDigitsAppend(a, b);
    if |b| == 0 {
      assert a + b == a;
    } else {
      var b' := b[..|b| - 1];
      var last := b[|b| - 1];
      assert (a + b)[..|a + b| - 1] == a + b';
      assert (a + b)[|a + b| - 1] == last;
      ParseDigitsAppend(a, b');
      ShiftDigit(ParseDigits(a), ParseDigits(b'), DigitValue(last), Pow10(|b'|));
    }
  }

  /** A digit string that does not start with zero denotes a positive number. */
  lemma {:induction false} LeadingDigitPositive(s: string)
    requires |s| > 0 && AllDigits(s) && s[0] != '0'
    ensures ParseDigits(s) >= 1
  {
    if |s| > 1 {
      var init := s[..|s| - 1];
      assert init[0] == s[0];
      LeadingDigitPositive(init);
    }
  }

  /** A digit string without a leading zero is the shortest spelling of its value. */
  lemma {:induction false} DigitsCanonical(s: string)
    requires |s| > 0 && AllDigits(s) && (|s| > 1 ==> s[0] != '0')
    ensures NatToDigits(ParseDigits(s)) == s
  {
    var n, last := ParseDigits(s), s[|s| - 1];
    if |s| == 1 {
      assert s[..0] == [] && ParseDigits(s[..0]) == 0;
      assert n == DigitValue(last);
      assert DigitChar(DigitValue(last)) == last;
    } else {
      var init := s[..|s| - 1];
      assert init[0] == s[0];
      DigitsCanonical(init);
      LeadingDigitPositive(init);
      DivTen(ParseDigits(init), DigitValue(last));
      assert NatToDigits(n) == init + [last];
    }
  }

  /** Two digits are the zero-padded spelling of their value, which is below 100. */
  lemma TwoDigitsCanonical(s: string)
    requires |s| == 2 && AllDigits(s)
    ensures ParseDigits(s) < 100 && TwoDigits(ParseDigits(s)) == s
  {
    assert s[..1][..0] == [] && s[..1][0] == s[0];
    assert ParseDigits(s[..1]) == DigitValue(s[0]);
    DivTen(DigitValue(s[0]), DigitValue(s[1]));
  }

  /** Digit strings without a leading zero that denote the same number are equal. */
  lemma DigitsInjective(a: string, b: string)
    requires |a| > 0 && AllDigits(a) && (|a| > 1 ==> a[0] != '0')
    requires |b| > 0 && AllDigits(b) && (|b| > 1 ==> b[0] != '0')
    requires ParseDigits(a) == ParseDigits(b)
    ensures a == b
  {
    DigitsCanonical(a);
    DigitsCanonical(b);
  }

  /** Two-digit strings that denote the same number are equal. */
  lemma TwoDigitsInjective(a: string, b: string)
    requires |a| == 2 && AllDigits(a) && |b| == 2 && AllDigits(b)
    requires ParseDigits(a) == ParseDigits(b)
    ensures a == b
  {
    TwoDigitsCanonical(a);
    TwoDigitsCanonical(b);
  }

  lemma DivTen(a: nat, d: nat)
    requires d < 10
    ensures (10 * a + d) / 10 == a && (10 * a + d) % 10 == d
  {
  }

  lemma DivHundred(a: nat, c: nat)
    requires c < 100
    ensures (a * 100 + c) / 100 == a && (a * 100 + c) % 100 == c
  {
  }

  /** Two more digits multiply the value by 100 and add theirs. */
  lemma AppendTwoDigits(a: string, b: string)
    requires AllDigits(a) && AllDigits(b) && |b| == 2
    ensures AllDigits(a + b) && ParseDigits(a + b) == ParseDigits(a) * 100 + ParseDigits(b)
  {
    ParseDigitsAppend(a, b);
    assert Pow10(|b|) == 100;
  }

  lemma ShiftDigit(x: nat, y: nat, d: nat, p: nat)
    ensures 10 * (x * p + y) + d == x * (10 * p) + (10 * y + d)
  {
  }
}
