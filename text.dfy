/** The handful of Python `str` operations the statement rewriter uses. */
module Text {
  import opened Wrappers

  /** `s.startswith(prefix)` */
  predicate StartsWith(s: string, prefix: string) {
    |prefix| <= |s| && s[..|prefix|] == prefix
  }

  /** `pat` occurs in `s` starting at index `i`. */
  predicate OccursAt(s: string, pat: string, i: nat) {
    i + |pat| <= |s| && s[i..i + |pat|] == pat
  }

  /** `pat not in s` */
  predicate Absent(s: string, pat: string) {
    forall i: nat :: i <= |s| ==> !OccursAt(s, pat, i)
  }

  function IndexOfFrom(s: string, pat: string, from: nat): (r: Option<nat>)
    ensures r.Some? ==> from <= r.value && OccursAt(s, pat, r.value)
    ensures r.Some? ==> forall j: nat :: from <= j < r.value ==> !OccursAt(s, pat, j)
    ensures r.None? ==> forall j: nat :: from <= j ==> !OccursAt(s, pat, j)
    decreases |s| - from
  {
    if |s| < from + |pat| then None
    else if OccursAt(s, pat, from) then Some(from)
    else IndexOfFrom(s, pat, from + 1)
  }

  /** `s.find(pat)`, with `None` for -1: the first index at which `pat` occurs. */
  function IndexOf(s: string, pat: string): (r: Option<nat>)
    ensures r.Some? ==> OccursAt(s, pat, r.value)
    ensures r.Some? ==> forall j: nat :: j < r.value ==> !OccursAt(s, pat, j)
    ensures r.None? <==> Absent(s, pat)
  {
    IndexOfFrom(s, pat, 0)
  }

  lemma OccursInPrefix(s: string, r: string, pat: string, j: nat)
    requires StartsWith(s, r) && OccursAt(r, pat, j)
    ensures OccursAt(s, pat, j)
  {
    assert s[j..j + |pat|] == r[j..j + |pat|];
  }

  /** `s.split(sep)[0]`: everything before the first occurrence of `sep`, or all of `s`. */
  function SplitHead(s: string, sep: string): (r: string)
    ensures StartsWith(s, r)
    ensures forall j: nat :: j < |r| ==> !OccursAt(s, sep, j)
    ensures |r| == |s| || OccursAt(s, sep, |r|)
    ensures |sep| > 0 ==> Absent(r, sep)
  {
    var r := match IndexOf(s, sep)
      case None => s
      case Some(k) => s[..k];
    assert |sep| > 0 ==> Absent(r, sep) by {
      if |sep| > 0 {
        forall j: nat | OccursAt(r, sep, j) ensures false {
          OccursInPrefix(s, r, sep, j);
        }
      }
    }
    r
  }

  lemma AbsentInTail(s: string, pat: string, n: nat)
    requires Absent(s, pat) && n <= |s|
    ensures Absent(s[n..], pat)
  {
    forall j: nat | OccursAt(s[n..], pat, j) ensures false {
      assert s[n..][j..j + |pat|] == s[n + j..n + j + |pat|];
      assert OccursAt(s, pat, n + j);
    }
  }

  /** `s.replace(pat, rep)`: every occurrence, scanning left to right, without overlaps. */
  function ReplaceAll(s: string, pat: string, rep: string): (r: string)
    requires |pat| > 0
    ensures Absent(s, pat) ==> r == s
    ensures |rep| == |pat| ==> |r| == |s|
    decreases |s|
  {
    if |s| < |pat| then s
    else if s[..|pat|] == pat then
      assert OccursAt(s, pat, 0);
      rep + ReplaceAll(s[|pat|..], pat, rep)
    else
      var tail := ReplaceAll(s[1..], pat, rep);
      assert Absent(s, pat) ==> tail == s[1..] by {
        if Absent(s, pat) { AbsentInTail(s, pat, 1); }
      }
      [s[0]] + tail
  }

  /** A first character that does not start `pat` is kept and the rest is rewritten. */
  lemma ReplaceSkipsFirst(s: string, pat: string, rep: string)
    requires |pat| > 0 && |s| > 0 && s[0] != pat[0]
    ensures ReplaceAll(s, pat, rep) == [s[0]] + ReplaceAll(s[1..], pat, rep)
  {
    if |s| >= |pat| {
      assert s[..|pat|] != pat by { assert s[..|pat|][0] == s[0]; }
    } else {
      assert Absent(s[1..], pat) by {
        forall j: nat | j <= |s[1..]| ensures !OccursAt(s[1..], pat, j) { }
      }
      assert s == [s[0]] + s[1..];
    }
  }

  lemma WholePrefix<T>(s: seq<T>)
    ensures s[..|s|] == s
  {
  }

  lemma PrefixOfPrefix<T>(s: seq<T>, n: nat, i: nat)
    requires i <= n <= |s|
    ensures s[..n][..i] == s[..i]
  {
  }

  lemma ConsSplit<T>(p: seq<T>, r: seq<T>)
    requires |p| > 0
    ensures [p[0]] + (p[1..] + r) == p + r
  {
    assert p == [p[0]] + p[1..];
  }

  /** Replacing skips over a prefix in which the first character of `pat` does not occur. */
  lemma {:induction false} ReplaceAfter(p: string, t: string, pat: string, rep: string)
    requires |pat| > 0 && forall i :: 0 <= i < |p| ==> p[i] != pat[0]
    ensures ReplaceAll(p + t, pat, rep) == p + ReplaceAll(t, pat, rep)
    decreases |p|
  {
    if |p| > 0 {
      var s := p + t;
      var r := ReplaceAll(t, pat, rep);
      assert ReplaceAll(s, pat, rep) == [p[0]] + ReplaceAll(p[1..] + t, pat, rep) by {
        assert s[0] == p[0] && s[1..] == p[1..] + t;
        ReplaceSkipsFirst(s, pat, rep);
      }
      assert ReplaceAll(p[1..] + t, pat, rep) == p[1..] + r by {
        ReplaceAfter(p[1..], t, pat, rep);
      }
      ConsSplit(p, r);
    } else {
      assert p + t == t;
    }
  }

  /** The characters Python's `str.isspace` accepts, which `strip()` and `Decimal()` remove. */
  predicate IsSpace(c: char) {
    c == ' ' || '\t' <= c <= '\r' || '\U{1C}' <= c <= '\U{1F}' || c == '\U{85}' || c == '\U{A0}'
    || c == '\U{1680}' || '\U{2000}' <= c <= '\U{200A}' || c == '\U{2028}' || c == '\U{2029}'
    || c == '\U{202F}' || c == '\U{205F}' || c == '\U{3000}'
  }

  /** Every character of `s` is whitespace. */
  predicate AllSpace(s: string) {
    forall k :: 0 <= k < |s| ==> IsSpace(s[k])
  }

  /** `r` stands at index `i` of `s`, with only whitespace before and after it. */
  predicate StripsTo(s: string, r: string, i: nat) {
    && i + |r| <= |s| && s[i..i + |r|] == r
    && (forall k :: 0 <= k < i ==> IsSpace(s[k]))
    && (forall k :: i + |r| <= k < |s| ==> IsSpace(s[k]))
  }

  /** `s.lstrip()`: `s` without its leading whitespace. */
  function StripLeft(s: string): (r: string)
    ensures |r| <= |s|
    ensures |r| > 0 ==> !IsSpace(r[0])
  {
    if |s| > 0 && IsSpace(s[0]) then StripLeft(s[1..]) else s
  }

  /** What `lstrip()` keeps is a suffix of `s`, and what it removes is whitespace. */
  lemma {:induction false} StripLeftSpaces(s: string)
    ensures StripLeft(s) == s[|s| - |StripLeft(s)|..]
    ensures forall k :: 0 <= k < |s| - |StripLeft(s)| ==> IsSpace(s[k])
    decreases |s|
  {
    if |s| > 0 && IsSpace(s[0]) {
      StripLeftSpaces(s[1..]);
      assert s[1..][|s| - 1 - |StripLeft(s)|..] == s[|s| - |StripLeft(s)|..];
      forall k | 0 < k < |s| - |StripLeft(s)| ensures IsSpace(s[k]) {
        assert s[k] == s[1..][k - 1];
      }
    }
  }

  /** `s.rstrip()`: `s` without its trailing whitespace. */
  function StripRight(s: string): (r: string)
    ensures |r| <= |s|
    ensures |r| > 0 ==> !IsSpace(r[|r| - 1])
  {
    if |s| > 0 && IsSpace(s[|s| - 1]) then StripRight(s[..|s| - 1]) else s
  }

  /** What `rstrip()` keeps is a prefix of `s`, and what it removes is whitespace. */
  lemma {:induction false} StripRightSpaces(s: string)
    ensures StripRight(s) == s[..|StripRight(s)|]
    ensures forall k :: |StripRight(s)| <= k < |s| ==> IsSpace(s[k])
    decreases |s|
  {
    if |s| > 0 && IsSpace(s[|s| - 1]) {
      StripRightSpaces(s[..|s| - 1]);
      assert s[..|s| - 1][..|StripRight(s)|] == s[..|StripRight(s)|];
      forall k | |StripRight(s)| <= k < |s| - 1 ensures IsSpace(s[k]) {
        assert s[k] == s[..|s| - 1][k];
      }
    }
  }

  /** `s.strip()`: `s` without the whitespace at both of its ends. */
  function Strip(s: string): (r: string)
    ensures |r| > 0 ==> !IsSpace(r[0]) && !IsSpace(r[|r| - 1])
    ensures (|s| == 0 || (!IsSpace(s[0]) && !IsSpace(s[|s| - 1]))) ==> r == s
  {
    var l := StripLeft(s);
    var r := StripRight(l);
    assert |r| > 0 ==> r[0] == l[0] by {
      StripRightSpaces(l);
    }
    r
  }

  /** `strip()` removes whitespace only: its result stands in `s` between whitespace-only ends. */
  lemma StripRemovesSpaces(s: string)
    ensures exists i: nat :: StripsTo(s, Strip(s), i)
  {
    var l := StripLeft(s);
    var r := StripRight(l);
    StripLeftSpaces(s);
    StripRightSpaces(l);
    StripsToCompose(s, l, r);
    assert Strip(s) == r;
  }

  /** Whitespace before a suffix `l` of `s` and after a prefix `r` of `l` puts `r` between spaces. */
  lemma StripsToCompose(s: string, l: string, r: string)
    requires |l| <= |s| && l == s[|s| - |l|..] && forall k :: 0 <= k < |s| - |l| ==> IsSpace(s[k])
    requires |r| <= |l| && r == l[..|r|] && forall k :: |r| <= k < |l| ==> IsSpace(l[k])
    ensures StripsTo(s, r, |s| - |l|)
  {
    var i := |s| - |l|;
    assert s[i..i + |r|] == r;
    forall k | i + |r| <= k < |s| ensures IsSpace(s[k]) {
      assert s[k] == l[k - i];
    }
  }

  /**
   * Only one piece of `s` lies between whitespace-only ends and neither starts nor ends
   * with whitespace; with StripRemovesSpaces and Strip's own contract this fixes Strip.
   */
  lemma StripsToUnique(s: string, r1: string, i1: nat, r2: string, i2: nat)
    requires StripsTo(s, r1, i1) && (|r1| > 0 ==> !IsSpace(r1[0]) && !IsSpace(r1[|r1| - 1]))
    requires StripsTo(s, r2, i2) && (|r2| > 0 ==> !IsSpace(r2[0]) && !IsSpace(r2[|r2| - 1]))
    ensures r1 == r2
  {
    if |r1| > 0 {
      assert s[i1] == r1[0] && s[i1 + |r1| - 1] == r1[|r1| - 1] by {
        assert s[i1..i1 + |r1|][0] == s[i1];
        assert s[i1..i1 + |r1|][|r1| - 1] == s[i1 + |r1| - 1];
      }
    }
    if |r2| > 0 {
      assert s[i2] == r2[0] && s[i2 + |r2| - 1] == r2[|r2| - 1] by {
        assert s[i2..i2 + |r2|][0] == s[i2];
        assert s[i2..i2 + |r2|][|r2| - 1] == s[i2 + |r2| - 1];
      }
    }
  }

  // ---------------------------------------------------------------------
  // The account line's currency swap: `line.replace('SEK', 'EUR')`.

  lemma OccursSek(s: string, i: nat)
    ensures OccursAt(s, "SEK", i) <==> i + 3 <= |s| && s[i] == 'S' && s[i + 1] == 'E' && s[i + 2] == 'K'
  {
    if i + 3 <= |s| && s[i] == 'S' && s[i + 1] == 'E' && s[i + 2] == 'K' {
      assert s[i..i + 3] == "SEK";
    }
  }

  lemma OccursDrop(s: string, pat: string, n: nat, j: nat)
    requires n <= |s|
    ensures OccursAt(s[n..], pat, j) <==> OccursAt(s, pat, n + j)
  {
    if n + j + |pat| <= |s| {
      assert s[n..][j..j + |pat|] == s[n + j..n + j + |pat|];
    }
  }

  /** Index `i` of `s` lies inside an occurrence of "SEK". */
  predicate InSek(s: string, i: nat) {
    OccursAt(s, "SEK", i) || (i >= 1 && OccursAt(s, "SEK", i - 1)) || (i >= 2 && OccursAt(s, "SEK", i - 2))
  }

  /**
   * The character that stands at index `i` once every "SEK" of `s` is "EUR": the
   * matching letter of "EUR" inside an occurrence, `s[i]` outside. Occurrences of
   * "SEK" never overlap, so at most one of them covers `i`.
   */
  function SwapAt(s: string, i: nat): char
    requires i < |s|
  {
    if OccursAt(s, "SEK", i) then 'E'
    else if i >= 1 && OccursAt(s, "SEK", i - 1) then 'U'
    else if i >= 2 && OccursAt(s, "SEK", i - 2) then 'R'
    else s[i]
  }

  /** Dropping `n` characters after which no "SEK" was cut in two shifts SwapAt by `n`. */
  lemma SwapAtDrop(s: string, n: nat, i: nat)
    requires n <= i < |s|
    requires n >= 1 ==> !OccursAt(s, "SEK", n - 1)
    requires n >= 2 ==> !OccursAt(s, "SEK", n - 2)
    ensures SwapAt(s[n..], i - n) == SwapAt(s, i)
  {
    OccursDrop(s, "SEK", n, i - n);
    if i - n >= 1 { OccursDrop(s, "SEK", n, i - n - 1); }
    if i - n >= 2 { OccursDrop(s, "SEK", n, i - n - 2); }
    assert s[n..][i - n] == s[i];
  }

  /** A leading "SEK" becomes "EUR", and the rest is swapped as the rest of `s`. */
  lemma SwapAfterMatch(s: string, t: string)
    requires |s| >= 3 && s[..3] == "SEK"
    requires |t| == |s| - 3 && forall k :: 0 <= k < |t| ==> t[k] == SwapAt(s[3..], k)
    ensures forall i :: 0 <= i < |s| ==> ("EUR" + t)[i] == SwapAt(s, i)
  {
    var r := "EUR" + t;
    assert s[0] == 'S' && s[1] == 'E' && s[2] == 'K' by {
      assert s[0] == s[..3][0] && s[1] == s[..3][1] && s[2] == s[..3][2];
    }
    OccursSek(s, 0);
    OccursSek(s, 1);
    OccursSek(s, 2);
    forall i | 0 <= i < |s| ensures r[i] == SwapAt(s, i) {
      if i >= 3 {
        assert r[i] == t[i - 3];
        SwapAtDrop(s, 3, i);
      }
    }
  }

  /** A first character that does not start "SEK" is kept, and the rest is swapped as the rest of `s`. */
  lemma SwapAfterSkip(s: string, t: string)
    requires |s| >= 3 && s[..3] != "SEK"
    requires |t| == |s| - 1 && forall k :: 0 <= k < |t| ==> t[k] == SwapAt(s[1..], k)
    ensures forall i :: 0 <= i < |s| ==> ([s[0]] + t)[i] == SwapAt(s, i)
  {
    var r := [s[0]] + t;
    assert !OccursAt(s, "SEK", 0);
    forall i | 0 <= i < |s| ensures r[i] == SwapAt(s, i) {
      if i >= 1 {
        assert r[i] == t[i - 1];
        SwapAtDrop(s, 1, i);
      }
    }
  }

  /** `replace('SEK', 'EUR')`, character by character. */
  lemma {:induction false} SekToEurAt(s: string)
    ensures var r := ReplaceAll(s, "SEK", "EUR");
      |r| == |s| && forall i :: 0 <= i < |s| ==> r[i] == SwapAt(s, i)
    decreases |s|
  {
    if |s| < 3 {
      assert ReplaceAll(s, "SEK", "EUR") == s;
    } else if s[..3] == "SEK" {
      var t := ReplaceAll(s[3..], "SEK", "EUR");
      assert ReplaceAll(s, "SEK", "EUR") == "EUR" + t;
      SekToEurAt(s[3..]);
      SwapAfterMatch(s, t);
    } else {
      var t := ReplaceAll(s[1..], "SEK", "EUR");
      assert ReplaceAll(s, "SEK", "EUR") == [s[0]] + t;
      SekToEurAt(s[1..]);
      SwapAfterSkip(s, t);
    }
  }

  /** An occurrence of "SEK" in `s` is "EUR" in its swap `r`. */
  lemma SwapCovers(s: string, r: string, j: nat)
    requires |r| == |s| && forall i :: 0 <= i < |s| ==> r[i] == SwapAt(s, i)
    requires OccursAt(s, "SEK", j)
    ensures r[j..j + 3] == "EUR"
  {
    OccursSek(s, j);
    OccursSek(s, j + 1);
    OccursSek(s, j + 2);
    assert r[j] == 'E' && r[j + 1] == 'U' && r[j + 2] == 'R';
  }

  /** The swap `r` of `s` has no "SEK" at `j`. */
  lemma SwapNoSek(s: string, r: string, j: nat)
    requires |r| == |s| && forall i :: 0 <= i < |s| ==> r[i] == SwapAt(s, i)
    ensures !OccursAt(r, "SEK", j)
  {
    OccursSek(r, j);
    if j + 3 <= |r| {
      OccursSek(s, j);
      assert !(r[j] == 'S' && r[j + 1] == 'E' && r[j + 2] == 'K');
    }
  }

  /**
   * The account line's swap keeps the length, writes "EUR" over every occurrence of
   * "SEK", keeps every character outside the occurrences, and leaves no "SEK" behind.
   */
  lemma SekToEur(s: string)
    ensures var r := ReplaceAll(s, "SEK", "EUR");
      && |r| == |s|
      && (forall j: nat :: OccursAt(s, "SEK", j) ==> r[j..j + 3] == "EUR")
      && (forall i {:trigger r[i]} :: 0 <= i < |s| && !InSek(s, i) ==> r[i] == s[i])
      && Absent(r, "SEK")
  {
    var r := ReplaceAll(s, "SEK", "EUR");
    SekToEurAt(s);
    forall j: nat | OccursAt(s, "SEK", j) ensures r[j..j + 3] == "EUR" {
      SwapCovers(s, r, j);
    }
    forall j: nat | j <= |r| ensures !OccursAt(r, "SEK", j) {
      SwapNoSek(s, r, j);
    }
  }
}
