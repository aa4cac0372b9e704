/**
 * What the statement rewriter promises about a whole run: one output line per input
 * line, each computed from its input line and the cursor state the lines before it
 * leave behind, with the rules per tag.
 */
module StatementProperties {
  import opened Wrappers
  import opened Numerals
  import opened Text
  import opened Decimals
  import opened Statement

  /**
   * The cursor before line `i`: `transaction_index` is the number of :61: lines before
   * it, and the current record is the one the last of them consumed.
   */
  function CursorAt(lines: seq<string>, txs: seq<Transaction>, i: nat): (c: Cursor)
    requires i <= |lines|
    ensures c.index <= i
    ensures c.current.Some? <==> 0 < c.index <= |txs|
    ensures c.current.Some? ==> c.current.value == txs[c.index - 1]
  {
    var k := CountEntries(lines[..i]);
    Cursor(k, if 0 < k <= |txs| then Some(txs[k - 1]) else None)
  }

  lemma CursorAtPrefix(lines: seq<string>, txs: seq<Transaction>, n: nat, i: nat)
    requires i <= n <= |lines|
    ensures CursorAt(lines[..n], txs, i) == CursorAt(lines, txs, i)
  {
    PrefixOfPrefix(lines, n, i);
  }

  /** A successful step from the cursor before line `i` leaves the cursor before line `i + 1`. */
  lemma StepMovesCursor(lines: seq<string>, txs: seq<Transaction>, rates: RateOracle, i: nat)
    requires i < |lines|
    ensures var r := Step(CursorAt(lines, txs, i), lines[i], i, txs, rates);
      r.Success? ==> r.value.1 == CursorAt(lines, txs, i + 1)
  {
    CountEntriesNext(lines, i);
  }

  /** Lines before `n` are rewritten the same whether or not the lines from `n` on are there. */
  lemma StepInPrefix(lines: seq<string>, txs: seq<Transaction>, rates: RateOracle, n: nat, i: nat)
    requires i < n <= |lines|
    ensures lines[..n][i] == lines[i]
    ensures CursorAt(lines[..n], txs, i) == CursorAt(lines, txs, i)
    ensures CursorAt(lines[..n], txs, i + 1) == CursorAt(lines, txs, i + 1)
  {
    CursorAtPrefix(lines, txs, n, i);
    CursorAtPrefix(lines, txs, n, i + 1);
  }

  /**
   * The rewrite of each line under CursorAt, checked against the output lines `out`
   * and the cursor after the last line.
   */
  ghost predicate RewritesUnderCursorAt(lines: seq<string>, txs: seq<Transaction>, rates: RateOracle, out: seq<string>)
    requires |out| == |lines|
  {
    forall i {:trigger Step(CursorAt(lines, txs, i), lines[i], i, txs, rates)} :: 0 <= i < |lines| ==>
      Step(CursorAt(lines, txs, i), lines[i], i, txs, rates) == Success((out[i], CursorAt(lines, txs, i + 1)))
  }

  /** Extending a rewritten prefix by one successful step rewrites the longer input. */
  lemma RewritesExtend(lines: seq<string>, txs: seq<Transaction>, rates: RateOracle, out: seq<string>, last: string)
    requires |lines| > 0 && |out| == |lines| - 1
    requires RewritesUnderCursorAt(lines[..|lines| - 1], txs, rates, out)
    requires Step(CursorAt(lines, txs, |lines| - 1), lines[|lines| - 1], |lines| - 1, txs, rates).Success?
    requires Step(CursorAt(lines, txs, |lines| - 1), lines[|lines| - 1], |lines| - 1, txs, rates).value.0 == last
    ensures RewritesUnderCursorAt(lines, txs, rates, out + [last])
  {
    var n := |lines| - 1;
    var full := out + [last];
    StepMovesCursor(lines, txs, rates, n);
    forall i | 0 <= i < |lines|
      ensures Step(CursorAt(lines, txs, i), lines[i], i, txs, rates) == Success((full[i], CursorAt(lines, txs, i + 1)))
    {
      if i < n {
        StepInPrefix(lines, txs, rates, n, i);
        assert Step(CursorAt(lines[..n], txs, i), lines[..n][i], i, txs, rates) == Success((out[i], CursorAt(lines[..n], txs, i + 1)));
      }
    }
  }

  /**
   * A run that succeeds is the line-by-line rewrite under CursorAt: output line `i` is
   * what line `i` becomes under CursorAt(i), and the final cursor is CursorAt(|lines|).
   */
  lemma {:induction false} RunSucceeds(lines: seq<string>, txs: seq<Transaction>, rates: RateOracle)
    requires Run(lines, txs, rates).Success?
    ensures Run(lines, txs, rates).value.1 == CursorAt(lines, txs, |lines|)
    ensures RewritesUnderCursorAt(lines, txs, rates, Run(lines, txs, rates).value.0)
    decreases |lines|
  {
    if |lines| == 0 {
      assert lines[..0] == [];
    } else {
      var n := |lines| - 1;
      var init := lines[..n];
      var done := Run(init, txs, rates).value;
      RunSucceeds(init, txs, rates);
      CursorAtPrefix(lines, txs, n, n);
      StepMovesCursor(lines, txs, rates, n);
      var next := Step(done.1, lines[n], n, txs, rates).value;
      assert Run(lines, txs, rates).value == (done.0 + [next.0], next.1);
      RewritesExtend(lines, txs, rates, done.0, next.0);
    }
  }

  /** Steps that succeed in the first `n` lines succeed the same in the whole input. */
  lemma StepsInPrefix(lines: seq<string>, txs: seq<Transaction>, rates: RateOracle, n: nat, m: nat)
    requires m <= n <= |lines|
    requires forall j {:trigger Step(CursorAt(lines[..n], txs, j), lines[..n][j], j, txs, rates)} :: 0 <= j < m ==>
      Step(CursorAt(lines[..n], txs, j), lines[..n][j], j, txs, rates).Success?
    ensures forall j {:trigger Step(CursorAt(lines, txs, j), lines[j], j, txs, rates)} :: 0 <= j < m ==>
      Step(CursorAt(lines, txs, j), lines[j], j, txs, rates).Success?
  {
    forall j | 0 <= j < m
      ensures Step(CursorAt(lines, txs, j), lines[j], j, txs, rates).Success?
    {
      StepInPrefix(lines, txs, rates, n, j);
      assert Step(CursorAt(lines[..n], txs, j), lines[..n][j], j, txs, rates).Success?;
    }
  }

  /**
   * A run that fails stops at the first line whose rewrite under CursorAt fails, with
   * that line's error; every line before it rewrites without error.
   */
  lemma {:induction false} RunFails(lines: seq<string>, txs: seq<Transaction>, rates: RateOracle)
    requires Run(lines, txs, rates).Failure?
    ensures var e := Run(lines, txs, rates).error;
      && e.line < |lines|
      && (forall j {:trigger Step(CursorAt(lines, txs, j), lines[j], j, txs, rates)} :: 0 <= j < e.line ==> Step(CursorAt(lines, txs, j), lines[j], j, txs, rates).Success?)
      && Step(CursorAt(lines, txs, e.line), lines[e.line], e.line, txs, rates) == Failure(e)
    decreases |lines|
  {
    var n := |lines| - 1;
    var init := lines[..n];
    var e := Run(lines, txs, rates).error;
    if Run(init, txs, rates).Failure? {
      assert Run(init, txs, rates).error == e;
      RunFails(init, txs, rates);
      StepsInPrefix(lines, txs, rates, n, e.line);
      StepInPrefix(lines, txs, rates, n, e.line);
    } else {
      var done := Run(init, txs, rates).value;
      RunSucceeds(init, txs, rates);
      CursorAtPrefix(lines, txs, n, n);
      assert done.1 == CursorAt(lines, txs, n);
      StepsInPrefix(lines, txs, rates, n, n);
    }
  }

  /** The output line at `i` and the cursor before it, for a run that succeeds. */
  lemma LineAt(lines: seq<string>, txs: seq<Transaction>, rates: RateOracle, i: nat)
    requires Run(lines, txs, rates).Success? && i < |lines|
    ensures Step(CursorAt(lines, txs, i), lines[i], i, txs, rates)
         == Success((Run(lines, txs, rates).value.0[i], CursorAt(lines, txs, i + 1)))
  {
    RunSucceeds(lines, txs, rates);
  }

  /** A line with none of the five tags is copied unchanged. */
  lemma PassthroughLine(lines: seq<string>, txs: seq<Transaction>, rates: RateOracle, i: nat)
    requires Run(lines, txs, rates).Success? && i < |lines| && Classify(lines[i]) == Other
    ensures Run(lines, txs, rates).value.0[i] == lines[i]
    ensures CountEntries(lines[..i + 1]) == CountEntries(lines[..i])
  {
    LineAt(lines, txs, rates, i);
  }

  /**
   * A :25: line has every "SEK" replaced by "EUR" and nothing else: each occurrence
   * reads "EUR", every character outside an occurrence is kept, so are the length,
   * the tag and the final newline, and no "SEK" is left.
   */
  lemma AccountLine(lines: seq<string>, txs: seq<Transaction>, rates: RateOracle, i: nat)
    requires Run(lines, txs, rates).Success? && i < |lines| && Classify(lines[i]) == AccountId
    ensures var s, r := lines[i], Run(lines, txs, rates).value.0[i];
      && r == ReplaceAll(s, "SEK", "EUR")
      && |r| == |s|
      && (forall j: nat :: OccursAt(s, "SEK", j) ==> r[j..j + 3] == "EUR")
      && (forall k {:trigger r[k]} :: 0 <= k < |s| && !InSek(s, k) ==> r[k] == s[k])
      && StartsWith(r, ":25:") && Absent(r, "SEK")
      && (s[|s| - 1] == '\n' ==> r[|r| - 1] == '\n')
  {
    LineAt(lines, txs, rates, i);
    AccountSwap(lines[i]);
  }

  /** What `replace('SEK', 'EUR')` does to a line that starts with the :25: tag. */
  lemma AccountSwap(s: string)
    requires StartsWith(s, ":25:")
    ensures var r := ReplaceAll(s, "SEK", "EUR");
      && |r| == |s|
      && (forall j: nat :: OccursAt(s, "SEK", j) ==> r[j..j + 3] == "EUR")
      && (forall k {:trigger r[k]} :: 0 <= k < |s| && !InSek(s, k) ==> r[k] == s[k])
      && StartsWith(r, ":25:") && Absent(r, "SEK")
      && (s[|s| - 1] == '\n' ==> r[|r| - 1] == '\n')
  {
    var r := ReplaceAll(s, "SEK", "EUR");
    SekToEur(s);
    TagUncovered(s);
    assert r[..4] == s[..4] by {
      assert r[0] == s[0] && r[1] == s[1] && r[2] == s[2] && r[3] == s[3];
    }
    if s[|s| - 1] == '\n' {
      LastUncovered(s);
    }
  }

  /** No "SEK" reaches into the :25: tag. */
  lemma TagUncovered(s: string)
    requires StartsWith(s, ":25:")
    ensures !InSek(s, 0) && !InSek(s, 1) && !InSek(s, 2) && !InSek(s, 3)
  {
    assert s[0] == ':' && s[1] == '2' && s[2] == '5' && s[3] == ':' by {
      assert s[0] == s[..4][0] && s[1] == s[..4][1] && s[2] == s[..4][2] && s[3] == s[..4][3];
    }
    OccursSek(s, 0);
    OccursSek(s, 1);
    OccursSek(s, 2);
    OccursSek(s, 3);
  }

  /** No "SEK" covers a final newline. */
  lemma LastUncovered(s: string)
    requires |s| > 0 && s[|s| - 1] == '\n'
    ensures !InSek(s, |s| - 1)
  {
    var n := |s| - 1;
    OccursSek(s, n);
    if n >= 1 { OccursSek(s, n - 1); }
    if n >= 2 { OccursSek(s, n - 2); }
  }

  /**
   * A :60F: or :62F: line without "SEK" is copied unchanged. Otherwise its amount is
   * read from the text after the first "SEK", converted at the rate of the first
   * record's date (:60F:) or the last record's date (:62F:), and the line becomes the
   * text before "SEK", "EUR", the converted amount to two decimals and a newline.
   */
  lemma BalanceLine(lines: seq<string>, txs: seq<Transaction>, rates: RateOracle, i: nat)
    requires Run(lines, txs, rates).Success? && i < |lines|
    requires Classify(lines[i]) == OpeningBalance || Classify(lines[i]) == ClosingBalance
    ensures var s, r := lines[i], Run(lines, txs, rates).value.0[i];
      && (Absent(s, "SEK") ==> r == s)
      && (!Absent(s, "SEK") ==>
            var k := IndexOf(s, "SEK").value;
            var amount := ParseDecimal(BalanceAmountText(s[k + 3..]));
            && |txs| > 0
            && var date := if Classify(s) == OpeningBalance then txs[0].date else txs[|txs| - 1].date;
            && amount.Some? && rates(date).Some?
            && r == s[..k] + "EUR" + FormatFixed2(ConvertAmount(amount.value, rates(date)).value) + "\n")
    ensures CountEntries(lines[..i + 1]) == CountEntries(lines[..i])
  {
    LineAt(lines, txs, rates, i);
  }

  /**
   * The k-th :61: line (counting from 0) consumes record k: there is such a record, its
   * rate is found, the line is re-serialised from it, and the cursor moves by one.
   */
  lemma EntryLineAt(lines: seq<string>, txs: seq<Transaction>, rates: RateOracle, i: nat)
    requires Run(lines, txs, rates).Success? && i < |lines| && Classify(lines[i]) == Entry
    ensures var k := CountEntries(lines[..i]);
      && k < |txs|
      && rates(txs[k].date).Some?
      && Run(lines, txs, rates).value.0[i]
         == EntryLine(txs[k], ConvertAmount(txs[k].amount, rates(txs[k].date)).value)
      && CountEntries(lines[..i + 1]) == k + 1
  {
    LineAt(lines, txs, rates, i);
  }

  /**
   * A :86: line carries the details of the record the last :61: line before it
   * consumed (empty when the record has none), and does not move the cursor.
   */
  lemma DetailLineAt(lines: seq<string>, txs: seq<Transaction>, rates: RateOracle, i: nat)
    requires Run(lines, txs, rates).Success? && i < |lines| && Classify(lines[i]) == Detail
    ensures var k := CountEntries(lines[..i]);
      && 0 < k <= |txs|
      && Run(lines, txs, rates).value.0[i] == ":86:" + txs[k - 1].details.GetOr("") + "\n"
      && CountEntries(lines[..i + 1]) == k
  {
    var c, out := CursorAt(lines, txs, i), Run(lines, txs, rates).value.0;
    LineAt(lines, txs, rates, i);
    DetailStep(c, lines[i], i, txs, rates, out[i], CursorAt(lines, txs, i + 1));
    CountEntriesNext(lines, i);
  }

  /** A successful step over a :86: line writes the current record's details and keeps the cursor. */
  lemma DetailStep(c: Cursor, line: string, lineNo: nat, txs: seq<Transaction>, rates: RateOracle, out: string, next: Cursor)
    requires Classify(line) == Detail && Step(c, line, lineNo, txs, rates) == Success((out, next))
    ensures c.current.Some? && out == ":86:" + c.current.value.details.GetOr("") + "\n" && next == c
  {
  }

  /** A :86: line before any :61: line stops the conversion. */
  lemma DetailBeforeEntryFails(lines: seq<string>, txs: seq<Transaction>, rates: RateOracle, i: nat)
    requires i < |lines| && Classify(lines[i]) == Detail && CountEntries(lines[..i]) == 0
    ensures Run(lines, txs, rates).Failure?
  {
    if Run(lines, txs, rates).Success? {
      DetailLineAt(lines, txs, rates, i);
    }
  }

  /** More :61: lines than records stops the conversion. */
  lemma MoreEntriesThanRecordsFails(lines: seq<string>, txs: seq<Transaction>, rates: RateOracle)
    requires CountEntries(lines) > |txs|
    ensures Run(lines, txs, rates).Failure?
  {
    var r := Run(lines, txs, rates);
    assert r.Success? ==> CountEntries(lines) <= |txs|;
  }

  /**
   * The fields of a re-serialised :61: line read back as they were written: the date
   * as yymmdd, the funds code ('C' exactly when the record's amount is >= 0), the
   * absolute converted amount with two decimals and no minus sign, the letter N, then the transaction
   * code and the customer reference, each with its default.
   */
  lemma EntryLineFields(t: Transaction, converted: Dec)
    ensures var s, a := EntryLine(t, converted), FormatFixed2(Abs(converted));
      && StartsWith(s, ":61:")
      && ParseDigits(s[4..6]) == t.date.year % 100
      && ParseDigits(s[6..8]) == t.date.month
      && ParseDigits(s[8..10]) == t.date.day
      && (s[10] == 'C' <==> Value(t.amount) >= 0.0)
      && (s[10] == 'D' <==> Value(t.amount) < 0.0)
      && s[11] != '-' && ParseDecimal(s[11..11 + |a|]) == Some(Quantize(Abs(converted)))
      && s[11 + |a|..] == "N" + t.id.GetOr("NMSC") + t.customerReference.GetOr("NONREF") + "\n"
  {
    EntryLineDate(t, converted);
    EntryLineAmount(t, converted);
  }

  lemma EntryLineDate(t: Transaction, converted: Dec)
    ensures var s := EntryLine(t, converted);
      && |s| > 10
      && ParseDigits(s[4..6]) == t.date.year % 100
      && ParseDigits(s[6..8]) == t.date.month
      && ParseDigits(s[8..10]) == t.date.day
      && s[10] == FundsCode(t.amount)
  {
    EntryLinePieces(t, converted);
  }

  lemma EntryLineAmount(t: Transaction, converted: Dec)
    ensures var s, a := EntryLine(t, converted), FormatFixed2(Abs(converted));
      && |s| >= 11 + |a|
      && StartsWith(s, ":61:")
      && s[11] != '-' && ParseDecimal(s[11..11 + |a|]) == Some(Quantize(Abs(converted)))
      && s[11 + |a|..] == "N" + t.id.GetOr("NMSC") + t.customerReference.GetOr("NONREF") + "\n"
  {
    var s, a := EntryLine(t, converted), FormatFixed2(Abs(converted));
    EntryLinePieces(t, converted);
    var x := s[11..11 + |a|];
    assert x == a;
    assert s[11] == x[0];
    FormatParseRoundTrip(Abs(converted));
  }

  /** The pieces of a :61: line, where EntryLineFields reads them. */
  lemma EntryLinePieces(t: Transaction, converted: Dec)
    ensures var s, a := EntryLine(t, converted), FormatFixed2(Abs(converted));
      && |s| >= 11 + |a|
      && s[..4] == ":61:" && s[4..6] == YyMmDd(t.date)[..2] && s[6..8] == YyMmDd(t.date)[2..4]
      && s[8..10] == YyMmDd(t.date)[4..] && s[10] == FundsCode(t.amount)
      && s[11..11 + |a|] == a
      && s[11 + |a|..] == "N" + t.id.GetOr("NMSC") + t.customerReference.GetOr("NONREF") + "\n"
  {
    EntryLayout(":61:", YyMmDd(t.date), FundsCode(t.amount), FormatFixed2(Abs(converted)),
      "N", t.id.GetOr("NMSC"), t.customerReference.GetOr("NONREF"), "\n");
  }

  /** Where the fields of a :61: line sit: a 4-character tag, a 6-character date, one code. */
  lemma EntryLayout<T>(tag: seq<T>, date: seq<T>, code: T, amount: seq<T>, n: seq<T>, id: seq<T>, ref: seq<T>, nl: seq<T>)
    requires |tag| == 4 && |date| == 6
    ensures var s := tag + date + [code] + amount + n + id + ref + nl;
      && s[..4] == tag
      && s[4..6] == date[..2] && s[6..8] == date[2..4] && s[8..10] == date[4..]
      && s[10] == code
      && s[11..11 + |amount|] == amount
      && s[11 + |amount|..] == n + id + ref + nl
  {
    var s := tag + date + [code] + amount + n + id + ref + nl;
    assert s == (tag + date + [code] + amount) + (n + id + ref + nl);
  }

  /** The first "SEK" of pre + "SEK" + t is the one after `pre` when `pre` has none. */
  lemma FirstSekAfter(pre: string, t: string)
    requires Absent(pre, "SEK")
    ensures IndexOf(pre + "SEK" + t, "SEK") == Some(|pre|)
  {
    var line := pre + "SEK" + t;
    OccursSek(line, |pre|);
    forall j: nat | j < |pre| ensures !OccursAt(line, "SEK", j) {
      OccursSek(line, j);
      if j + 3 <= |pre| {
        OccursSek(pre, j);
        assert line[j] == pre[j] && line[j + 1] == pre[j + 1] && line[j + 2] == pre[j + 2];
      } else {
        assert line[|pre|] == 'S';
      }
    }
  }

  /** The amount text of digits + "," + rest is the digits. */
  lemma AmountTextOfDigits(digits: string, rest: string)
    requires AllDigits(digits)
    ensures BalanceAmountText(digits + "," + rest) == digits
  {
    var after := digits + "," + rest;
    var part := SplitHead(after, "SEK");
    forall j: nat | j <= |digits| ensures !OccursAt(after, "SEK", j) {
      OccursSek(after, j);
      assert after[j] == (if j < |digits| then digits[j] else ',');
    }
    assert |part| > |digits|;
    assert part[..|digits| + 1] == after[..|digits| + 1];
    var head := SplitHead(part, ",");
    assert OccursAt(part, ",", |digits|) by { assert part[|digits|..|digits| + 1] == ","; }
    forall j: nat | j < |digits| ensures !OccursAt(part, ",", j) {
      assert part[j..j + 1] == [digits[j]];
    }
    assert |head| == |digits|;
    assert head == digits;
  }

  /**
   * Only the integer part of a balance amount is read: for a line "...SEK<digits>,<rest>"
   * the amount is <digits>, whatever the fractional digits after the comma are.
   */
  lemma BalanceAmountDropsFraction(pre: string, digits: string, rest: string)
    requires Absent(pre, "SEK") && |digits| > 0 && AllDigits(digits)
    ensures var line := pre + "SEK" + digits + "," + rest;
      && IndexOf(line, "SEK") == Some(|pre|)
      && ParseDecimal(BalanceAmountText(line[|pre| + 3..])) == Some(Dec(false, ParseDigits(digits), 0))
  {
    var after := digits + "," + rest;
    BalanceLineParts(pre, digits, rest);
    FirstSekAfter(pre, after);
    AmountTextOfDigits(digits, rest);
    ParseDigitString(digits);
  }

  /**
   * A balance line "<pre>SEK<digits>,<rest>" whose prefix has no "SEK" becomes the prefix,
   * "EUR" and the integer amount <digits> converted at the rate of the first (:60F:) or
   * last (:62F:) record's date, to two decimals, and a newline; the cursor is unchanged.
   */
  lemma BalanceStep(c: Cursor, pre: string, digits: string, rest: string, lineNo: nat,
                    txs: seq<Transaction>, rates: RateOracle)
    requires StartsWith(pre, ":60F:") || StartsWith(pre, ":62F:")
    requires Absent(pre, "SEK") && |digits| > 0 && AllDigits(digits) && |txs| > 0
    ensures var date := if StartsWith(pre, ":60F:") then txs[0].date else txs[|txs| - 1].date;
      var line := pre + "SEK" + digits + "," + rest;
      && (rates(date).None? ==> Step(c, line, lineNo, txs, rates) == Failure(RateUnavailable(lineNo)))
      && (rates(date).Some? ==>
            Step(c, line, lineNo, txs, rates)
              == Success((pre + "EUR" + FormatFixed2(ConvertAmount(Dec(false, ParseDigits(digits), 0), rates(date)).value) + "\n", c)))
  {
    var line := pre + "SEK" + digits + "," + rest;
    var opening := StartsWith(pre, ":60F:");
    assert Classify(line) == if opening then OpeningBalance else ClosingBalance by {
      BalanceTagKept(pre, digits, rest);
    }
    StepOfBalance(c, line, lineNo, txs, rates);
    RewriteBalanceOfDigits(pre, digits, rest, lineNo, txs, opening, rates);
  }

  lemma StepOfBalance(c: Cursor, line: string, lineNo: nat, txs: seq<Transaction>, rates: RateOracle)
    requires Classify(line) == OpeningBalance || Classify(line) == ClosingBalance
    ensures Step(c, line, lineNo, txs, rates) ==
      match RewriteBalance(line, lineNo, txs, Classify(line) == OpeningBalance, rates)
      case Failure(e) => Failure(e)
      case Success(s) => Success((s, c))
  {
  }

  /** RewriteBalance on "<pre>SEK<digits>,<rest>": the integer amount converted at the date's rate. */
  lemma RewriteBalanceOfDigits(pre: string, digits: string, rest: string, lineNo: nat,
                               txs: seq<Transaction>, opening: bool, rates: RateOracle)
    requires Absent(pre, "SEK") && |digits| > 0 && AllDigits(digits) && |txs| > 0
    ensures var date := if opening then txs[0].date else txs[|txs| - 1].date;
      var r := RewriteBalance(pre + "SEK" + digits + "," + rest, lineNo, txs, opening, rates);
      var v := ConvertAmount(Dec(false, ParseDigits(digits), 0), rates(date));
      && (v.None? ==> r == Failure(RateUnavailable(lineNo)))
      && (v.Some? ==> r == Success(pre + "EUR" + FormatFixed2(v.value) + "\n"))
  {
    var line := pre + "SEK" + digits + "," + rest;
    var k, amount := |pre|, Dec(false, ParseDigits(digits), 0);
    assert IndexOf(line, "SEK") == Some(k) && ParseDecimal(BalanceAmountText(line[k + 3..])) == Some(amount) by {
      BalanceAmountDropsFraction(pre, digits, rest);
    }
    assert line[..k] == pre by {
      BalanceLineParts(pre, digits, rest);
    }
    RewriteBalanceAt(line, k, amount, lineNo, txs, opening, rates);
  }

  /** How "<pre>SEK<digits>,<rest>" splits around its "SEK". */
  lemma BalanceLineParts(pre: string, digits: string, rest: string)
    ensures var line := pre + "SEK" + digits + "," + rest;
      && line == pre + "SEK" + (digits + "," + rest)
      && line[..|pre|] == pre
      && line[|pre| + 3..] == digits + "," + rest
  {
    var line := pre + "SEK" + digits + "," + rest;
    assert line == pre + ("SEK" + (digits + "," + rest));
  }

  /** RewriteBalance once the first "SEK" is at `k` and the amount text reads as `amount`. */
  lemma RewriteBalanceAt(line: string, k: nat, amount: Dec, lineNo: nat,
                         txs: seq<Transaction>, opening: bool, rates: RateOracle)
    requires IndexOf(line, "SEK") == Some(k) && |txs| > 0
    requires ParseDecimal(BalanceAmountText(line[k + 3..])) == Some(amount)
    ensures var date := if opening then txs[0].date else txs[|txs| - 1].date;
      var r := RewriteBalance(line, lineNo, txs, opening, rates);
      var v := ConvertAmount(amount, rates(date));
      && (v.None? ==> r == Failure(RateUnavailable(lineNo)))
      && (v.Some? ==> r == Success(line[..k] + "EUR" + FormatFixed2(v.value) + "\n"))
  {
  }

  /** Text appended to a :60F: or :62F: prefix does not change how the line is classified. */
  lemma BalanceTagKept(pre: string, digits: string, rest: string)
    requires StartsWith(pre, ":60F:") || StartsWith(pre, ":62F:")
    ensures var line := pre + "SEK" + digits + "," + rest;
      Classify(line) == if StartsWith(pre, ":60F:") then OpeningBalance else ClosingBalance
  {
    var line := pre + "SEK" + digits + "," + rest;
    assert line[..5] == pre[..5];
    if !StartsWith(pre, ":60F:") {
      assert line[..5][2] == '2';
    }
  }

  /** A string without the letter 'S' contains no "SEK". */
  lemma NoLetterS(s: string)
    requires forall i :: 0 <= i < |s| ==> s[i] != 'S'
    ensures Absent(s, "SEK")
  {
    forall j: nat | j <= |s| ensures !OccursAt(s, "SEK", j) {
      if j + 3 <= |s| {
        assert s[j..j + 3][0] == s[j];
      }
    }
  }

  // ---------------------------------------------------------------------
  // Worked examples

  /** ":25:1234567890SEK" becomes ":25:1234567890EUR". */
  lemma AccountExample(c: Cursor, txs: seq<Transaction>, rates: RateOracle)
    ensures Step(c, ":25:1234567890SEK", 0, txs, rates) == Success((":25:1234567890EUR", c))
  {
    var p := ":25:1234567890";
    var line := p + "SEK";
    assert line == ":25:1234567890SEK";
    assert p + "EUR" == ":25:1234567890EUR";
    assert line[2] == '5' && line[..4] == ":25:";
    assert line[..5] != ":60F:" && line[..5] != ":62F:" by { assert line[..5][2] == line[2]; }
    assert "SEK"[..3] == "SEK" && "SEK"[3..] == "";
    assert ReplaceAll("SEK", "SEK", "EUR") == "EUR";
    ReplaceAfter(p, "SEK", "SEK", "EUR");
  }

  /** 1000 at a rate of 0.0920 is 92.00, written "92.00". */
  lemma ConversionExample()
    ensures ConvertAmount(Dec(false, 1000, 0), Some(Dec(false, 920, 4))) == Some(Dec(false, 9200, 2))
    ensures FormatFixed2(Dec(false, 9200, 2)) == "92.00"
  {
    var m := Mul(Dec(false, 1000, 0), Dec(false, 920, 4));
    assert m == Dec(false, 920000, 4);
    assert Pow10(2) == 100;
    NearestEvenUnique(920000, 100, 9200, RoundHalfEven(920000, 100));
    assert Quantize(m) == Dec(false, 9200, 2);
    assert Pow10(0) == 1;
    assert NatToDigits(92) == "92";
    assert TwoDigits(0) == "00";
  }

  /** ":60F:C240101SEK1000,00" at a rate of 0.0920 becomes ":60F:C240101EUR92.00". */
  lemma OpeningBalanceExample(c: Cursor, t: Transaction, rates: RateOracle)
    requires rates(t.date) == Some(Dec(false, 920, 4))
    ensures Step(c, ":60F:C240101SEK1000,00\n", 0, [t], rates) == Success((":60F:C240101EUR92.00\n", c))
  {
    var pre, digits, rest := ":60F:C240101", "1000", "00\n";
    assert pre + "SEK" + digits + "," + rest == ":60F:C240101SEK1000,00\n";
    assert pre + "EUR" + "92.00" + "\n" == ":60F:C240101EUR92.00\n";
    NoLetterS(pre);
    assert pre[..5] == ":60F:";
    assert digits[..3] == "100" && "100"[..2] == "10" && "10"[..1] == "1" && "1"[..0] == "";
    assert ParseDigits(digits) == 1000;
    BalanceStep(c, pre, digits, rest, 0, [t], rates);
    ConversionExample();
  }
}
