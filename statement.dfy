/**
 * The statement rewriter `convert_mt940`: each raw MT940 line is kept, rewritten or
 * re-serialised according to its tag, with a forward cursor into the transaction
 * records the external parser produced.
 */
module Statement {
  import opened Wrappers
  import opened Numerals
  import opened Text
  import opened Decimals

  type Year = y: int | 1 <= y <= 9999 witness 1
  type Month = m: int | 1 <= m <= 12 witness 1
  type Day = d: int | 1 <= d <= 31 witness 1

  /** A calendar date as Python's `datetime.date` holds it. */
  datatype Date = Date(year: Year, month: Month, day: Day)

  /** `date.strftime('%y%m%d')` */
  function YyMmDd(d: Date): (s: string)
    ensures |s| == 6 && AllDigits(s)
    ensures ParseDigits(s[..2]) == d.year % 100
    ensures ParseDigits(s[2..4]) == d.month
    ensures ParseDigits(s[4..]) == d.day
  {
    var y, m, dd := TwoDigits(d.year % 100), TwoDigits(d.month), TwoDigits(d.day);
    var s := y + m + dd;
    assert s[..2] == y && s[2..4] == m && s[4..] == dd;
    AllDigitsAppend(y, m);
    AllDigitsAppend(y + m, dd);
    s
  }

  /**
   * One record of the external parser's output: `data['date']`, `data['amount'].amount`
   * and the optional keys `id`, `customer_reference` and `transaction_details`
   * (`None` when the key is absent).
   */
  datatype Transaction = Transaction(
    date: Date,
    amount: Dec,
    id: Option<string>,
    customerReference: Option<string>,
    details: Option<string>)

  /** The exchange-rate lookup for SEK to EUR on a date; `None` is a failed lookup. */
  type RateOracle = Date -> Option<Dec>

  datatype LineKind = OpeningBalance | ClosingBalance | AccountId | Entry | Detail | Other

  /** The second and third characters of a line that starts with one of the five tags. */
  lemma TagLetters(line: string)
    ensures StartsWith(line, ":60F:") ==> line[1] == '6' && line[2] == '0'
    ensures StartsWith(line, ":62F:") ==> line[1] == '6' && line[2] == '2'
    ensures StartsWith(line, ":25:") ==> line[1] == '2' && line[2] == '5'
    ensures StartsWith(line, ":61:") ==> line[1] == '6' && line[2] == '1'
    ensures StartsWith(line, ":86:") ==> line[1] == '8' && line[2] == '6'
  {
    if |line| >= 4 {
      assert line[1] == line[..4][1] && line[2] == line[..4][2];
    }
    if |line| >= 5 {
      assert line[1] == line[..5][1] && line[2] == line[..5][2];
    }
  }

  /**
   * The tag tests of the loop, in the order the loop makes them. No line starts with
   * two of the tags, so each kind is exactly the lines starting with its tag.
   */
  function Classify(line: string): (k: LineKind)
    ensures k == OpeningBalance <==> StartsWith(line, ":60F:")
    ensures k == ClosingBalance <==> StartsWith(line, ":62F:")
    ensures k == AccountId <==> StartsWith(line, ":25:")
    ensures k == Entry <==> StartsWith(line, ":61:")
    ensures k == Detail <==> StartsWith(line, ":86:")
  {
    TagLetters(line);
    if StartsWith(line, ":60F:") then OpeningBalance
    else if StartsWith(line, ":62F:") then ClosingBalance
    else if StartsWith(line, ":25:") then AccountId
    else if StartsWith(line, ":61:") then Entry
    else if StartsWith(line, ":86:") then Detail
    else Other
  }

  /** Why a conversion stops; `line` is the 0-based index of the offending input line. */
  datatype Error =
    | MalformedAmount(line: nat)       // Decimal(...) rejects the balance amount text
    | NoTransactions(line: nat)        // transactions[0] or transactions[-1] of an empty list
    | CursorOverrun(line: nat)         // transactions[transaction_index] past the end
    | RateUnavailable(line: nat)       // the rate lookup returned None
    | NoCurrentTransaction(line: nat)  // a :86: line while `transaction` is still unbound

  /** The loop's state besides the output: `transaction_index` and the last record consumed. */
  datatype Cursor = Cursor(index: nat, current: Option<Transaction>)

  /**
   * The text a balance line's amount is read from, given what follows the first "SEK":
   * `parts[1].split(',')[0].replace(',', '.')`, where `parts[1]` ends at the next "SEK".
   */
  function BalanceAmountText(afterSek: string): (r: string)
    ensures StartsWith(afterSek, r)
    ensures Absent(r, ",") && Absent(r, "SEK")
    ensures |r| == |afterSek| || OccursAt(afterSek, ",", |r|) || OccursAt(afterSek, "SEK", |r|)
  {
    var part := SplitHead(afterSek, "SEK");
    var head := SplitHead(part, ",");
    assert Absent(head, "SEK") by {
      forall j: nat | j <= |head| && OccursAt(head, "SEK", j) ensures false {
        OccursInPrefix(part, head, "SEK", j);
      }
    }
    assert head[..] == afterSek[..|head|];
    assert |head| < |part| ==> OccursAt(afterSek, ",", |head|) by {
      if |head| < |part| {
        assert OccursAt(part, ",", |head|);
        assert part[|head|..|head| + 1] == afterSek[|head|..|head| + 1];
      }
    }
    ReplaceAll(head, ",", ".")
  }

  /** A line that ends in a point, two digits and a newline. */
  predicate EndsWithCents(s: string) {
    |s| >= 4 && s[|s| - 1] == '\n' && s[|s| - 4] == '.' && IsDigit(s[|s| - 3]) && IsDigit(s[|s| - 2])
  }

  lemma CentsLine(prefix: string, d: Dec)
    ensures EndsWithCents(prefix + FormatFixed2(d) + "\n")
  {
    var a := FormatFixed2(d);
    var s := prefix + a + "\n";
    assert s[|s| - 4] == a[|a| - 3];
    assert s[|s| - 3] == a[|a| - 2];
    assert s[|s| - 2] == a[|a| - 1];
  }

  /**
   * The :60F: (opening) and :62F: (closing) branch: a line without "SEK" is kept.
   * Otherwise the amount after "SEK" is converted at the rate of the first (opening)
   * or last (closing) record's date and the line becomes the text before "SEK",
   * "EUR", the amount to two decimals and a newline.
   */
  function RewriteBalance(line: string, lineNo: nat, txs: seq<Transaction>, opening: bool, rates: RateOracle)
    : (r: Result<string, Error>)
    ensures Absent(line, "SEK") ==> r == Success(line)
    ensures r.Failure? ==> r.error.line == lineNo
    ensures r.Success? && !Absent(line, "SEK") ==> |txs| > 0 && EndsWithCents(r.value)
  {
    match IndexOf(line, "SEK")
    case None => Success(line)
    case Some(k) =>
      match ParseDecimal(BalanceAmountText(line[k + 3..]))
      case None => Failure(MalformedAmount(lineNo))
      case Some(amount) =>
        if |txs| == 0 then Failure(NoTransactions(lineNo))
        else
          var date := if opening then txs[0].date else txs[|txs| - 1].date;
          match ConvertAmount(amount, rates(date))
          case None => Failure(RateUnavailable(lineNo))
          case Some(converted) =>
            CentsLine(line[..k] + "EUR", converted);
            Success(line[..k] + "EUR" + FormatFixed2(converted) + "\n")
  }

  /** The funds code of a :61: line: 'C' for an amount >= 0, 'D' otherwise. */
  function FundsCode(amount: Dec): (c: char)
    ensures c == 'C' || c == 'D'
    ensures c == 'C' <==> Value(amount) >= 0.0
    ensures c == 'D' <==> Value(amount) < 0.0
  {
    NonNegativeValue(amount);
    if IsNonNegative(amount) then 'C' else 'D'
  }

  /**
   * The re-serialised :61: line for a record whose converted amount is `converted`.
   * It is again a :61: line, so a second pass would treat it as one.
   */
  function EntryLine(t: Transaction, converted: Dec): (s: string)
    ensures StartsWith(s, ":61:") && s[|s| - 1] == '\n'
  {
    var s := ":61:" + YyMmDd(t.date) + [FundsCode(t.amount)] + FormatFixed2(Abs(converted))
      + "N" + t.id.GetOr("NMSC") + t.customerReference.GetOr("NONREF") + "\n";
    assert s[..4] == ":61:";
    s
  }

  /** A re-serialised :61: line is classified as a :61: line again. */
  lemma EntryLineKind(t: Transaction, converted: Dec)
    ensures Classify(EntryLine(t, converted)) == Entry
  {
  }

  /** The :86: line carrying a record's details: the tag, the details and a newline. */
  function DetailLine(t: Transaction): (s: string)
    ensures StartsWith(s, ":86:") && s[|s| - 1] == '\n'
    ensures s[4..|s| - 1] == t.details.GetOr("")
  {
    var s := ":86:" + t.details.GetOr("") + "\n";
    assert s[..4] == ":86:";
    s
  }

  /** A rewritten :86: line is classified as a :86: line again. */
  lemma DetailLineKind(t: Transaction)
    ensures Classify(DetailLine(t)) == Detail
  {
  }

  /** One iteration of the loop: the output line and the new cursor, or why it stops. */
  function Step(c: Cursor, line: string, lineNo: nat, txs: seq<Transaction>, rates: RateOracle)
    : (r: Result<(string, Cursor), Error>)
    ensures r.Failure? ==> r.error.line == lineNo
    ensures r.Success? && Classify(line) == Entry ==>
      c.index < |txs| && r.value.1 == Cursor(c.index + 1, Some(txs[c.index]))
    ensures r.Success? && Classify(line) != Entry ==> r.value.1 == c
  {
    match Classify(line)
    case OpeningBalance =>
      (match RewriteBalance(line, lineNo, txs, true, rates)
       case Failure(e) => Failure(e)
       case Success(s) => Success((s, c)))
    case ClosingBalance =>
      (match RewriteBalance(line, lineNo, txs, false, rates)
       case Failure(e) => Failure(e)
       case Success(s) => Success((s, c)))
    case AccountId => Success((ReplaceAll(line, "SEK", "EUR"), c))
    case Entry =>
      if c.index >= |txs| then Failure(CursorOverrun(lineNo))
      else
        var t := txs[c.index];
        (match ConvertAmount(t.amount, rates(t.date))
         case None => Failure(RateUnavailable(lineNo))
         case Some(v) => Success((EntryLine(t, v), Cursor(c.index + 1, Some(t)))))
    case Detail =>
      (match c.current
       case None => Failure(NoCurrentTransaction(lineNo))
       case Some(t) => Success((DetailLine(t), c)))
    case Other => Success((line, c))
  }

  /** How many lines are :61: lines. */
  function CountEntries(lines: seq<string>): (n: nat)
    ensures n <= |lines|
  {
    if |lines| == 0 then 0
    else CountEntries(lines[..|lines| - 1]) + (if Classify(lines[|lines| - 1]) == Entry then 1 else 0)
  }

  /** The count over one more line grows by one exactly for a :61: line. */
  lemma CountEntriesNext(lines: seq<string>, i: nat)
    requires i < |lines|
    ensures CountEntries(lines[..i + 1]) == CountEntries(lines[..i]) + (if Classify(lines[i]) == Entry then 1 else 0)
  {
    PrefixOfPrefix(lines, i + 1, i);
    assert lines[..i + 1][i] == lines[i];
  }

  /** No :61: line is counted exactly when there is none. */
  lemma {:induction false} CountEntriesZero(lines: seq<string>)
    ensures CountEntries(lines) == 0 <==> forall i :: 0 <= i < |lines| ==> Classify(lines[i]) != Entry
    decreases |lines|
  {
    if |lines| > 0 {
      var n := |lines| - 1;
      CountEntriesZero(lines[..n]);
      assert forall i :: 0 <= i < n ==> lines[..n][i] == lines[i];
    }
  }

  /** Counting over two pieces of a statement adds up. */
  lemma {:induction false} CountEntriesAppend(a: seq<string>, b: seq<string>)
    ensures CountEntries(a + b) == CountEntries(a) + CountEntries(b)
    decreases |b|
  {
    if |b| == 0 {
      assert a + b == a;
    } else {
      var n := |b| - 1;
      assert (a + b)[..|a + b| - 1] == a + b[..n];
      assert (a + b)[|a + b| - 1] == b[n];
      CountEntriesAppend(a, b[..n]);
    }
  }

  /** The whole loop over `lines`, as a function: the output lines and the final cursor. */
  function Run(lines: seq<string>, txs: seq<Transaction>, rates: RateOracle)
    : (r: Result<(seq<string>, Cursor), Error>)
    ensures r.Success? ==> |r.value.0| == |lines|
    ensures r.Success? ==> r.value.1.index == CountEntries(lines)
    ensures r.Success? ==> CountEntries(lines) <= |txs|
    ensures r.Failure? ==> r.error.line < |lines|
    decreases |lines|
  {
    if |lines| == 0 then Success(([], Cursor(0, None)))
    else
      var n := |lines| - 1;
      match Run(lines[..n], txs, rates)
      case Failure(e) => Failure(e)
      case Success(done) =>
        match Step(done.1, lines[n], n, txs, rates)
        case Failure(e) => Failure(e)
        case Success(next) => Success((done.0 + [next.0], next.1))
  }

  /**
   * For any function of the prefixes of `lines` that keeps an error once it has one,
   * the error reached on a prefix is the error on the whole.
   */
  lemma {:induction false} PrefixFailurePersists<X>(f: seq<string> -> Result<X, Error>, lines: seq<string>, i: nat, e: Error)
    requires i <= |lines| && f(lines[..i]) == Failure(e)
    requires forall k: nat :: i <= k < |lines| && f(lines[..k]) == Failure(e) ==> f(lines[..k + 1]) == Failure(e)
    ensures f(lines) == Failure(e)
    decreases |lines| - i
  {
    if i < |lines| {
      PrefixFailurePersists(f, lines, i + 1, e);
    } else {
      WholePrefix(lines);
    }
  }

  /** Once a prefix fails, the whole run fails with the same error. */
  lemma RunFailurePersists(lines: seq<string>, txs: seq<Transaction>, rates: RateOracle, i: nat, e: Error)
    requires i <= |lines| && Run(lines[..i], txs, rates) == Failure(e)
    ensures Run(lines, txs, rates) == Failure(e)
  {
    forall k: nat | i <= k < |lines| && Run(lines[..k], txs, rates) == Failure(e)
      ensures Run(lines[..k + 1], txs, rates) == Failure(e)
    {
      RunFailureNext(lines, txs, rates, k, e);
    }
    PrefixFailurePersists((x: seq<string>) => Run(x, txs, rates), lines, i, e);
  }

  /** A failed prefix stays failed, with the same error, one line further on. */
  lemma RunFailureNext(lines: seq<string>, txs: seq<Transaction>, rates: RateOracle, i: nat, e: Error)
    requires i < |lines| && Run(lines[..i], txs, rates) == Failure(e)
    ensures Run(lines[..i + 1], txs, rates) == Failure(e)
  {
    PrefixOfPrefix(lines, i + 1, i);
  }

  /** One more line: Run on the first `i + 1` lines extends Run on the first `i` by one Step. */
  lemma RunNext(lines: seq<string>, txs: seq<Transaction>, rates: RateOracle, i: nat, out: seq<string>, c: Cursor)
    requires i < |lines| && Run(lines[..i], txs, rates) == Success((out, c))
    ensures Run(lines[..i + 1], txs, rates) ==
      match Step(c, lines[i], i, txs, rates)
      case Failure(e) => Failure(e)
      case Success(next) => Success((out + [next.0], next.1))
  {
    PrefixOfPrefix(lines, i + 1, i);
  }

  /**
   * One pass of the loop body of `convert_mt940`: the tag tests in the order the source
   * makes them, updating `transaction_index` and `transaction` for a :61: line.
   * It does what Step says.
   */
  method ConvertLine(line: string, lineNo: nat, txs: seq<Transaction>, rates: RateOracle,
                     transactionIndex: nat, transaction: Option<Transaction>)
    returns (res: Result<(string, nat, Option<Transaction>), Error>)
    ensures var step := Step(Cursor(transactionIndex, transaction), line, lineNo, txs, rates);
      && (res.Success? <==> step.Success?)
      && (res.Success? ==> step.value == (res.value.0, Cursor(res.value.1, res.value.2)))
      && (res.Failure? ==> res.error == step.error)
  {
    var out := line;
    var index, current := transactionIndex, transaction;
    if StartsWith(line, ":60F:") || StartsWith(line, ":62F:") {
      var balance := RewriteBalance(line, lineNo, txs, StartsWith(line, ":60F:"), rates);
      if balance.Failure? {
        return Failure(balance.error);
      }
      out := balance.value;
    } else if StartsWith(line, ":25:") {
      out := ReplaceAll(line, "SEK", "EUR");
    } else if StartsWith(line, ":61:") {
      if index >= |txs| {
        return Failure(CursorOverrun(lineNo));
      }
      var t := txs[index];
      current := Some(t);
      index := index + 1;
      var amount := ConvertAmount(t.amount, rates(t.date));
      if amount.None? {
        return Failure(RateUnavailable(lineNo));
      }
      out := EntryLine(t, amount.value);
    } else if StartsWith(line, ":86:") {
      if current.None? {
        return Failure(NoCurrentTransaction(lineNo));
      }
      out := DetailLine(current.value);
    }
    res := Success((out, index, current));
  }

  /**
   * `convert_mt940` without its file I/O: the converted lines, or why it stopped.
   * Its result is that of Run.
   */
  method ConvertStatement(lines: seq<string>, txs: seq<Transaction>, rates: RateOracle)
    returns (res: Result<seq<string>, Error>)
    ensures res.Success? <==> Run(lines, txs, rates).Success?
    ensures res.Success? ==> res.value == Run(lines, txs, rates).value.0
    ensures res.Failure? ==> res.error == Run(lines, txs, rates).error
  {
    var converted: seq<string> := [];
    var transactionIndex: nat := 0;
    var transaction: Option<Transaction> := None;
    for i := 0 to |lines|
      invariant Run(lines[..i], txs, rates) == Success((converted, Cursor(transactionIndex, transaction)))
    {
      RunNext(lines, txs, rates, i, converted, Cursor(transactionIndex, transaction));
      var r := ConvertLine(lines[i], i, txs, rates, transactionIndex, transaction);
      if r.Failure? {
        res := Failure(r.error);
        RunFailurePersists(lines, txs, rates, i + 1, r.error);
        return;
      }
      converted := converted + [r.value.0];
      transactionIndex, transaction := r.value.1, r.value.2;
    }
    WholePrefix(lines);
    res := Success(converted);
  }
}
