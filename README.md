# mt940-fix: the SEK to EUR statement rewriter, modelled in Dafny

`app.py` reads an MT940 bank statement line by line. It writes the statement back
with the Swedish-krona figures turned into euros. Most lines are copied unchanged.
Five tags are rewritten:

- `:60F:` (opening balance) and `:62F:` (closing balance): the amount after the first
  `SEK` is multiplied by the exchange rate on the first or last transaction's date
  and rounded to cents. The line becomes the text before `SEK`, then `EUR`, the new
  amount and a newline.
- `:25:` (account identification): every `SEK` becomes `EUR`.
- `:61:` (statement entry): the line is rebuilt from the next record the external
  MT940 parser returned. It holds the date as `yymmdd`, the funds code `C` or `D`,
  the absolute converted amount, `N`, the transaction code (default `NMSC`) and the
  customer reference (default `NONREF`).
- `:86:` (information to account owner): the line is replaced by the details of the
  record the last `:61:` line took (default empty).

The Dafny project models:

- the conversion helper `convert_amount`: an exact decimal product, then
  `quantize(Decimal('0.01'))` with round-half-even;
- the `Decimal` parsing and `:.2f` printing it relies on;
- the string operations the rewriter uses;
- the rewriting loop `convert_mt940`, as an imperative method.

That method is proved against a recursive function over the lines, `Statement.Run`.
The lemmas in `StatementProperties` then say what `Run` does, line by line.

Files:

- `wrappers.dfy`: `Option` and `Result`.
- `numerals.dfy`: decimal digit strings and powers of ten.
- `text.dfy`: `startswith`, `find`, `split(...)[0]`, `replace`, `strip`, and the
  `SEK` to `EUR` swap.
- `decimals.dfy`: the Decimal values. A value is a sign, a magnitude and a scale.
- `statement.dfy`: the records, the per-line `Step`, `Run`, and the loop methods
  `ConvertLine` and `ConvertStatement`.
- `statement_properties.dfy`: what a run does to each line, and worked examples.

The rate lookup `fetch_exchange_rate` is a parameter `rates: Date -> Option<Dec>`.
`None` stands for the lookup's failure value, on which `convert_amount` raises a
`TypeError`. Each of the following Python exceptions of the loop becomes an `Error`
carrying the index of the offending line (the exceptions that are not modelled are
listed under "Left out"):

- `MalformedAmount`: `Decimal()` rejects the text;
- `NoTransactions`: `transactions[0]` or `transactions[-1]` on an empty list;
- `CursorOverrun`: `transactions[transaction_index]` is out of range;
- `RateUnavailable`: the rate is missing;
- `NoCurrentTransaction`: `transaction` is not yet bound at a `:86:` line.

The model follows the code as written, including behaviour a reader might not
expect:

- A balance amount is read by `split('SEK')[1].split(',')[0]`. The text after the
  comma, the fractional part, is dropped, and `.replace(',', '.')` has no comma left
  to replace. `SEK1000,50` therefore converts 1000, as `BalanceAmountDropsFraction`
  shows.
- A rewritten balance line ends right after the amount with `"\n"`. Whatever
  followed the amount is dropped.
- A `:86:` line before any `:61:` line stops the conversion. The code raises there;
  it does not fall back to the empty default.
- More `:61:` lines than records stops the conversion with `CursorOverrun`. Fewer
  `:61:` lines than records is not detected.
- Rounding is Decimal's default, round-half-even: 10.005 becomes 10.00.
- A converted zero with a minus sign prints as `-0.00` in a balance line. `:61:`
  lines print `abs(...)`, which clears the sign of a negative zero too. So their
  amount never starts with a minus sign, and a zero prints as `0.00` there.
- A missing rate stops the whole conversion, as the code's `TypeError` does. No
  result is produced for any line.

## Model

| member | source | states |
|---|---|---|
| Decimals.Abs | app.py:87 | `abs()` clears the sign, also that of a negative zero; it keeps magnitude and scale, and its value is the absolute value |
| Decimals.Mul | app.py:35 | the sign of a product is the exclusive or of the signs |
| Decimals.MulExact | app.py:35 | the product is exact: its value is the product of the values |
| Decimals.RoundHalfEven | app.py:35 | the quotient rounded to nearest: at most half a unit off, and a tie only at an even result |
| Decimals.Quantize | app.py:35 | `quantize(Decimal('0.01'))` has scale 2, keeps the sign and rounds the magnitude half-even to cents |
| Decimals.QuantizeUnique | app.py:35 | only one cent count meets the half-even rule, so Quantize is the rule and not one choice among several |
| Decimals.QuantizeIdempotent | app.py:35 | quantizing a value already in cents changes nothing |
| Decimals.QuantizeWithinHalfCent | app.py:35 | the quantized value is within 0.005 of the exact value |
| Decimals.QuantizeTiesToEven | app.py:35 | ties go to even cents: 10.005 → 10.00, 10.015 → 10.02, -10.005 → -10.00 |
| Decimals.ConvertAmount | app.py:34-35 | a result exists exactly when the rate does; it has scale 2, its sign is the exclusive or of the signs, and its cents are the half-even rounding of amount × rate |
| Decimals.ConvertAmountWithinHalfCent | app.py:34-35 | the converted amount is within half a cent of amount × rate |
| Decimals.ConvertZero | app.py:34-35 | a zero amount converts to a zero in cents; with `abs` it prints `0.00`, and without it `-0.00` when the signs differ |
| Decimals.FormatFixed2 | app.py:56 | `:.2f` ends in a point and two digits, and starts with a minus exactly for a negative sign |
| Decimals.FormatFixed2Shape | app.py:56 | after the sign, `:.2f` prints digits without a leading zero (a lone `0` aside), a point and two digits |
| Decimals.FormatFixed2Unique | app.py:56 | any text with that sign and shape that reads back as the rounded value is exactly what `:.2f` prints |
| Decimals.CentsShapeInjective | app.py:56 | two such unsigned texts denoting the same number of cents are the same text |
| Numerals.DigitsCanonical | app.py:56 | a digit string without a leading zero is the shortest spelling of its value |
| Numerals.DigitsInjective | app.py:56 | digit strings without a leading zero that denote the same number are equal |
| Decimals.FormatZero | app.py:56 | a zero in cents prints `0.00`, or `-0.00` for a negative zero |
| Decimals.FormatParseRoundTrip | app.py:56 | reading back what `:.2f` printed gives the quantized value |
| Decimals.ParseDecimal | app.py:52 | `Decimal()` of a balance amount text: a text it accepts is not blank once stripped, and the result is negative exactly when the stripped text starts with `-` |
| Decimals.ParseDecimalAccepts | app.py:52 | a text is accepted exactly when, once stripped, it is an optional sign followed by digits and at most one point, with at least one digit (both directions) |
| Decimals.ShapeParses | app.py:52 | every digits-with-at-most-one-point text with at least one digit is read as an unsigned number |
| Decimals.StripSurrounded | app.py:52 | stripping whitespace from around a text whose ends are not whitespace gives that text back |
| Decimals.ParseSignedSpaced | app.py:52 | with whitespace around it and an optional sign, a number reads as its unsigned reading, negative exactly for a `-` sign |
| Decimals.ParsePointNumber | app.py:52 | `Decimal()` of whitespace, an optional sign, digits, a point, digits and whitespace is the number of all the digits, with as many places as follow the point and a negative sign exactly for `-` |
| Decimals.ParseIntegerNumber | app.py:52 | `Decimal()` of whitespace, an optional sign, digits and whitespace is that integer, with no places, negative exactly for `-` |
| Decimals.ParseDigitString | app.py:52 | `Decimal()` of a non-empty digit string is that non-negative integer |
| Numerals.NatToDigits | app.py:56 | the integer part is printed without leading zeros and reads back as the number |
| Numerals.ParseDigitsAppend | app.py:56 | the value of joined digit strings is the first value shifted by the second's length plus the second value |
| Statement.YyMmDd | app.py:87 | `strftime('%y%m%d')` gives six digits that read back as year mod 100, month and day |
| Text.IndexOf | app.py:49 | the first occurrence of the pattern, and none exactly when the pattern does not occur |
| Text.SplitHead | app.py:51 | `split(sep)[0]` is a prefix with no separator in it, ending at the end or at the first separator |
| Text.ReplaceAll | app.py:71 | `replace` leaves a string without the pattern unchanged and keeps the length when the replacement is as long as the pattern (the character-by-character result for SEK is Text.SekToEurAt) |
| Text.ReplaceAfter | app.py:71 | `replace` copies a prefix in which the pattern's first letter does not occur |
| Text.SekToEurAt | app.py:71 | `replace('SEK', 'EUR')` character by character: the matching letter of EUR inside an occurrence of SEK, the original character everywhere else |
| Text.SekToEur | app.py:71 | `replace('SEK', 'EUR')` keeps the length, writes EUR over every occurrence of SEK, keeps every character outside the occurrences, and leaves no SEK |
| Text.Strip | app.py:52 | the whitespace `Decimal()` ignores: the stripped text neither starts nor ends with whitespace, and text without whitespace at its ends is unchanged |
| Text.StripLeftSpaces | app.py:52 | the left strip keeps a suffix and what it removes is whitespace |
| Text.StripRightSpaces | app.py:52 | the right strip keeps a prefix and what it removes is whitespace |
| Text.StripRemovesSpaces | app.py:52 | the stripped text stands in the original between a whitespace-only prefix and a whitespace-only suffix |
| Text.StripsToUnique | app.py:52 | only one text stands between whitespace-only ends without whitespace at its own ends, so Strip is the only such result |
| Statement.BalanceAmountText | app.py:49-52 | the amount text is a prefix of what follows the first SEK, holds neither a comma nor SEK, and ends at the end, a comma or the next SEK |
| Statement.RewriteBalance | app.py:47-67 | a balance line without SEK is kept; an error names this line; a rewritten line needs a record and ends in a point, two digits and a newline |
| Statement.Classify | app.py:47-89 | the line kind is each tag exactly when the line starts with that tag; the five tags exclude one another, so the order of the tests does not matter |
| Statement.EntryLine | app.py:87 | the rebuilt `:61:` line starts with its tag and ends in a newline |
| Statement.EntryLineKind | app.py:87 | a rebuilt `:61:` line is classified as a `:61:` line again |
| Statement.DetailLine | app.py:91 | the rebuilt `:86:` line is the tag, the details (default empty) and a newline |
| Statement.DetailLineKind | app.py:91 | a rebuilt `:86:` line is classified as a `:86:` line again |
| Statement.FundsCode | app.py:79 | the funds code is C exactly when the record's amount is at least zero, D otherwise |
| Statement.Step | app.py:47-91 | an error names this line; a `:61:` line needs a record and moves the cursor onto it; other lines leave the cursor alone |
| Statement.Run | app.py:43-93 | one output line per input line; the final cursor index is the number of `:61:` lines, at most the number of records; an error names an input line |
| Statement.CountEntries | app.py:73-75 | the number of `:61:` lines is at most the number of lines |
| Statement.CountEntriesNext | app.py:73-75 | one more line adds one to the count exactly when it is a `:61:` line |
| Statement.CountEntriesZero | app.py:73-75 | the count is zero exactly when no line is a `:61:` line |
| Statement.CountEntriesAppend | app.py:73-75 | counting two pieces of a statement adds up |
| Statement.RunFailureNext | app.py:46-93 | a failed prefix stays failed with the same error one line further |
| Statement.RunFailurePersists | app.py:46-93 | once a prefix of the lines fails, the whole run fails with the same error |
| Statement.ConvertLine | app.py:47-92 | one pass of the loop body does what Step says, with the same error |
| Statement.ConvertStatement | app.py:38-96 | the loop succeeds exactly when Run does, and returns Run's lines or Run's error |
| StatementProperties.CursorAt | app.py:44-75 | the cursor before line i: its index, `transaction_index`, is the number of `:61:` lines before i, and it holds a record, `transaction`, exactly when that index is between 1 and the number of records, namely the record the last `:61:` line took |
| StatementProperties.StepMovesCursor | app.py:73-75 | a successful step from the cursor before a line gives the cursor before the next line |
| StatementProperties.RunSucceeds | app.py:46-93 | a successful run rewrites each line by Step under the cursor its preceding lines leave, and ends at the cursor for all lines |
| StatementProperties.RunFails | app.py:46-93 | a failed run stops at the first line whose Step fails, with that line's error, and every earlier line steps without error |
| StatementProperties.PassthroughLine | app.py:46-93 | a line with none of the five tags is copied unchanged and consumes no record |
| StatementProperties.AccountLine | app.py:69-71 | a `:25:` line has every SEK replaced by EUR and every other character kept: same length, same tag, same final newline, no SEK left |
| StatementProperties.AccountSwap | app.py:69-71 | the same for any text starting with `:25:`, without a run |
| StatementProperties.BalanceLine | app.py:47-67 | a balance line without SEK is kept; otherwise its amount parses, its rate exists, and it becomes the text before SEK + EUR + the converted amount to two places + newline, at the first record's date for `:60F:` and the last's for `:62F:` |
| StatementProperties.BalanceAmountDropsFraction | app.py:49-52 | for `…SEK<digits>,<rest>` the first SEK is the one after the prefix, and the amount read is the integer `<digits>`, whatever follows the comma |
| StatementProperties.BalanceStep | app.py:47-67 | a balance line `<tag…>SEK<digits>,<rest>` becomes its prefix + EUR + the converted integer amount + newline, or fails with the missing rate |
| StatementProperties.EntryLineAt | app.py:73-87 | the k-th `:61:` line has record k, its rate exists, it is rebuilt from that record, and the count of consumed records grows by one |
| StatementProperties.MoreEntriesThanRecordsFails | app.py:73-75 | more `:61:` lines than records makes the run fail |
| StatementProperties.EntryLineFields | app.py:77-87 | the rebuilt `:61:` line reads back: date fields, C exactly for a non-negative amount and D for a negative one, the absolute converted amount to two places, which never starts with a minus sign, then N, transaction code and customer reference with their defaults |
| StatementProperties.DetailLineAt | app.py:89-91 | a `:86:` line comes after some `:61:` line and becomes `:86:` + details of the last record taken (default empty) + newline, consuming nothing |
| StatementProperties.DetailStep | app.py:89-91 | a successful step on a `:86:` line needs a current record, writes its details and keeps the cursor |
| StatementProperties.DetailBeforeEntryFails | app.py:89-90 | a `:86:` line before any `:61:` line makes the run fail |
| StatementProperties.AccountExample | app.py:69-71 | `:25:1234567890SEK` becomes `:25:1234567890EUR` |
| StatementProperties.ConversionExample | app.py:34-35 | 1000 at 0.0920 converts to 92.00 and prints `92.00` |
| StatementProperties.OpeningBalanceExample | app.py:47-56 | `:60F:C240101SEK1000,00` with a rate of 0.0920 becomes `:60F:C240101EUR92.00` and a newline |

## Left out

- `fetch_exchange_rate` (app.py:15-31) is not modelled: its HTTP request, JSON
  decoding, printing and API key are I/O. It is the `rates` parameter, a pure function
  of the date, so two lookups for the same date give the same answer.
- File reading and writing, `mt940.parse`, `count_transactions`, the command line and
  `dotenv` are I/O or foreign code. The parsed records are the `txs` parameter.
- Reading the input file: the lines are given as `readlines()` returns them from a
  file opened in text mode, that is after universal-newline translation, each with
  its line terminator.
- Exceptions that escape `fetch_exchange_rate` (a failed `requests.get`, or an
  exception other than a `ValueError` while reading the response) are not modelled:
  a rate is either returned or `None`.
- Decimals.Mul: exact, where Python's default context rounds a product to 28
  significant digits before `quantize` sees it. The rate from the JSON decoding is
  `Decimal` of a binary float, which is exact and has some 50 significant digits, so
  that rounding does happen. Within these bounds it cannot change the cents:
  - Rounding to 28 digits moves a product below 10^9 by at most 5·10^-20.
  - A float rate between 1/16 and 1/8, where SEK→EUR's 0.09 lies, is m/2^56 for an
    integer m.
  - So a product of that rate with an amount in cents or in whole units is either
    exactly a half-cent tie or at least 1/(200·2^56) away from every tie. That is
    about 6.9·10^-20.
  - No tie can therefore be reached or crossed, and rounding half-even to cents
    gives the same result either way.

  Outside these bounds the model can differ from Python.
- Decimals.Quantize: the InvalidOperation raised when a result would need more than
  28 digits is not modelled.
- Decimals.ParseDecimal: accepts only an optional sign and digits with at most one
  point, between whitespace as Python's `str.isspace` defines it (Text.IsSpace).
  Exponents, `NaN`, `Infinity`, underscores and non-ASCII digits are rejected here
  although Python accepts them.
- Text.ReplaceAll: its own contract is generic. The character-by-character result is
  proved only for the pattern the program uses, SEK to EUR (Text.SekToEurAt).
- Statement.Transaction: a record whose `id`, `customer_reference` or
  `transaction_details` key holds `None` (Python would print `None`) is not
  distinguished from a missing key.
- Statement.Date: days are 1 to 31 in every month; calendar validity is the parser's
  business.
