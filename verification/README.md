# Loan ledger: CSV records and equal monthly installments

This project models the freestanding core of `OSandURLlib.py`. The script
reads a comma-separated loan ledger into a list of records, one
insertion-ordered dict per line. It then adds to each record its equal
monthly installment (EMI), computed from the record's `amount`, `duration`,
`rate` and `down_payment`. Finally it writes the records back out as
comma-separated text.

The model is written in Dafny, as pure functions over immutable data:

- `Results` (`results.dfy`): `Option`, `Result` and the errors the script
  lets escape. Those are `IndexError` on a file with no lines, `KeyError`
  on a missing field, `TypeError` on arithmetic with a text field, and
  `ZeroDivisionError` in the even-split fallback.
- `Strings` (`strings.dfy`): `str.strip()`, `str.split(',')`, `','.join`
  and `readlines()`.
- `Numbers` (`numbers.dfy`): Python floats, as the ledger reads them with
  `float(text)` and prints them with `str(x)`. A float is modelled as an
  exact decimal fraction, `digits / 10^scale`. The type `Float` holds only
  the canonical form, with no trailing zero after the point, and a record
  stores only `Float`s. That form makes two values equal exactly when the
  numbers are, and `float(str(x)) == x`.
- `Records` (`records.dfy`): a record is a dict kept as a sequence of
  `(key, value)` entries in insertion order. A value is a number or text.
  The module covers lookup, `d[k] = v` and `create_item_dict`.
- `Emi` (`emi.dfy`): `loan_emi` over exact real arithmetic. Its partner is
  an amortisation schedule. The balance grows by `1 + rate` each month,
  then one installment is paid. For a rate above -1 and a duration of at
  least one month, the installment `loan_emi` returns is the least whole
  amount that leaves nothing owed after `duration` months. This holds on
  both branches of the source: the annuity formula, and the even split it
  falls back to when the formula divides by zero. Outside that range the
  schedule and the formula part ways (a rate of -3 over two months gives
  -4, though -10 also clears the loan).
- `Ledger` (`ledger.dfy`):
  - `parse_headers`, `parse_values` and `read_csv` over the file's lines and
    over its text;
  - the per-record `loan_emi` call, and `addEmi`;
  - `toCSVfile` as the lines and text it writes.

  Its partner is a round trip: reading what `toCSVfile` writes gives back
  every record, keys in order, with each value as `float` reads what `str`
  printed. This needs at least one record, and the first record needs at
  least one key. `toCSVfile` writes only the first record's keys, so every
  record must have exactly those keys, in the same order. It also needs no
  comma in a key or a printed value, and no whitespace at the two ends of
  a written line. Whitespace inside a line, as in a key `" b"`, is carried
  through. Reading the file as text also needs no line break inside a
  cell. When every text value is stable (non-empty and not a number), the
  records come back exactly.

Where a plain description of the script and its code differ, the model
follows the code:

- Only the whole line is stripped. A header such as `a, b` has the key
  `" b"`, with its space.
- A field is `0.0` only when it is exactly empty. A field of spaces is
  not a number for `float`, so it stays text.
- `addEmi` stores `emi` last only when the record has no `emi` yet. An
  existing `emi` is overwritten in place.
- The even-split fallback runs whenever `(1+rate)**duration == 1`, not
  only for a zero rate (for example `rate == -2` with an even duration).
  It also runs when zero is raised to a negative power.
- The installment stored under `emi` is text (`str` of an int). Read back
  from the written file, that column becomes a number (`RereadEmi`).

## Model

| member | source | states |
|---|---|---|
| Strings.Strip | OSandURLlib.py:28 | `strip()` leaves no whitespace at either end and removes only whitespace, and only from the two ends |
| Strings.Split | OSandURLlib.py:28 | `split(',')` gives one more piece than there are commas; no piece holds a comma; the pieces joined with commas are the input |
| Strings.SplitJoin | OSandURLlib.py:90 | splitting a comma-join of comma-free pieces gives back exactly those pieces |
| Strings.ReadLines | OSandURLlib.py:57 | `readlines()` cuts the text into non-empty lines that concatenate back to it; every line but the last ends in its only newline; the last holds no newline before its final character |
| Strings.ReadLinesConcat | OSandURLlib.py:57 | text written as whole lines is cut by `readlines()` into exactly those lines |
| Numbers.ParseFloat | OSandURLlib.py:38 | a number `float` accepts is returned in canonical form |
| Numbers.ShowDecimal | OSandURLlib.py:95 | `str` of a float is non-empty, has no whitespace at its ends, and uses only digits, a point and a minus sign (so it never holds a comma or line break) |
| Numbers.ShowParse | OSandURLlib.py:38 | `float(str(x)) == x` for every float of the model |
| Numbers.IntToStringParse | OSandURLlib.py:73 | the text `str` gives an installment reads back with `float` as that whole number |
| Records.SetSemantics | OSandURLlib.py:47 | `d[k] = v`: a present key keeps its position, an absent one is added last; `k` then holds `v`; every other key keeps its value; keys stay distinct |
| Records.SetAppends | OSandURLlib.py:47 | assigning an absent key appends exactly one entry |
| Records.ZipPrefixContents | OSandURLlib.py:46-47 | after the first `m` assignments the keys are exactly the first `m` headers, each once, in order of first occurrence, each with its last assigned value |
| Records.CreateItemDict | OSandURLlib.py:44-48 | `zip` stops at the shorter input; a repeated header keeps its first position and takes its last value; the result has distinct keys |
| Records.ZipDistinct | OSandURLlib.py:44-48 | with distinct headers the dict is the zipped pairs themselves, in header order |
| Emi.IntPow | OSandURLlib.py:21 | `x ** n` fails exactly for zero to a negative power, is the repeated product for a natural `n`, and the reciprocal of `x ** -n` for any other negative `n` |
| Emi.Ceil | OSandURLlib.py:24 | `math.ceil` gives the least integer not below its argument |
| Emi.LoanEmi | OSandURLlib.py:10-25 | `loan_emi` fails exactly when the duration is zero, with the fallback's division by zero |
| Emi.ZeroRate | OSandURLlib.py:20-23 | with no interest the formula divides by zero and the result is `ceil(loan / duration)` |
| Emi.InstallmentIsPayoff | OSandURLlib.py:19-24 | for `rate > -1` and a positive duration both branches round up the exact installment that clears the loan |
| Emi.EmiRepaysLoan | OSandURLlib.py:10-25 | paying `loan_emi` each month leaves nothing owed after `duration` months; paying one less does |
| Emi.EmiLeast | OSandURLlib.py:10-25 | every whole installment that pays the loan off is at least `loan_emi` |
| Emi.ExampleLoan | OSandURLlib.py:10-25 | 100000 over 12 months at 1% a month gives 8885 |
| Emi.NegativeRate | OSandURLlib.py:19-24 | at a rate of -3 over two months the formula gives -4, yet -10 also clears the loan: below a rate of -1 the result is not the least repaying installment |
| Ledger.ParseHeaders | OSandURLlib.py:27-28 | the headers are the comma-free pieces of the stripped line, at least one, joining back to it |
| Ledger.SpacedHeader | OSandURLlib.py:27-28 | the header line `a, b` gives the keys `a` and ` b`: the space after the comma stays in the key |
| Ledger.ParseValue | OSandURLlib.py:34-40 | an empty field is `0.0`; a field `float` accepts is that number; anything else stays as its own text |
| Ledger.ParseValues | OSandURLlib.py:31-41 | one value per comma-separated piece of the stripped line, in order |
| Ledger.ReadCsv | OSandURLlib.py:52-68 | no lines is an error; otherwise one record per line after the first, in order, each zipping that line's values with the first line's headers |
| Ledger.ReadFile | OSandURLlib.py:55-59 | reading a file fails exactly when it is empty |
| Ledger.RecordEmi | OSandURLlib.py:73 | the first of `amount`, `duration`, `rate`, `down_payment` that is missing raises `KeyError`; success needs all four, numeric |
| Ledger.RecordEmiValue | OSandURLlib.py:73 | with the four fields numeric and a whole duration, the installment is `loan_emi` of their values |
| Ledger.RecordEmiText | OSandURLlib.py:19-21 | with the four fields present and one of them text, the arithmetic raises `TypeError` |
| Ledger.AddEmi | OSandURLlib.py:71-73 | every record gets its installment; the first record whose installment fails stops the pass with its error |
| Ledger.AddEmiFields | OSandURLlib.py:71-73 | after `addEmi` each record holds `emi` (last if new, in place otherwise) as text that reads back as the installment; no other field changes |
| Ledger.Row | OSandURLlib.py:93-95 | a data line's cells are the record's values under the header keys, printed, in header order; the first missing key raises `KeyError` |
| Ledger.Rows | OSandURLlib.py:92-96 | one written line per record, the first record included, in order |
| Ledger.ToCsvLines | OSandURLlib.py:85-96 | no records writes nothing; otherwise the first record's keys, then one line per record; it fails exactly when a record lacks one of those keys |
| Ledger.ToCsv | OSandURLlib.py:85-96 | the file's text fails exactly when the lines do, and `readlines()` cuts it back into exactly the written lines when no written key or value holds a line break |
| Ledger.HeaderRoundTrip | OSandURLlib.py:89-90 | `parse_headers` reads back the header line `toCSVfile` writes, for any comma-free keys whose joined line has no whitespace at its two ends |
| Ledger.RowRoundTrip | OSandURLlib.py:92-96 | `parse_values` reads back a written data line as the record's values, each as `float` reads its printed form, when no printed value holds a comma and the line has no whitespace at its two ends |
| Ledger.CsvRoundTrip | OSandURLlib.py:85-96 | reading the written lines with `read_csv` gives every record back with the same keys in the same order, when there is at least one record, the first has at least one key, every record has exactly the first record's keys in the same order, no key or printed value holds a comma, and no written line starts or ends with whitespace |
| Ledger.CsvRoundTripExact | OSandURLlib.py:85-96 | under the same conditions, and with every text value non-empty and not a number, the records come back exactly |
| Ledger.FileRoundTrip | OSandURLlib.py:85-96 | reading the written file's text gives every record back, keys in order, values as `float` reads their printed form, when additionally no written cell holds a line break |
| Ledger.RereadNum | OSandURLlib.py:95 | every float is printed and read back as itself |
| Ledger.RereadEmi | OSandURLlib.py:73 | the `emi` text is read back as a number |

## Left out

- File and network I/O is not modelled. This covers `open`, the
  directory creation, the download and the script's top-level statements
  (lines 76-82 and 100). The model works on a file's text or its lines.
- The `pandas` reading and writing at lines 102-109 is not modelled.
- Partial effects are not modelled. When `addEmi` raises, the records
  before the failing one have already gained `emi`. When `toCSVfile`
  raises, the lines before the failure are already in the file. The
  model returns only the error.
- `toCSVfile` truncates or creates its file even when there are no
  records. The model says only that nothing is written.
- Newline translation in text mode (`\r\n` read as `\n`) is not modelled.
  Lines are cut at `\n` only.
- Numbers.ParseFloat: covers the decimal grammar only (optional sign,
  digits, at most one point). Exponents, `inf`, `nan`, underscores and
  non-ASCII digits, all of which `float` accepts, read as text here. A
  negative zero reads as zero. `float` also rounds to the nearest double:
  a field with more than about 17 significant digits, such as
  `0.30000000000000001`, is written back by Python as `0.3`, while the
  model keeps every digit.
- Numbers.ShowDecimal: always prints positionally (`12345678901234567.0`).
  Python's `str` switches to exponent notation for very large and very
  small floats and prints `-0.0` for negative zero.
- Emi.LoanEmi: exact real arithmetic stands in for IEEE floats. Rounding
  that moves the formula across an integer, overflow of large powers and
  the resulting `inf` or `OverflowError` are not modelled. Neither is a
  rate so small that `1 + rate` rounds to `1.0`: Python then takes the
  even split, while the model applies the formula.
- Ledger.RecordEmi: a duration that is not a whole number is reported as
  an error outside the model. Python computes a fractional power there
  (a complex one for a negative base), which exact decimals cannot
  represent.
- `loan_emi`'s `down_payment=0` default is not modelled: `addEmi` always
  passes it.
- Records hold only what `parse_values` produces (floats and strings). The
  model's records cannot hold other Python types placed in them by hand.
