/** The loan ledger: reading a comma-separated file into records, adding
    each loan's monthly installment, and writing the records back out. */
module Ledger {
  import opened Results
  import opened Strings
  import opened Numbers
  import opened Records
  import opened Emi

  // ---------------------------------------------------------------------
  // Reading
  // ---------------------------------------------------------------------

  /** `parse_headers(line)`: the comma-separated pieces of the stripped
      line, kept verbatim; there is always at least one. */
  function ParseHeaders(line: string): (headers: seq<string>)
    ensures |headers| >= 1
    ensures forall i :: 0 <= i < |headers| ==> ',' !in headers[i]
    ensures Join(headers, ',') == Strip(line)
  {
    Split(Strip(line), ',')
  }

  /** One field of a data line: an empty field is `0.0`, a field `float`
      accepts is that number, anything else stays text. */
  function ParseValue(item: string): (v: Value)
    ensures v.Text? ==> v.t == item && item != "" && ParseFloat(item).None?
    ensures v.Num? ==> (item == "" && v.n == Decimal(0, 0)) || ParseFloat(item) == Some(v.n)
  {
    if item == "" then Num(Decimal(0, 0))
    else
      match ParseFloat(item)
      case Some(d) => Num(d)
      case None => Text(item)
  }

  /** `parse_values(line)`: one value per comma-separated piece of the
      stripped line, in order. */
  function ParseValues(line: string): (values: seq<Value>)
    ensures |values| == |Split(Strip(line), ',')|
    ensures forall i :: 0 <= i < |values| ==> values[i] == ParseValue(Split(Strip(line), ',')[i])
  {
    ParseItems(Split(Strip(line), ','))
  }

  function ParseItems(items: seq<string>): (values: seq<Value>)
    ensures |values| == |items|
    ensures forall i :: 0 <= i < |items| ==> values[i] == ParseValue(items[i])
  {
    if |items| == 0 then [] else [ParseValue(items[0])] + ParseItems(items[1..])
  }

  /** `read_csv` on the lines of a file: the first line names the fields;
      each later line becomes one record, in order. A file without lines
      has no header to read. */
  function ReadCsv(lines: seq<string>): (r: Result<seq<Record>>)
    ensures r.Err? <==> |lines| == 0
    ensures r.Err? ==> r.error == NoHeaderLine
    ensures r.Ok? ==> |r.value| == |lines| - 1
    ensures r.Ok? ==> forall i :: 0 <= i < |r.value| ==>
                        r.value[i] == CreateItemDict(ParseValues(lines[i + 1]), ParseHeaders(lines[0]))
  {
    if |lines| == 0 then Err(NoHeaderLine)
    else Ok(ReadRecords(lines[1..], ParseHeaders(lines[0])))
  }

  function ReadRecords(dataLines: seq<string>, headers: seq<string>): (records: seq<Record>)
    ensures |records| == |dataLines|
    ensures forall i :: 0 <= i < |dataLines| ==> records[i] == CreateItemDict(ParseValues(dataLines[i]), headers)
  {
    if |dataLines| == 0 then []
    else [CreateItemDict(ParseValues(dataLines[0]), headers)] + ReadRecords(dataLines[1..], headers)
  }

  /** `read_csv` on the text of a file, cut into lines as `readlines()`
      does: only an empty file fails. */
  function ReadFile(text: string): (r: Result<seq<Record>>)
    ensures r.Err? <==> text == ""
  {
    ReadCsv(ReadLines(text))
  }

  // ---------------------------------------------------------------------
  // Adding the installment
  // ---------------------------------------------------------------------

  /** `record[key]`: the value under `k`, or `KeyError`. */
  function Lookup(r: Record, k: string): (v: Result<Value>)
    ensures v.Ok? <==> k in Keys(r)
    ensures v.Ok? ==> Get(r, k) == Some(v.value)
    ensures v.Err? ==> v.error == MissingKey(k)
  {
    GetPresent(r, k);
    match Get(r, k)
    case Some(x) => Ok(x)
    case None => Err(MissingKey(k))
  }

  /** A field used in arithmetic: text raises `TypeError`. */
  function Number(v: Value): (r: Result<real>)
    ensures r.Ok? <==> v.Num?
    ensures r.Ok? ==> r.value == ToReal(v.n)
  {
    match v
    case Num(d) => Ok(ToReal(d))
    case Text(_) => Err(NotANumber)
  }

  /** The call `loan_emi(r['amount'], r['duration'], r['rate'],
      r['down_payment'])`: the four lookups in argument order, then the
      arithmetic, which fails on any text field. A duration that is not a
      whole number is outside the model. */
  function RecordEmi(rec: Record): (r: Result<int>)
    ensures FirstMissing(rec, EmiFields).Some? ==> r == Err(MissingKey(FirstMissing(rec, EmiFields).value))
    ensures r.Ok? ==> forall j :: 0 <= j < |EmiFields| ==> Get(rec, EmiFields[j]).Some? && Get(rec, EmiFields[j]).value.Num?
  {
    FirstMissingEmi(rec);
    var amount :- Lookup(rec, "amount");
    var duration :- Lookup(rec, "duration");
    var rate :- Lookup(rec, "rate");
    var downPayment :- Lookup(rec, "down_payment");
    var a :- Number(amount);
    var n :- Number(duration);
    var i :- Number(rate);
    var d :- Number(downPayment);
    if n.Floor as real != n then Err(FractionalDuration)
    else LoanEmi(a, n.Floor, i, d)
  }

  /** The fields `loan_emi` is called with, in argument order. */
  const EmiFields: seq<string> := ["amount", "duration", "rate", "down_payment"]

  /** The first of `fields` the record lacks. */
  function FirstMissing(rec: Record, fields: seq<string>): (k: Option<string>)
    ensures k.Some? <==> exists j :: 0 <= j < |fields| && fields[j] !in Keys(rec)
    ensures k.Some? ==> k.value in fields && k.value !in Keys(rec)
  {
    if |fields| == 0 then None
    else if fields[0] !in Keys(rec) then Some(fields[0])
    else
      var k := FirstMissing(rec, fields[1..]);
      assert forall j :: 1 <= j < |fields| ==> fields[j] == fields[1..][j - 1];
      k
  }

  /** The first missing field, spelled out for the four `loan_emi` reads. */
  lemma {:induction false} FirstMissingEmi(rec: Record)
    ensures FirstMissing(rec, EmiFields) ==
      if "amount" !in Keys(rec) then Some("amount")
      else if "duration" !in Keys(rec) then Some("duration")
      else if "rate" !in Keys(rec) then Some("rate")
      else if "down_payment" !in Keys(rec) then Some("down_payment")
      else None
  {
    var f0 := EmiFields;
    var f1 := ["duration", "rate", "down_payment"];
    var f2 := ["rate", "down_payment"];
    var f3 := ["down_payment"];
    assert f0[1..] == f1 && f1[1..] == f2 && f2[1..] == f3 && f3[1..] == [];
    assert FirstMissing(rec, f3) == if "down_payment" !in Keys(rec) then Some("down_payment") else None;
    assert FirstMissing(rec, f2) == if "rate" !in Keys(rec) then Some("rate") else FirstMissing(rec, f3);
    assert FirstMissing(rec, f1) == if "duration" !in Keys(rec) then Some("duration") else FirstMissing(rec, f2);
  }

  /** With all four fields numeric and a whole duration, the installment
      is `loan_emi` of their values. */
  lemma {:induction false} RecordEmiValue(rec: Record, amount: Float, duration: Float, rate: Float, downPayment: Float, n: int)
    requires Get(rec, "amount") == Some(Num(amount)) && Get(rec, "duration") == Some(Num(duration))
    requires Get(rec, "rate") == Some(Num(rate)) && Get(rec, "down_payment") == Some(Num(downPayment))
    requires ToReal(duration) == n as real
    ensures RecordEmi(rec) == LoanEmi(ToReal(amount), n, ToReal(rate), ToReal(downPayment))
  {
    GetPresent(rec, "amount");
    GetPresent(rec, "duration");
    GetPresent(rec, "rate");
    GetPresent(rec, "down_payment");
  }

  /** With all four fields present but one of them text, the arithmetic
      raises `TypeError`. */
  lemma RecordEmiText(rec: Record, k: string)
    requires forall j :: 0 <= j < |EmiFields| ==> EmiFields[j] in Keys(rec)
    requires k in EmiFields && Get(rec, k).Some? && Get(rec, k).value.Text?
    ensures RecordEmi(rec) == Err(NotANumber)
  {
    assert EmiFields[0] in Keys(rec) && EmiFields[1] in Keys(rec);
    assert EmiFields[2] in Keys(rec) && EmiFields[3] in Keys(rec);
  }

  /** A record with its installment stored as text under `emi`. */
  function WithEmi(rec: Record, e: int): Record {
    Set(rec, "emi", Text(IntToString(e)))
  }

  /** `addEmi(records)`: every record gets its installment; the first
      record whose installment fails stops the whole pass with its error. */
  function AddEmi(records: seq<Record>): (r: Result<seq<Record>>)
    ensures r.Ok? <==> forall i :: 0 <= i < |records| ==> RecordEmi(records[i]).Ok?
    ensures r.Ok? ==> |r.value| == |records|
    ensures r.Ok? ==> forall i :: 0 <= i < |records| ==> r.value[i] == WithEmi(records[i], RecordEmi(records[i]).value)
    ensures r.Err? ==> exists i :: 0 <= i < |records| && RecordEmi(records[i]) == Err(r.error)
                                   && forall j :: 0 <= j < i ==> RecordEmi(records[j]).Ok?
  {
    if |records| == 0 then Ok([])
    else
      var e :- RecordEmi(records[0]);
      var rest :- AddEmi(records[1..]);
      Ok([WithEmi(records[0], e)] + rest)
  }

  /** What `addEmi` does to each record: it gains `emi`, last if new and
      in place otherwise; no other field changes; the stored text reads
      back as the installment. */
  lemma {:induction false} AddEmiFields(records: seq<Record>, i: nat)
    requires AddEmi(records).Ok? && i < |records|
    ensures RecordEmi(records[i]).Ok?
    ensures "emi" in Keys(records[i]) ==> Keys(AddEmi(records).value[i]) == Keys(records[i])
    ensures "emi" !in Keys(records[i]) ==> Keys(AddEmi(records).value[i]) == Keys(records[i]) + ["emi"]
    ensures forall k :: k != "emi" ==> Get(AddEmi(records).value[i], k) == Get(records[i], k)
    ensures Get(AddEmi(records).value[i], "emi") == Some(Text(IntToString(RecordEmi(records[i]).value)))
    ensures ParseFloat(IntToString(RecordEmi(records[i]).value)) == Some(Decimal(RecordEmi(records[i]).value, 0))
    ensures WellFormed(records[i]) ==> WellFormed(AddEmi(records).value[i])
  {
    var e := RecordEmi(records[i]).value;
    SetSemantics(records[i], "emi", Text(IntToString(e)));
    IntToStringParse(e);
  }

  // ---------------------------------------------------------------------
  // Writing
  // ---------------------------------------------------------------------

  /** `str(value)` for a field: a number printed as `str` prints floats,
      text as it is. */
  function ShowValue(v: Value): string {
    match v
    case Num(d) => ShowDecimal(d)
    case Text(t) => t
  }

  /** The cells of one data line: the record's value under each header,
      in header order; the first header the record lacks raises `KeyError`. */
  function Row(rec: Record, header: seq<string>): (r: Result<seq<string>>)
    ensures r.Ok? <==> forall j :: 0 <= j < |header| ==> header[j] in Keys(rec)
    ensures r.Ok? ==> |r.value| == |header|
    ensures r.Ok? ==> forall j :: 0 <= j < |header| ==> Get(rec, header[j]).Some? && r.value[j] == ShowValue(Get(rec, header[j]).value)
    ensures r.Err? ==> FirstMissing(rec, header).Some? && r.error == MissingKey(FirstMissing(rec, header).value)
  {
    if |header| == 0 then Ok([])
    else
      var v :- Lookup(rec, header[0]);
      var rest :- Row(rec, header[1..]);
      Ok([ShowValue(v)] + rest)
  }

  /** The data lines for `records`, one per record, in order. */
  function Rows(records: seq<Record>, header: seq<string>): (r: Result<seq<string>>)
    ensures r.Ok? <==> forall i :: 0 <= i < |records| ==> Row(records[i], header).Ok?
    ensures r.Ok? ==> |r.value| == |records|
    ensures r.Ok? ==> forall i :: 0 <= i < |records| ==> r.value[i] == Join(Row(records[i], header).value, ',') + "\n"
  {
    if |records| == 0 then Ok([])
    else
      var cells :- Row(records[0], header);
      var rest :- Rows(records[1..], header);
      Ok([Join(cells, ',') + "\n"] + rest)
  }

  /** `toCSVfile(records)`, the lines it writes: none for no records;
      otherwise the first record's keys, then one line per record, the
      first record included. A record lacking one of those keys raises
      `KeyError`. */
  function ToCsvLines(records: seq<Record>): (r: Result<seq<string>>)
    ensures |records| == 0 ==> r == Ok([])
    ensures |records| > 0 ==> (r.Ok? <==> forall i, j :: 0 <= i < |records| && 0 <= j < |records[0]| ==> records[0][j].0 in Keys(records[i]))
    ensures r.Ok? && |records| > 0 ==> |r.value| == |records| + 1 && r.value[0] == Join(Keys(records[0]), ',') + "\n"
    ensures r.Ok? && |records| > 0 ==> forall i :: 0 <= i < |records| ==> r.value[i + 1] == Join(Row(records[i], Keys(records[0])).value, ',') + "\n"
  {
    if |records| == 0 then Ok([])
    else
      var header := Keys(records[0]);
      var rows :- Rows(records, header);
      Ok([Join(header, ',') + "\n"] + rows)
  }

  /** The text `toCSVfile` leaves in the file: the written lines one after
      the other, which `readlines()` cuts back into exactly those lines
      unless a written key or value holds a line break of its own. */
  function ToCsv(records: seq<Record>): (r: Result<string>)
    ensures r.Ok? <==> ToCsvLines(records).Ok?
    ensures r.Ok? && NoLineBreaks(records) ==> ReadLines(r.value) == ToCsvLines(records).value
  {
    var lines :- ToCsvLines(records);
    LinesReadBack(records);
    Ok(Concat(lines))
  }

  /** No header key and no value written under one holds a line break. */
  predicate NoLineBreaks(records: seq<Record>) {
    && (|records| > 0 ==> forall j :: 0 <= j < |records[0]| ==> '\n' !in records[0][j].0)
    && (forall i, j :: 0 <= i < |records| && 0 <= j < |records[0]| && Get(records[i], records[0][j].0).Some?
          ==> '\n' !in ShowValue(Get(records[i], records[0][j].0).value))
  }

  /** Every written line ends in its only line break when no written cell
      holds one, so `readlines()` gives the written lines back. */
  lemma {:induction false} LinesReadBack(records: seq<Record>)
    requires ToCsvLines(records).Ok?
    ensures NoLineBreaks(records) ==> ReadLines(Concat(ToCsvLines(records).value)) == ToCsvLines(records).value
  {
    var lines := ToCsvLines(records).value;
    if NoLineBreaks(records) && |records| > 0 {
      var header := Keys(records[0]);
      forall i | 0 <= i < |lines|
        ensures IsLine(lines[i])
      {
        var cells := if i == 0 then header else Row(records[i - 1], header).value;
        assert lines[i] == Join(cells, ',') + "\n";
        forall j | 0 <= j < |cells|
          ensures '\n' !in cells[j]
        {
          assert header[j] == records[0][j].0;
        }
        JoinAvoids(cells, ',', '\n');
        assert lines[i][..|lines[i]| - 1] == Join(cells, ',');
      }
      ReadLinesConcat(lines);
    }
  }

  // ---------------------------------------------------------------------
  // Writing, then reading back
  // ---------------------------------------------------------------------

  /** The printed values of a record, in entry order. */
  function Printed(rec: Record): (cells: seq<string>)
    ensures |cells| == |rec|
    ensures forall j :: 0 <= j < |rec| ==> cells[j] == ShowValue(rec[j].1)
  {
    if |rec| == 0 then [] else [ShowValue(rec[0].1)] + Printed(rec[1..])
  }

  /** A value after it has been written and read back. */
  function Reread(v: Value): Value {
    ParseValue(ShowValue(v))
  }

  /** A record after it has been written and read back, field by field. */
  function RereadRecord(rec: Record): (r: Record)
    ensures |r| == |rec|
    ensures forall j :: 0 <= j < |rec| ==> r[j] == (rec[j].0, Reread(rec[j].1))
  {
    if |rec| == 0 then [] else [(rec[0].0, Reread(rec[0].1))] + RereadRecord(rec[1..])
  }

  /** Records the line format can carry: at least one record with at least
      one field; every record with the first record's keys, in the same
      order; no comma in a key or a printed value; and no whitespace at
      either end of any written line, since `strip()` would cut it. */
  predicate CsvShaped(records: seq<Record>) {
    && |records| >= 1 && |records[0]| >= 1
    && WellFormed(records[0])
    && (forall i :: 0 <= i < |records| ==> Keys(records[i]) == Keys(records[0]))
    && (forall j :: 0 <= j < |records[0]| ==> ',' !in records[0][j].0)
    && Edgeless(Join(Keys(records[0]), ','))
    && (forall i, j :: 0 <= i < |records| && 0 <= j < |records[i]| ==> ',' !in ShowValue(records[i][j].1))
    && (forall i :: 0 <= i < |records| ==> Edgeless(Join(Printed(records[i]), ',')))
  }

  /** A character in none of the cells, other than the separator, is not
      in the line they join into. */
  lemma {:induction false} JoinAvoids(parts: seq<string>, sep: char, c: char)
    requires c != sep
    requires forall j :: 0 <= j < |parts| ==> c !in parts[j]
    ensures c !in Join(parts, sep)
  {
    if |parts| > 1 {
      JoinAvoids(parts[1..], sep, c);
      assert Join(parts, sep) == parts[0] + [sep] + Join(parts[1..], sep);
    }
  }

  /** A written line of comma-free cells, with no whitespace at its two
      ends, is stripped and split back into those cells. */
  lemma {:induction false} LineRoundTrip(cells: seq<string>)
    requires |cells| >= 1
    requires forall j :: 0 <= j < |cells| ==> ',' !in cells[j]
    requires Edgeless(Join(cells, ','))
    ensures Split(Strip(Join(cells, ',') + "\n"), ',') == cells
  {
    StripLine(Join(cells, ','));
    SplitJoin(cells, ',');
  }

  /** `parse_headers` reads back the header line `toCSVfile` writes. */
  lemma {:induction false} HeaderRoundTrip(header: seq<string>)
    requires |header| >= 1
    requires forall j :: 0 <= j < |header| ==> ',' !in header[j]
    requires Edgeless(Join(header, ','))
    ensures ParseHeaders(Join(header, ',') + "\n") == header
  {
    LineRoundTrip(header);
  }

  /** Only the line is stripped, not each key: the header line `a, b`
      has the key `" b"`, and writing that key reads it back. */
  lemma SpacedHeader()
    ensures ParseHeaders("a, b\n") == ["a", " b"]
  {
    var header := ["a", " b"];
    assert header[1..] == [" b"];
    assert Join(header, ',') == "a" + [','] + " b" == "a, b";
    assert Edgeless("a, b");
    assert "a, b" + "\n" == "a, b\n";
    HeaderRoundTrip(header);
  }

  /** `parse_values` reads back a written data line as the record's values,
      each reread. */
  lemma {:induction false} RowRoundTrip(rec: Record)
    requires WellFormed(rec) && |rec| >= 1
    requires forall j :: 0 <= j < |rec| ==> ',' !in ShowValue(rec[j].1)
    requires Edgeless(Join(Printed(rec), ','))
    ensures Row(rec, Keys(rec)).Ok?
    ensures |ParseValues(Join(Row(rec, Keys(rec)).value, ',') + "\n")| == |rec|
    ensures forall j :: 0 <= j < |rec| ==> ParseValues(Join(Row(rec, Keys(rec)).value, ',') + "\n")[j] == Reread(rec[j].1)
  {
    var cells := Row(rec, Keys(rec)).value;
    forall j | 0 <= j < |rec|
      ensures cells[j] == ShowValue(rec[j].1)
    {
      GetEntry(rec, j);
    }
    assert cells == Printed(rec);
    LineRoundTrip(cells);
  }

  /** Zipping the keys of a record with its reread values rebuilds the
      record, reread. */
  lemma {:induction false} DictRoundTrip(rec: Record, values: seq<Value>)
    requires WellFormed(rec)
    requires |values| == |rec|
    requires forall j :: 0 <= j < |rec| ==> values[j] == Reread(rec[j].1)
    ensures CreateItemDict(values, Keys(rec)) == RereadRecord(rec)
  {
    var headers := Keys(rec);
    assert headers[..|rec|] == headers;
    ZipDistinct(values, headers, |rec|);
    var d := CreateItemDict(values, headers);
    assert d == Pairs(values, headers, |rec|);
    forall j | 0 <= j < |rec|
      ensures d[j] == RereadRecord(rec)[j]
    {
      PairsAt(values, headers, |rec|, j);
    }
  }

  /** Writing records with `toCSVfile` and reading the file with
      `read_csv` gives back every record with its keys in order and each
      value as `float` reads what `str` printed. */
  lemma {:induction false} CsvRoundTrip(records: seq<Record>)
    requires CsvShaped(records)
    ensures ToCsvLines(records).Ok?
    ensures ReadCsv(ToCsvLines(records).value).Ok?
    ensures |ReadCsv(ToCsvLines(records).value).value| == |records|
    ensures forall i :: 0 <= i < |records| ==> ReadCsv(ToCsvLines(records).value).value[i] == RereadRecord(records[i])
  {
    var header := Keys(records[0]);
    forall i, j | 0 <= i < |records| && 0 <= j < |records[0]|
      ensures records[0][j].0 in Keys(records[i])
    {
      assert header[j] == records[0][j].0;
    }
    var lines := ToCsvLines(records).value;
    HeaderRoundTrip(header);
    forall i | 0 <= i < |records|
      ensures ReadCsv(lines).value[i] == RereadRecord(records[i])
    {
      var rec := records[i];
      assert Keys(rec) == header;
      RowRoundTrip(rec);
      DictRoundTrip(rec, ParseValues(lines[i + 1]));
    }
  }

  /** A float is printed and read back as itself. */
  lemma RereadNum(d: Float)
    ensures Reread(Num(d)) == Num(d)
  {
    ShowParse(d);
  }

  /** Text that `float` rejects, and that is not empty, is read back as
      the same text. */
  lemma RereadText(t: string)
    requires t != "" && ParseFloat(t).None?
    ensures Reread(Text(t)) == Text(t)
  {
  }

  /** The installment `addEmi` stores as text is read back as a number. */
  lemma RereadEmi(e: int)
    ensures Reread(Text(IntToString(e))) == Num(Decimal(e, 0))
  {
    IntToStringParse(e);
  }

  /** A value that comes back unchanged from the file. */
  predicate Stable(v: Value) {
    match v
    case Num(_) => true
    case Text(t) => t != "" && ParseFloat(t).None?
  }

  lemma {:induction false} RereadStable(rec: Record)
    requires forall j :: 0 <= j < |rec| ==> Stable(rec[j].1)
    ensures RereadRecord(rec) == rec
  {
    forall j | 0 <= j < |rec|
      ensures RereadRecord(rec)[j] == rec[j]
    {
      match rec[j].1
      case Num(d) => RereadNum(d);
      case Text(t) => RereadText(t);
    }
  }

  /** When every value is stable, reading the written file gives back
      exactly the records written. */
  lemma {:induction false} CsvRoundTripExact(records: seq<Record>)
    requires CsvShaped(records)
    requires forall i, j :: 0 <= i < |records| && 0 <= j < |records[i]| ==> Stable(records[i][j].1)
    ensures ToCsvLines(records).Ok?
    ensures ReadCsv(ToCsvLines(records).value) == Ok(records)
  {
    CsvRoundTrip(records);
    AllStable(records, ReadCsv(ToCsvLines(records).value).value);
  }

  lemma {:induction false} AllStable(records: seq<Record>, read: seq<Record>)
    requires forall i, j :: 0 <= i < |records| && 0 <= j < |records[i]| ==> Stable(records[i][j].1)
    requires |read| == |records|
    requires forall i :: 0 <= i < |records| ==> read[i] == RereadRecord(records[i])
    ensures read == records
  {
    forall i | 0 <= i < |records|
      ensures read[i] == records[i]
    {
      RereadStable(records[i]);
    }
  }

  /** Writing records with `toCSVfile` and reading the file with
      `read_csv` gives every record back, keys in order, each value as
      `float` reads what `str` printed, when no written cell holds a line
      break. */
  lemma {:induction false} FileRoundTrip(records: seq<Record>)
    requires CsvShaped(records) && NoLineBreaks(records)
    ensures ToCsv(records).Ok?
    ensures ReadFile(ToCsv(records).value).Ok?
    ensures |ReadFile(ToCsv(records).value).value| == |records|
    ensures forall i :: 0 <= i < |records| ==> ReadFile(ToCsv(records).value).value[i] == RereadRecord(records[i])
  {
    CsvRoundTrip(records);
    assert ReadLines(ToCsv(records).value) == ToCsvLines(records).value;
  }

  /** No records write an empty file, and an empty file has no header
      line: that ledger does not read back. */
  lemma EmptyLedger()
    ensures ToCsv([]) == Ok("")
    ensures ReadFile("") == Err(NoHeaderLine)
  {
  }
}
