/**
 The command-line part of the program, on values: the check of the window and
 overlap options, and the expansion of every parsed input record into one
 output row per window, in input order.
 */
module Script {
  import opened Windows
  import opened WindowProperties
  import opened Splitter

  /** An input line after splitting on whitespace: chromosome, start, stop and any further columns. */
  datatype Record = Record(chrom: string, start: int, stop: int, extra: seq<string>)

  /** An output line: the record's chromosome, one window, and the record's further columns. */
  datatype Row = Row(chrom: string, window: Interval, extra: seq<string>)

  datatype OptionError = WindowTooSmall | OverlapOutOfRange

  datatype Outcome = Pass | Fail(error: OptionError)

  datatype Result = Ok(rows: seq<Row>) | Err(error: OptionError)

  /** The option check as the program writes it: an overlap equal to the window size gets through. */
  function ValidateAsWritten(window: int, overlap: int): Outcome {
    if window < 1 then Fail(WindowTooSmall)
    else if overlap < 0 || overlap > window then Fail(OverlapOutOfRange)
    else Pass
  }

  /** The as-written check lets through options for which the step window - overlap is zero. */
  lemma AsWrittenAdmitsZeroStep()
    ensures ValidateAsWritten(100, 100) == Pass
    ensures !ValidParams(100, 100)
  {
  }

  /** The as-written check accepts the valid options and, beyond them, exactly the zero-step case. */
  lemma AsWrittenAcceptance(window: int, overlap: int)
    ensures ValidateAsWritten(window, overlap) == Pass
        <==> ValidParams(window, overlap) || (1 <= window && overlap == window)
  {
  }

  /** The option check as its own message states it: the overlap must be below the window size. */
  function Validate(window: int, overlap: int): (r: Outcome)
    ensures r == Pass <==> ValidParams(window, overlap)
    ensures window < 1 ==> r == Fail(WindowTooSmall)
    ensures 1 <= window && !ValidParams(window, overlap) ==> r == Fail(OverlapOutOfRange)
  {
    if window < 1 then Fail(WindowTooSmall)
    else if overlap < 0 || overlap >= window then Fail(OverlapOutOfRange)
    else Pass
  }

  function IntervalOf(rec: Record): Interval {
    Interval(rec.start, rec.stop)
  }

  /** The rows one record expands to: one per window of its interval, in window order. */
  function RowsFor(rec: Record, window: int, overlap: int): seq<Row>
    requires ValidParams(window, overlap)
  {
    var ws := Split(IntervalOf(rec), window, overlap);
    seq(|ws|, k requires 0 <= k < |ws| => Row(rec.chrom, ws[k], rec.extra))
  }

  /** The rows of all records, record after record. */
  function AllRows(records: seq<Record>, window: int, overlap: int): seq<Row>
    requires ValidParams(window, overlap)
  {
    if records == [] then []
    else RowsFor(records[0], window, overlap) + AllRows(records[1..], window, overlap)
  }

  /** Writes out one record: a row per window, each with the record's chromosome and further columns. */
  method ExpandRecord(rec: Record, window: int, overlap: int) returns (rows: seq<Row>)
    requires ValidParams(window, overlap)
    ensures rows == RowsFor(rec, window, overlap)
    ensures var ws := Split(IntervalOf(rec), window, overlap);
      && |rows| == |ws|
      && forall k :: 0 <= k < |rows| ==>
           rows[k].chrom == rec.chrom && rows[k].window == ws[k] && rows[k].extra == rec.extra
  {
    var intervals := SplitInterval(Interval(rec.start, rec.stop), window, overlap);
    rows := [];
    for i := 0 to |intervals|
      invariant |rows| == i
      invariant forall k :: 0 <= k < i ==> rows[k] == Row(rec.chrom, intervals[k], rec.extra)
    {
      rows := rows + [Row(rec.chrom, intervals[i], rec.extra)];
    }
  }

  /** Processes the records in input order. */
  method SplitRecords(records: seq<Record>, window: int, overlap: int) returns (rows: seq<Row>)
    requires ValidParams(window, overlap)
    ensures rows == AllRows(records, window, overlap)
  {
    rows := [];
    for i := 0 to |records|
      invariant rows == AllRows(records[..i], window, overlap)
    {
      var recordRows := ExpandRecord(records[i], window, overlap);
      assert records[..i + 1] == records[..i] + [records[i]];
      AllRowsSnoc(records[..i], records[i], window, overlap);
      rows := rows + recordRows;
    }
    assert records[..|records|] == records;
  }

  /** The whole run: reject bad options before any record is processed, else emit every row. */
  method Run(records: seq<Record>, window: int, overlap: int) returns (result: Result)
    ensures !ValidParams(window, overlap) ==> result == Err(Validate(window, overlap).error)
    ensures ValidParams(window, overlap) ==> result == Ok(AllRows(records, window, overlap))
  {
    var check := Validate(window, overlap);
    if check.Fail? {
      return Err(check.error);
    }
    var rows := SplitRecords(records, window, overlap);
    return Ok(rows);
  }

  /** Output order follows input order: the rows of a + b are those of a, then those of b. */
  lemma {:induction false} AllRowsAppend(a: seq<Record>, b: seq<Record>, window: int, overlap: int)
    requires ValidParams(window, overlap)
    ensures AllRows(a + b, window, overlap) == AllRows(a, window, overlap) + AllRows(b, window, overlap)
    decreases |a|
  {
    if a == [] {
      assert a + b == b;
    } else {
      assert (a + b)[0] == a[0] && (a + b)[1..] == a[1..] + b;
      AllRowsAppend(a[1..], b, window, overlap);
    }
  }

  lemma AllRowsSnoc(records: seq<Record>, rec: Record, window: int, overlap: int)
    requires ValidParams(window, overlap)
    ensures AllRows(records + [rec], window, overlap) == AllRows(records, window, overlap) + RowsFor(rec, window, overlap)
  {
    AllRowsAppend(records, [rec], window, overlap);
    assert [rec][1..] == [];
  }

  /** The row is one of the record's windows, with its chromosome and further columns unchanged. */
  predicate RowOf(row: Row, rec: Record, window: int, overlap: int)
    requires ValidParams(window, overlap)
  {
    row.chrom == rec.chrom && row.extra == rec.extra && row.window in Split(IntervalOf(rec), window, overlap)
  }

  /** Every output row comes from some input record. */
  lemma {:induction false} AllRowsProvenance(records: seq<Record>, window: int, overlap: int)
    requires ValidParams(window, overlap)
    ensures forall row <- AllRows(records, window, overlap) ::
      exists j :: 0 <= j < |records| && RowOf(row, records[j], window, overlap)
  {
    if records != [] {
      var rest := records[1..];
      AllRowsProvenance(rest, window, overlap);
      forall row <- AllRows(records, window, overlap)
        ensures exists j :: 0 <= j < |records| && RowOf(row, records[j], window, overlap)
      {
        if row in AllRows(rest, window, overlap) {
          var j :| 0 <= j < |rest| && RowOf(row, rest[j], window, overlap);
          assert records[j + 1] == rest[j];
        } else {
          var rs := RowsFor(records[0], window, overlap);
          var k :| 0 <= k < |rs| && rs[k] == row;
          assert RowOf(row, records[0], window, overlap);
        }
      }
    }
  }

  /** The documented end-to-end example with the default options. */
  lemma DefaultOptionsExample()
    ensures AllRows([Record("chr1", 151, 300, ["geneA"])], 100, 50)
         == [Row("chr1", Interval(151, 250), ["geneA"]), Row("chr1", Interval(201, 300), ["geneA"])]
  {
    DocumentedExamples();
    assert [Record("chr1", 151, 300, ["geneA"])][1..] == [];
  }
}
