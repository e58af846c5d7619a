/**
 * Phase 1: read the first worksheet, turn every data row into a record keyed
 * by the header row's text, and keep the records not yet marked "email sent".
 */
module LoadUnsent {
  import opened Outcomes
  import opened Seqs
  import opened Cells
  import opened Workbook

  /** One data row as the object the loader builds: header value to cell value. */
  type Record = map<Cell, Cell>

  /** `record[key]`, where a missing property (JavaScript `undefined`) reads as an empty cell. */
  function Field(rec: Record, key: string): Cell
  {
    if Str(key) in rec then rec[Str(key)] else Null
  }

  /**
   * The record built from the first `k` cells of `row`, visiting columns left
   * to right. `eachCell` skips empty cells, so an empty cell adds no key and
   * leaves an earlier column's value for the same header in place.
   */
  function RecordPrefix(header: Row, row: Row, k: nat): Record
    requires k <= |row|
  {
    if k == 0 then map[]
    else
      var rec := RecordPrefix(header, row, k - 1);
      var key := CellAt(header, k);
      if Truthy(key) && row[k - 1] != Null then rec[key := row[k - 1]] else rec
  }

  /** The record of a whole data row. */
  function RowRecord(header: Row, row: Row): Record
  {
    RecordPrefix(header, row, |row|)
  }

  /** The records `eachRow` builds from `rows`, in order, skipping the rows that hold no value. */
  function Records(header: Row, rows: seq<Row>): seq<Record>
  {
    if rows == [] then []
    else
      var last := rows[|rows| - 1];
      Records(header, rows[..|rows| - 1]) + (if HasValues(last) then [RowRecord(header, last)] else [])
  }

  /** The record of every row, blank or not. */
  function AllRecords(header: Row, rows: seq<Row>): seq<Record>
  {
    seq(|rows|, i requires 0 <= i < |rows| => RowRecord(header, rows[i]))
  }

  /** The records of the rows after the header row. */
  function DataRecords(sheet: Sheet): seq<Record>
  {
    if sheet == [] then [] else Records(sheet[0], sheet[1..])
  }

  /** A single row yields its record when it holds a value, and nothing otherwise. */
  lemma RecordsOne(header: Row, row: Row)
    ensures Records(header, [row]) == if HasValues(row) then [RowRecord(header, row)] else []
  {
    assert [row][..0] == [];
  }

  /** The records of consecutive runs of rows are the concatenation of their records. */
  lemma {:induction false} RecordsAppend(header: Row, a: seq<Row>, b: seq<Row>)
    ensures Records(header, a + b) == Records(header, a) + Records(header, b)
    decreases |b|
  {
    if b == [] {
      assert a + b == a;
    } else {
      var front, last := b[..|b| - 1], b[|b| - 1];
      assert (a + b)[..|a + b| - 1] == a + front;
      assert (a + b)[|a + b| - 1] == last;
      RecordsAppend(header, a, front);
    }
  }

  /**
   * Blank rows yield no record; every other row yields its record, in row
   * order; with no blank row, every row yields one.
   */
  lemma {:induction false} RecordsSkipBlank(header: Row, rows: seq<Row>)
    ensures |Records(header, rows)| <= |rows|
    ensures forall r :: r in Records(header, rows) <==>
              exists i :: 0 <= i < |rows| && HasValues(rows[i]) && r == RowRecord(header, rows[i])
    ensures IsSubsequence(Records(header, rows), AllRecords(header, rows))
    ensures (forall i :: 0 <= i < |rows| ==> HasValues(rows[i])) ==>
              Records(header, rows) == AllRecords(header, rows)
  {
    if rows != [] {
      var n := |rows|;
      var front, last := rows[..n - 1], rows[n - 1];
      RecordsSkipBlank(header, front);
      assert AllRecords(header, rows) == AllRecords(header, front) + [RowRecord(header, last)];
      SubsequenceExtend(Records(header, front), AllRecords(header, front), RowRecord(header, last), HasValues(last));
      assert Records(header, rows) ==
             if HasValues(last) then Records(header, front) + [RowRecord(header, last)] else Records(header, front);
      forall r
        ensures r in Records(header, rows) <==>
                exists i :: 0 <= i < n && HasValues(rows[i]) && r == RowRecord(header, rows[i])
      {
        if r in Records(header, front) {
          var i :| 0 <= i < n - 1 && HasValues(front[i]) && r == RowRecord(header, front[i]);
          assert rows[i] == front[i];
        }
        if exists i :: 0 <= i < n && HasValues(rows[i]) && r == RowRecord(header, rows[i]) {
          var i :| 0 <= i < n && HasValues(rows[i]) && r == RowRecord(header, rows[i]);
          if i < n - 1 {
            assert front[i] == rows[i];
          }
        }
      }
    }
  }

  /** A key is present exactly when some visited column carries it as a truthy header over a non-empty cell. */
  lemma {:induction false} RecordKeys(header: Row, row: Row, k: nat, key: Cell)
    requires k <= |row|
    ensures key in RecordPrefix(header, row, k) <==>
              Truthy(key) && exists c :: 1 <= c <= k && CellAt(header, c) == key && row[c - 1] != Null
  {
    if k > 0 {
      RecordKeys(header, row, k - 1, key);
      if key in RecordPrefix(header, row, k - 1) {
        var c :| 1 <= c <= k - 1 && CellAt(header, c) == key && row[c - 1] != Null;
        assert 1 <= c <= k && CellAt(header, c) == key && row[c - 1] != Null;
      }
    }
  }

  /**
   * A key's value is the cell of the last column carrying that header whose
   * cell is not empty: a repeated header is overwritten by a column further
   * right only when that column holds a value.
   */
  lemma {:induction false} RecordValue(header: Row, row: Row, k: nat, c: nat)
    requires 1 <= c <= k <= |row|
    requires Truthy(CellAt(header, c)) && row[c - 1] != Null
    requires forall d :: c < d <= k && CellAt(header, d) == CellAt(header, c) ==> row[d - 1] == Null
    ensures CellAt(header, c) in RecordPrefix(header, row, k)
    ensures RecordPrefix(header, row, k)[CellAt(header, c)] == row[c - 1]
  {
    if c < k {
      RecordValue(header, row, k - 1, c);
    }
  }

  /** The sent_status filter: anything but the exact string "email sent" is still pending. */
  predicate IsPending(rec: Record)
  {
    Field(rec, "sent_status") != Str(EmailSent)
  }

  /** `data.filter((row) => row.sent_status !== "email sent")`. */
  function Unsent(data: seq<Record>): seq<Record>
  {
    if data == [] then []
    else (if IsPending(data[0]) then [data[0]] else []) + Unsent(data[1..])
  }

  /** The filter keeps exactly the pending records. */
  lemma {:induction false} UnsentMembers(data: seq<Record>, x: Record)
    ensures x in Unsent(data) <==> x in data && IsPending(x)
  {
    if data != [] {
      UnsentMembers(data[1..], x);
      assert data == [data[0]] + data[1..];
    }
  }

  /** The filter keeps the order of the records it keeps. */
  lemma {:induction false} UnsentSubsequence(data: seq<Record>)
    ensures IsSubsequence(Unsent(data), data)
    ensures |Unsent(data)| <= |data|
  {
    if data != [] {
      UnsentSubsequence(data[1..]);
      if IsPending(data[0]) {
        assert ([data[0]] + Unsent(data[1..]))[1..] == Unsent(data[1..]);
      } else {
        assert [] + Unsent(data[1..]) == Unsent(data[1..]);
        SubsequenceSkipFirst(Unsent(data[1..]), data);
      }
    }
    SubsequenceLength(Unsent(data), data);
  }

  /** Filtering a concatenation filters each part. */
  lemma {:induction false} UnsentAppend(a: seq<Record>, b: seq<Record>)
    ensures Unsent(a + b) == Unsent(a) + Unsent(b)
  {
    if a != [] {
      assert (a + b)[0] == a[0];
      assert (a + b)[1..] == a[1..] + b;
      UnsentAppend(a[1..], b);
      var head := if IsPending(a[0]) then [a[0]] else [];
      assert Unsent(a + b) == head + (Unsent(a[1..]) + Unsent(b));
      assert Unsent(a) == head + Unsent(a[1..]);
    } else {
      assert a + b == b;
    }
  }

  /** A run against a sheet where every record is marked sent finds nothing to do. */
  lemma {:induction false} UnsentAllSent(data: seq<Record>)
    requires forall i :: 0 <= i < |data| ==> !IsPending(data[i])
    ensures Unsent(data) == []
  {
    if data != [] {
      UnsentAllSent(data[1..]);
    }
  }

  /** A sheet with nothing marked sent loses no record to the filter. */
  lemma {:induction false} UnsentNoneSent(data: seq<Record>)
    requires forall i :: 0 <= i < |data| ==> IsPending(data[i])
    ensures Unsent(data) == data
  {
    if data != [] {
      UnsentNoneSent(data[1..]);
    }
  }

  /** `RecordsSkipBlank` in the sheet's own row numbering: data row `i` is `sheet[i]`. */
  lemma DataRecordsRows(sheet: Sheet)
    ensures forall r :: r in DataRecords(sheet) <==>
              exists i :: 1 <= i < |sheet| && HasValues(sheet[i]) && r == RowRecord(sheet[0], sheet[i])
    ensures |DataRecords(sheet)| < |sheet| || DataRecords(sheet) == []
  {
    if sheet != [] {
      var data, rows := DataRecords(sheet), sheet[1..];
      RecordsSkipBlank(sheet[0], rows);
      forall r | r in data
        ensures exists i :: 1 <= i < |sheet| && HasValues(sheet[i]) && r == RowRecord(sheet[0], sheet[i])
      {
        var j :| 0 <= j < |rows| && HasValues(rows[j]) && r == RowRecord(sheet[0], rows[j]);
        assert sheet[j + 1] == rows[j];
      }
      forall r | exists i :: 1 <= i < |sheet| && HasValues(sheet[i]) && r == RowRecord(sheet[0], sheet[i])
        ensures r in data
      {
        var i :| 1 <= i < |sheet| && HasValues(sheet[i]) && r == RowRecord(sheet[0], sheet[i]);
        assert rows[i - 1] == sheet[i];
      }
    }
  }

  /**
   * The `eachRow` conversion: one record per row after the header row that
   * holds a value, in sheet order.
   */
  method ConvertRows(sheet: Sheet) returns (data: seq<Record>)
    ensures data == DataRecords(sheet)
    ensures forall r :: r in data <==>
              exists i :: 1 <= i < |sheet| && HasValues(sheet[i]) && r == RowRecord(sheet[0], sheet[i])
    ensures |data| < |sheet| || data == []
  {
    data := [];
    var i := 0;
    while i < |sheet|
      invariant 0 <= i <= |sheet|
      invariant data == if i == 0 then [] else Records(sheet[0], sheet[1..i])
    {
      var rowNumber := i + 1;
      var row := sheet[i];
      if rowNumber > 1 && HasValues(row) {
        var rowData: Record := map[];
        var col := 1;
        while col <= |row|
          invariant 1 <= col <= |row| + 1
          invariant rowData == RecordPrefix(sheet[0], row, col - 1)
        {
          var headerCell := CellAt(sheet[0], col);
          if Truthy(headerCell) && row[col - 1] != Null {
            rowData := rowData[headerCell := row[col - 1]];
          }
          col := col + 1;
        }
        data := data + [rowData];
      }
      if i > 0 {
        assert sheet[1..i + 1][..i - 1] == sheet[1..i];
      }
      i := i + 1;
    }
    if sheet != [] {
      assert sheet[1..i] == sheet[1..];
    }
    DataRecordsRows(sheet);
  }

  /** What `loadUnsentEmails` returns or throws, given the file and the read outcomes. */
  function LoadResult(sheet: Option<Sheet>, openPassword: Option<string>, oracle: ReadOracle)
    : Result<seq<Record>, WorkbookError>
  {
    if !OpenWorkbook(openPassword, oracle).loaded then Err(ReadFailed)
    else if sheet.None? then Err(NoWorksheet)
    else Ok(Unsent(DataRecords(sheet.value)))
  }

  /**
   * `loadUnsentEmails`: open the file under the read policy, reject a
   * workbook without a worksheet, convert the rows and filter them. Every
   * error reaches the caller.
   */
  method LoadUnsentEmails(file: XlsxFile, openPassword: Option<string>, oracle: ReadOracle)
    returns (attempts: seq<ReadAttempt>, r: Result<seq<Record>, WorkbookError>)
    ensures attempts == OpenWorkbook(openPassword, oracle).attempts
    ensures r == LoadResult(file.sheet, openPassword, oracle)
    ensures r == Err(ReadFailed) <==> !OpenWorkbook(openPassword, oracle).loaded
    ensures r == Err(NoWorksheet) <==> OpenWorkbook(openPassword, oracle).loaded && file.sheet.None?
    ensures r.Ok? ==> file.sheet.Some? && IsSubsequence(r.value, DataRecords(file.sheet.value))
    ensures r.Ok? ==> |r.value| < |file.sheet.value| || r.value == []
    ensures r.Ok? ==> forall x :: x in r.value <==> x in DataRecords(file.sheet.value) && IsPending(x)
  {
    var run := OpenWorkbook(openPassword, oracle);
    attempts := run.attempts;
    if !run.loaded {
      return attempts, Err(ReadFailed);
    }
    if file.sheet.None? {
      return attempts, Err(NoWorksheet);
    }
    var data := ConvertRows(file.sheet.value);
    var unsent := Unsent(data);
    UnsentSubsequence(data);
    forall x
      ensures x in unsent <==> x in data && IsPending(x)
    {
      UnsentMembers(data, x);
    }
    r := Ok(unsent);
  }
}
