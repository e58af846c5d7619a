/**
 * How the loader and the status writer fit together. The loader finds the
 * address and status by header text, the writer by position (columns 1 and
 * 2). When the header row puts "email" in column 1 and "sent_status" in
 * column 2, and no later column repeats either header, a record whose
 * address was reported sent is no longer pending on the next load, unless
 * that address is an object cell, which the writer's `includes` never matches.
 */
module Reconcile {
  import opened Outcomes
  import opened Cells
  import opened Workbook
  import opened LoadUnsent
  import opened StatusUpdate
  import opened Sender

  /** The header layout the status writer assumes. */
  predicate StandardLayout(header: Row)
  {
    CellAt(header, EmailColumn) == Str("email") &&
    CellAt(header, StatusColumn) == Str("sent_status") &&
    forall d: nat :: StatusColumn < d <= |header| ==> CellAt(header, d) != Str("email") && CellAt(header, d) != Str("sent_status")
  }

  /** A field whose header names exactly one column reads that column's cell (empty when the row is shorter). */
  lemma FieldIsColumn(header: Row, row: Row, c: nat, key: string)
    requires c >= 1 && key != "" && CellAt(header, c) == Str(key)
    requires forall d: nat :: d >= 1 && d != c ==> CellAt(header, d) != Str(key)
    ensures Field(RowRecord(header, row), key) == CellAt(row, c)
  {
    if c <= |row| && row[c - 1] != Null {
      RecordValue(header, row, |row|, c);
    } else {
      RecordKeys(header, row, |row|, Str(key));
    }
  }

  /** Under the standard layout the record's address and status are columns 1 and 2. */
  lemma LayoutFields(header: Row, row: Row)
    requires StandardLayout(header)
    ensures EmailOf(RowRecord(header, row)) == CellAt(row, EmailColumn)
    ensures Field(RowRecord(header, row), "sent_status") == CellAt(row, StatusColumn)
  {
    FieldIsColumn(header, row, EmailColumn, "email");
    FieldIsColumn(header, row, StatusColumn, "sent_status");
  }

  /**
   * How a record read back after the update relates to the record read
   * before it: same address; pending no more when the address matched;
   * otherwise unchanged.
   */
  predicate Reconciled(before: Record, after: Record, sentEmails: seq<Cell>)
  {
    EmailOf(after) == EmailOf(before) &&
    (MatchesAddress(EmailOf(before), sentEmails) ==> !IsPending(after)) &&
    (!MatchesAddress(EmailOf(before), sentEmails) ==> after == before)
  }

  /** One data row: the update keeps it blank or not, and its record is reconciled. */
  lemma MarkedRowRecord(header: Row, row: Row, sentEmails: seq<Cell>)
    requires StandardLayout(header)
    ensures HasValues(MarkedRow(row, sentEmails)) == HasValues(row)
    ensures Reconciled(RowRecord(header, row), RowRecord(header, MarkedRow(row, sentEmails)), sentEmails)
  {
    var marked := MarkedRow(row, sentEmails);
    LayoutFields(header, row);
    LayoutFields(header, marked);
    if Matches(row, sentEmails) {
      assert row[0] != Null && marked[0] == row[0];
      assert HasValues(row) && HasValues(marked);
    }
  }

  /** Row by row, the records read back after the update are reconciled with those read before. */
  lemma {:induction false} MarkedRowsRecords(header: Row, rows: seq<Row>, marked: seq<Row>, sentEmails: seq<Cell>)
    requires StandardLayout(header)
    requires |marked| == |rows|
    requires forall j :: 0 <= j < |rows| ==> marked[j] == MarkedRow(rows[j], sentEmails)
    ensures |Records(header, marked)| == |Records(header, rows)|
    ensures forall i :: 0 <= i < |Records(header, rows)| ==>
              Reconciled(Records(header, rows)[i], Records(header, marked)[i], sentEmails)
  {
    if rows != [] {
      var n := |rows|;
      MarkedRowsRecords(header, rows[..n - 1], marked[..n - 1], sentEmails);
      MarkedRowRecord(header, rows[n - 1], sentEmails);
    }
  }

  /** `MarkedRowsRecords` for the data rows of a whole sheet. */
  lemma MarkedRecords(sheet: Sheet, sentEmails: seq<Cell>)
    requires |sheet| > 0 && StandardLayout(sheet[0])
    ensures |DataRecords(MarkedSheet(sheet, sentEmails))| == |DataRecords(sheet)|
    ensures forall i :: 0 <= i < |DataRecords(sheet)| ==>
              Reconciled(DataRecords(sheet)[i], DataRecords(MarkedSheet(sheet, sentEmails))[i], sentEmails)
  {
    var marked := MarkedSheet(sheet, sentEmails);
    MarkedRowsRecords(sheet[0], sheet[1..], marked[1..], sentEmails);
  }

  /**
   * One record after the update: its address is unchanged; a record whose
   * address matched reads as not pending; any other record, among them one
   * whose address is an object such as a hyperlink, is exactly as before.
   */
  lemma MarkedRecordAt(sheet: Sheet, sentEmails: seq<Cell>, i: nat)
    requires |sheet| > 0 && StandardLayout(sheet[0])
    requires i < |DataRecords(sheet)|
    ensures i < |DataRecords(MarkedSheet(sheet, sentEmails))|
    ensures EmailOf(DataRecords(MarkedSheet(sheet, sentEmails))[i]) == EmailOf(DataRecords(sheet)[i])
    ensures MatchesAddress(EmailOf(DataRecords(sheet)[i]), sentEmails) ==>
              !IsPending(DataRecords(MarkedSheet(sheet, sentEmails))[i])
    ensures !MatchesAddress(EmailOf(DataRecords(sheet)[i]), sentEmails) ==>
              DataRecords(MarkedSheet(sheet, sentEmails))[i] == DataRecords(sheet)[i]
  {
    MarkedRecords(sheet, sentEmails);
  }

  /**
   * The next run's pending list, read from the updated file, holds no
   * record whose address matched the sent list.
   */
  lemma NextRunSkipsSent(sheet: Sheet, sentEmails: seq<Cell>, oracle: ReadOracle)
    requires |sheet| > 0 && StandardLayout(sheet[0])
    requires LoadResult(Some(MarkedSheet(sheet, sentEmails)), None, oracle).Ok?
    ensures forall r :: r in LoadResult(Some(MarkedSheet(sheet, sentEmails)), None, oracle).value ==>
              !MatchesAddress(EmailOf(r), sentEmails)
  {
    var data := DataRecords(MarkedSheet(sheet, sentEmails));
    MarkedRecords(sheet, sentEmails);
    forall r | r in Unsent(data)
      ensures !MatchesAddress(EmailOf(r), sentEmails)
    {
      UnsentMembers(data, r);
      var i :| 0 <= i < |data| && data[i] == r;
      assert Reconciled(DataRecords(sheet)[i], data[i], sentEmails);
    }
  }
}
