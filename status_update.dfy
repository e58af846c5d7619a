/**
 * Phase 4: reopen the spreadsheet, set the status column of every data row
 * whose address was sent to "email sent", count those rows, and write the
 * file back.
 */
module StatusUpdate {
  import opened Outcomes
  import opened Cells
  import opened Workbook

  /** Column 1 holds the address and column 2 the status; this phase does not look at the header row. */
  const EmailColumn: nat := 1
  const StatusColumn: nat := 2

  /** The password the file is read with: `editPassword` when non-blank, else `openPassword`. */
  function ReadPassword(editPassword: Option<string>, openPassword: Option<string>): (p: Option<string>)
    ensures Provided(editPassword) ==> p == editPassword
    ensures !Provided(editPassword) ==> p == openPassword
    ensures Provided(p) <==> Provided(editPassword) || Provided(openPassword)
  {
    if Provided(editPassword) then editPassword else openPassword
  }

  /** The password the file is written with: `editPassword` when non-blank, else none. */
  function WritePassword(editPassword: Option<string>): (p: Option<string>)
    ensures p.Some? ==> Provided(p) && p == editPassword
    ensures Provided(editPassword) ==> p == editPassword
  {
    if Provided(editPassword) then editPassword else None
  }

  /** `row.getCell(col).value = v`: a row shorter than `col` grows with empty cells. */
  function SetCell(row: Row, col: nat, v: Cell): (r: Row)
    requires col >= 1
    ensures |r| == if col <= |row| then |row| else col
    ensures CellAt(r, col) == v
    ensures forall d :: 1 <= d && d != col ==> CellAt(r, d) == CellAt(row, d)
  {
    if col <= |row| then row[col - 1 := v]
    else row + seq(col - 1 - |row|, _ => Null) + [v]
  }

  /**
   * `emailCell.value && sentEmails.includes(emailCell.value)` for a cell of the
   * re-read file. `includes` compares strings, numbers and booleans by value
   * but objects by identity, and every object cell of the re-read file is a
   * new object, so an object-valued address (a hyperlink, a formula, a date)
   * never matches.
   */
  predicate MatchesAddress(email: Cell, sentEmails: seq<Cell>)
  {
    Truthy(email) && !email.Other? && email in sentEmails
  }

  /** The update condition on a data row: its column-1 address matches. */
  predicate Matches(row: Row, sentEmails: seq<Cell>)
  {
    MatchesAddress(CellAt(row, EmailColumn), sentEmails)
  }

  /** A data row after the update. */
  function MarkedRow(row: Row, sentEmails: seq<Cell>): Row
  {
    if Matches(row, sentEmails) then SetCell(row, StatusColumn, Str(EmailSent)) else row
  }

  /**
   * The worksheet after the update: the header row and every row that does
   * not match are untouched; a matching row gets "email sent" in its status
   * column and keeps every other column.
   */
  function MarkedSheet(sheet: Sheet, sentEmails: seq<Cell>): (r: Sheet)
    ensures |r| == |sheet|
    ensures |sheet| > 0 ==> r[0] == sheet[0]
    ensures forall i :: 1 <= i < |sheet| && Matches(sheet[i], sentEmails) ==>
              CellAt(r[i], StatusColumn) == Str(EmailSent)
    ensures forall i, c :: 1 <= i < |sheet| && 1 <= c && c != StatusColumn ==>
              CellAt(r[i], c) == CellAt(sheet[i], c)
    ensures forall i :: 1 <= i < |sheet| && !Matches(sheet[i], sentEmails) ==> r[i] == sheet[i]
  {
    seq(|sheet|, i requires 0 <= i < |sheet| => if i == 0 then sheet[0] else MarkedRow(sheet[i], sentEmails))
  }

  /** The number of matching rows among rows 2..k (indices 1 to k - 1). */
  function CountMatches(sheet: Sheet, sentEmails: seq<Cell>, k: nat): (n: nat)
    requires k <= |sheet|
    ensures n <= if k == 0 then 0 else k - 1
  {
    if k <= 1 then 0
    else CountMatches(sheet, sentEmails, k - 1) + (if Matches(sheet[k - 1], sentEmails) then 1 else 0)
  }

  /** The indices of the matching data rows among the first `k` rows. */
  function MatchingRows(sheet: Sheet, sentEmails: seq<Cell>, k: nat): set<nat>
    requires k <= |sheet|
  {
    set i: nat | 1 <= i < k && Matches(sheet[i], sentEmails)
  }

  /** The count is the number of distinct matching rows: each row counts once, however often its address was sent. */
  lemma {:induction false} CountIsMatchingRows(sheet: Sheet, sentEmails: seq<Cell>, k: nat)
    requires k <= |sheet|
    ensures CountMatches(sheet, sentEmails, k) == |MatchingRows(sheet, sentEmails, k)|
  {
    if k <= 1 {
      assert MatchingRows(sheet, sentEmails, k) == {};
    } else {
      CountIsMatchingRows(sheet, sentEmails, k - 1);
      var before := MatchingRows(sheet, sentEmails, k - 1);
      if Matches(sheet[k - 1], sentEmails) {
        assert MatchingRows(sheet, sentEmails, k) == before + {k - 1};
      } else {
        assert MatchingRows(sheet, sentEmails, k) == before;
      }
    }
  }

  /** Running the update a second time with the same list changes nothing. */
  lemma MarkIdempotent(sheet: Sheet, sentEmails: seq<Cell>)
    ensures MarkedSheet(MarkedSheet(sheet, sentEmails), sentEmails) == MarkedSheet(sheet, sentEmails)
  {
    var once := MarkedSheet(sheet, sentEmails);
    var twice := MarkedSheet(once, sentEmails);
    forall i | 1 <= i < |sheet|
      ensures twice[i] == once[i]
    {
      assert CellAt(once[i], EmailColumn) == CellAt(sheet[i], EmailColumn);
      if Matches(sheet[i], sentEmails) {
        var row := once[i];
        assert |row| >= StatusColumn && row[StatusColumn - 1] == Str(EmailSent);
        assert row[StatusColumn - 1 := Str(EmailSent)] == row;
      }
    }
  }

  /** The worksheet loaded in memory, which the `eachRow` loop edits in place. */
  class Worksheet {
    var rows: Sheet

    constructor (rows: Sheet)
      ensures this.rows == rows
    {
      this.rows := rows;
    }

    /** The update loop: returns `updatedCount`, one per matching data row. */
    method MarkSent(sentEmails: seq<Cell>) returns (updatedCount: nat)
      modifies this
      ensures rows == MarkedSheet(old(rows), sentEmails)
      ensures updatedCount == CountMatches(old(rows), sentEmails, |old(rows)|)
    {
      ghost var target := MarkedSheet(rows, sentEmails);
      updatedCount := 0;
      var n := |rows|;
      var i := 0;
      while i < n
        invariant 0 <= i <= n == |rows| == |old(rows)| == |target|
        invariant forall k :: 0 <= k < i ==> rows[k] == target[k]
        invariant forall k :: i <= k < n ==> rows[k] == old(rows)[k]
        invariant updatedCount == CountMatches(old(rows), sentEmails, i)
      {
        var rowNumber := i + 1;
        if rowNumber > 1 && HasValues(rows[i]) {
          var emailCell := CellAt(rows[i], EmailColumn);
          if MatchesAddress(emailCell, sentEmails) {
            rows := rows[i := SetCell(rows[i], StatusColumn, Str(EmailSent))];
            updatedCount := updatedCount + 1;
          }
        }
        assert rows[i] == target[i];
        i := i + 1;
      }
      assert rows == target;
    }
  }

  /**
   * `updateSentStatus`: open under the read policy with `ReadPassword`,
   * reject a workbook without a worksheet, mark the rows, write the file with
   * `WritePassword`. Every error reaches the caller, and the file changes
   * only when the write succeeds. The count is what the source logs.
   */
  method UpdateSentStatus(file: XlsxFile, sentEmails: seq<Cell>, editPassword: Option<string>,
                          openPassword: Option<string>, oracle: ReadOracle, writeOk: bool)
    returns (attempts: seq<ReadAttempt>, writes: seq<WriteAttempt>, r: Result<nat, WorkbookError>)
    modifies file
    ensures attempts == OpenWorkbook(ReadPassword(editPassword, openPassword), oracle).attempts
    ensures r == Err(ReadFailed) <==> !OpenWorkbook(ReadPassword(editPassword, openPassword), oracle).loaded
    ensures r == Err(NoWorksheet) <==>
              OpenWorkbook(ReadPassword(editPassword, openPassword), oracle).loaded && old(file.sheet).None?
    ensures writes == if r == Err(ReadFailed) || r == Err(NoWorksheet) then []
                      else [WriteAttempt(WritePassword(editPassword))]
    ensures r == Err(WriteFailed) <==> writes != [] && !writeOk
    ensures r.Ok? <==> OpenWorkbook(ReadPassword(editPassword, openPassword), oracle).loaded &&
                       old(file.sheet).Some? && writeOk
    ensures r.Ok? ==> r.value == CountMatches(old(file.sheet).value, sentEmails, |old(file.sheet).value|)
    ensures r.Ok? ==> file.sheet == Some(MarkedSheet(old(file.sheet).value, sentEmails))
    ensures r.Ok? ==> file.protection == WritePassword(editPassword)
    ensures !r.Ok? ==> unchanged(file)
  {
    var run := OpenWorkbook(ReadPassword(editPassword, openPassword), oracle);
    attempts := run.attempts;
    writes := [];
    if !run.loaded {
      return attempts, writes, Err(ReadFailed);
    }
    if file.sheet.None? {
      return attempts, writes, Err(NoWorksheet);
    }
    var worksheet := new Worksheet(file.sheet.value);
    var updatedCount := worksheet.MarkSent(sentEmails);
    var password := WritePassword(editPassword);
    writes := [WriteAttempt(password)];
    if !writeOk {
      return attempts, writes, Err(WriteFailed);
    }
    file.sheet := Some(worksheet.rows);
    file.protection := password;
    r := Ok(updatedCount);
  }
}
