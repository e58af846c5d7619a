/**
 * The spreadsheet file both the loader and the status writer open: its first
 * worksheet as a sequence of rows, and the read policy they share (try the
 * password, then fall back once to a read without one).
 */
module Workbook {
  import opened Outcomes
  import opened Cells

  type Row = seq<Cell>

  /** The rows of a worksheet in order; index 0 is row 1, the header row. */
  type Sheet = seq<Row>

  /** `row.getCell(col).value` for a 1-based column; a cell past the end of the row is empty. */
  function CellAt(row: Row, col: nat): (v: Cell)
    requires col >= 1
    ensures col > |row| ==> v == Null
    ensures col <= |row| ==> v == row[col - 1]
  {
    if col <= |row| then row[col - 1] else Null
  }

  /** `row.hasValues`: some cell of the row holds a value. `eachRow` visits only such rows. */
  predicate HasValues(row: Row)
  {
    exists c :: 0 <= c < |row| && row[c] != Null
  }

  /** One call of `workbook.xlsx.readFile`, with or without the password option. */
  datatype ReadAttempt = WithPassword(password: string) | WithoutPassword

  /** Whether a read with the password, and a read without one, would succeed on this file. */
  datatype ReadOracle = ReadOracle(passwordReadOk: bool, plainReadOk: bool)

  /** The read calls made, in order, and whether the workbook ended up loaded. */
  datatype ReadRun = ReadRun(attempts: seq<ReadAttempt>, loaded: bool)

  /** The errors the two file phases throw. */
  datatype WorkbookError = ReadFailed | NoWorksheet | WriteFailed

  /**
   * The read policy: with a non-blank password, a password read first and a
   * plain read only if it throws; otherwise one plain read. A throw from the
   * last read made is the call's failure.
   */
  function OpenWorkbook(password: Option<string>, oracle: ReadOracle): (r: ReadRun)
    ensures 1 <= |r.attempts| <= 2
    ensures Provided(password) ==> r.attempts[0] == WithPassword(password.value)
    ensures !Provided(password) ==> r.attempts == [WithoutPassword]
    ensures r.attempts[|r.attempts| - 1] == WithoutPassword <==> !(Provided(password) && oracle.passwordReadOk)
    ensures |r.attempts| == 2 <==> Provided(password) && !oracle.passwordReadOk
    ensures r.loaded <==> (Provided(password) && oracle.passwordReadOk) || (WithoutPassword in r.attempts && oracle.plainReadOk)
  {
    if Provided(password) then
      if oracle.passwordReadOk then ReadRun([WithPassword(password.value)], true)
      else ReadRun([WithPassword(password.value), WithoutPassword], oracle.plainReadOk)
    else
      ReadRun([WithoutPassword], oracle.plainReadOk)
  }

  /** A call of `workbook.xlsx.writeFile`, with the password it protects the file with. */
  datatype WriteAttempt = WriteAttempt(password: Option<string>)

  /** The file on disk: its first worksheet (none when the workbook has no worksheet) and its protection. */
  class XlsxFile {
    var sheet: Option<Sheet>
    var protection: Option<string>

    constructor (sheet: Option<Sheet>, protection: Option<string>)
      ensures this.sheet == sheet && this.protection == protection
    {
      this.sheet := sheet;
      this.protection := protection;
    }
  }
}
