/**
 * The spreadsheet as the script sees it through cell reads: a named grid of
 * the values getValue() returns, each taken to be a string. Row r, column c
 * (both 1-based) is rows[r-1][c-1]; a cell outside the grid reads as the
 * empty string, as an empty cell does.
 */
module Sheets {
  datatype Sheet = Sheet(name: string, rows: seq<seq<string>>)

  function Cell(sheet: Sheet, row: int, col: int): (v: string)
    ensures !(1 <= row <= |sheet.rows|) ==> v == ""
  {
    if 1 <= row <= |sheet.rows| && 1 <= col <= |sheet.rows[row - 1]|
    then sheet.rows[row - 1][col - 1]
    else ""
  }

  /** getLastRow: the grid holds the sheet's data range. */
  function LastRow(sheet: Sheet): nat
  {
    |sheet.rows|
  }

  /** getLastColumn: the widest row of the data range. */
  function LastColumn(sheet: Sheet): (n: nat)
    ensures forall k :: 0 <= k < |sheet.rows| ==> |sheet.rows[k]| <= n
    decreases |sheet.rows|
  {
    if |sheet.rows| == 0 then 0
    else
      var rest := LastColumn(Sheet(sheet.name, sheet.rows[1..]));
      assert forall k :: 1 <= k < |sheet.rows| ==> sheet.rows[k] == sheet.rows[1..][k - 1];
      if |sheet.rows[0]| > rest then |sheet.rows[0]| else rest
  }

  /** The widest row is as wide as LastColumn: the bound is reached. */
  lemma {:induction false} LastColumnAttained(sheet: Sheet)
    ensures |sheet.rows| == 0 ==> LastColumn(sheet) == 0
    ensures |sheet.rows| > 0 ==> exists k :: 0 <= k < |sheet.rows| && |sheet.rows[k]| == LastColumn(sheet)
    decreases |sheet.rows|
  {
    if |sheet.rows| > 0 {
      var tail := Sheet(sheet.name, sheet.rows[1..]);
      if |tail.rows| > 0 && |sheet.rows[0]| <= LastColumn(tail) {
        LastColumnAttained(tail);
        var k :| 0 <= k < |tail.rows| && |tail.rows[k]| == LastColumn(tail);
        assert sheet.rows[k + 1] == tail.rows[k];
        assert |sheet.rows[k + 1]| == LastColumn(sheet);
      } else {
        assert |sheet.rows[0]| == LastColumn(sheet);
      }
    }
  }

  /** getRange(col + ':' + col).getValues(), one value per row of the grid. */
  function ColumnValues(sheet: Sheet, col: int): (vs: seq<string>)
    ensures |vs| == LastRow(sheet)
    ensures forall k :: 0 <= k < |vs| ==> vs[k] == Cell(sheet, k + 1, col)
  {
    seq(|sheet.rows|, k requires 0 <= k < |sheet.rows| => Cell(sheet, k + 1, col))
  }

  /**
   * The values of a one-row range between two columns, such as "H2:K2".
   * A range written with its end before its start covers the same cells as
   * the range written the other way round.
   */
  function RangeValues(sheet: Sheet, row: int, from: int, to: int): (vs: seq<string>)
    ensures |vs| == (if from <= to then to - from + 1 else from - to + 1)
    ensures forall k :: 0 <= k < |vs| ==>
              vs[k] == Cell(sheet, row, (if from <= to then from else to) + k)
  {
    var lo := if from <= to then from else to;
    var hi := if from <= to then to else from;
    seq(hi - lo + 1, k requires 0 <= k <= hi - lo => Cell(sheet, row, lo + k))
  }

  /**
   * The column number that the letters of an A1 address stand for, read as a
   * bijective base-26 numeral ("A" = 1, "Z" = 26, "AA" = 27).
   */
  function ColumnIndex(letters: string): int
  {
    if |letters| == 0 then 0
    else 26 * ColumnIndex(letters[..|letters| - 1]) + (letters[|letters| - 1] as int - 64)
  }
}
