/**
 * Column and row addressing: columnToLetter, which names the last column of
 * the sub-grade range, and getFirstWrittenRow, which finds the header row.
 */
module Addressing {
  import opened Wrappers
  import opened Sheets

  /**
   * The one letter columnToLetter writes for a positive column: the remainder
   * `(col - 1) % 26` is computed once, before the loop, and never updated.
   */
  function RepeatedLetter(col: int): char
    requires col >= 1
  {
    (65 + (col - 1) % 26) as char
  }

  /** One update of the loop variable: `col = (col - i - 1) / 26`, real division. */
  function NextCol(c: real, i: int): real
  {
    (c - i as real - 1.0) / 26.0
  }

  /** When the loop runs once more, the integer part of `col` has dropped. */
  lemma NextColShrinks(c: real, i: int)
    requires c > 0.0 && 0 <= i < 26
    ensures NextCol(c, i) > 0.0 ==> NextCol(c, i).Floor < c.Floor
  {
    var next := NextCol(c, i);
    if next > 0.0 {
      assert c >= 1.0;
      assert next <= c - 1.0;
      assert next.Floor <= (c - 1.0).Floor;
    }
  }

  /** How many times the loop body runs from `col == c`, with remainder i. */
  function Steps(c: real, i: int): nat
    requires 0 <= i < 26
    decreases if c > 0.0 then c.Floor + 1 else 0
  {
    if c <= 0.0 then 0
    else
      NextColShrinks(c, i);
      1 + Steps(NextCol(c, i), i)
  }

  /** What columnToLetter returns: its one letter, once per loop iteration. */
  function ColumnLetters(col: int): string
  {
    if col < 1 then ""
    else seq(Steps(col as real, (col - 1) % 26), _ => RepeatedLetter(col))
  }

  /** JavaScript's `%`, whose result takes the sign of the dividend. */
  function JsRemainder(a: int, b: int): (r: int)
    requires b > 0
    ensures -b < r < b
    ensures a >= 0 ==> r == a % b
    ensures a < 0 ==> r <= 0 && exists q :: a == q * b + r
  {
    if a >= 0 then a % b
    else
      var m := (-a) % b;
      assert -a == ((-a) / b) * b + m;
      assert a == (-((-a) / b)) * b + -m;
      -m
  }

  /** columnToLetter, with `col` held as an exact real as JavaScript divides it. */
  method ColumnToLetter(col: int) returns (letter: string)
    ensures letter == ColumnLetters(col)
    ensures col < 1 ==> letter == ""
    ensures forall k :: 0 <= k < |letter| ==> letter[k] == (65 + (col - 1) % 26) as char
  {
    var i := JsRemainder(col - 1, 26);
    var c: real := col as real;
    letter := "";
    while c > 0.0
      invariant col < 1 ==> c == col as real && letter == ""
      invariant col >= 1 ==> i == (col - 1) % 26
      invariant col >= 1 ==> |letter| + Steps(c, i) == Steps(col as real, i)
      invariant forall k :: 0 <= k < |letter| ==> letter[k] == (65 + (col - 1) % 26) as char
      decreases if c > 0.0 then c.Floor + 1 else 0
    {
      letter := [(i + 65) as char] + letter;
      NextColShrinks(c, i);
      c := NextCol(c, i);
    }
  }

  /** Up to column 26 the result is the single letter of the column. */
  lemma ColumnLettersSingle(col: int)
    requires 1 <= col <= 26
    ensures ColumnLetters(col) == [(64 + col) as char]
  {
    assert (col - 1) % 26 == col - 1;
    assert NextCol(col as real, col - 1) == 0.0;
    assert Steps(col as real, col - 1) == 1;
  }

  /** From 27 to 52 the result is the column's letter twice: 28 gives "BB", not "AB". */
  lemma ColumnLettersDouble(col: int)
    requires 27 <= col <= 52
    ensures ColumnLetters(col) == [(38 + col) as char, (38 + col) as char]
  {
    var i := col - 27;
    assert (col - 1) % 26 == i;
    assert NextCol(col as real, i) == 1.0;
    assert NextCol(1.0, i) <= 0.0;
    assert Steps(1.0, i) == 1;
    assert Steps(col as real, i) == 2;
  }

  /** At 53 real division keeps a fraction alive for a third iteration: "AAA". */
  lemma ColumnLetters53()
    ensures ColumnLetters(53) == "AAA"
  {
    assert NextCol(53.0, 0) == 2.0;
    assert NextCol(2.0, 0) == 1.0 / 26.0;
    assert NextCol(1.0 / 26.0, 0) <= 0.0;
    assert Steps(1.0 / 26.0, 0) == 1;
    assert Steps(2.0, 0) == 2;
    assert Steps(53.0, 0) == 3;
  }

  /**
   * Reading the letters back as an A1 column gives the column again exactly
   * up to column 27 and never from 28 to 52.
   */
  lemma ColumnLettersRoundTrip(col: int)
    requires 1 <= col <= 52
    ensures ColumnIndex(ColumnLetters(col)) == col <==> col <= 27
  {
    if col <= 26 {
      ColumnLettersSingle(col);
      assert ColumnLetters(col)[..0] == [];
    } else {
      ColumnLettersDouble(col);
      var l := (38 + col) as char;
      assert [l, l][..1] == [l];
      assert [l][..0] == [];
      assert ColumnIndex([l]) == col - 26;
      assert ColumnIndex([l, l]) == 27 * (col - 26);
    }
  }

  /** The header row scan of getFirstWrittenRow, from index i (row i + 1) on. */
  function HeaderRowFrom(values: seq<string>, i: nat): (r: Option<int>)
    requires i >= 1
    ensures r.Some? <==> exists k :: i <= k < |values| && values[k] != ""
    ensures r.Some? ==> i + 1 <= r.value <= |values| && values[r.value - 1] != ""
    ensures r.Some? ==> forall k :: i <= k < r.value - 1 ==> values[k] == ""
    decreases |values| - i
  {
    if i >= |values| then None
    else if values[i] == "" then HeaderRowFrom(values, i + 1)
    else Some(i + 1)
  }

  /**
   * The header row: the first row from row 2 on whose value is non-empty, or
   * None when there is none (the script then stops with a TypeError).
   */
  function HeaderRow(values: seq<string>): Option<int>
  {
    HeaderRowFrom(values, 1)
  }

  /** The scan from index i reads nothing before index i. */
  lemma {:induction false} HeaderRowFromReadsSuffix(a: seq<string>, b: seq<string>, i: nat)
    requires i >= 1 && |a| == |b|
    requires forall k :: i <= k < |a| ==> a[k] == b[k]
    ensures HeaderRowFrom(a, i) == HeaderRowFrom(b, i)
    decreases |a| - i
  {
    if i < |a| && a[i] == "" {
      HeaderRowFromReadsSuffix(a, b, i + 1);
    }
  }

  /** The header row never depends on row 1, which the scan skips. */
  lemma HeaderRowSkipsRowOne(values: seq<string>, x: string)
    requires |values| > 0
    ensures HeaderRow(values[0 := x]) == HeaderRow(values)
  {
    HeaderRowFromReadsSuffix(values[0 := x], values, 1);
  }

  /** getFirstWrittenRow over the values of one column. */
  method FirstWrittenRow(values: seq<string>) returns (header: Option<int>)
    ensures header == HeaderRow(values)
  {
    var i := 1;
    while i < |values| && values[i] == ""
      invariant 1 <= i
      invariant HeaderRowFrom(values, i) == HeaderRow(values)
      decreases |values| - i
    {
      i := i + 1;
    }
    if i >= |values| {
      // values[i] is undefined here and the script's `values[i][0]` throws.
      return None;
    }
    header := Some(i + 1);
  }
}
