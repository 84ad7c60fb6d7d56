/**
 * makeGradeTable: the HTML body of one student's grade email, built from the
 * five cells of the student's row and the sub-grade ranges of the header row
 * and of the student's row.
 */
module Report {
  import opened HtmlEscape

  /** The `info` record after its five cell reads: columns A, B, D, F and G. */
  datatype StudentInfo = StudentInfo(
    lName: string, fName: string, email: string, grade: string, comment: string)

  const CssTable := " style=\"border-collapse: collapse; border: 1px solid black;\""
  const CssCell := " style=\"border: 1px solid black; text-align: center;\""
  const CommentOpen := "<h3>Comments</h3><p>"
  const CommentClose := "</p>"

  /** The Results table's Name row: "last, first". */
  function NameRow(info: StudentInfo): string
  {
    "<tr><th>Name</th><td>" + info.lName + ", " + info.fName + "</td></tr>"
  }

  function EmailRow(info: StudentInfo): string
  {
    "<tr><th>Email</th><td>" + info.email + "</td></tr>"
  }

  /** The Results table's Grade row: the cell as printed, then '%'. */
  function GradeRow(info: StudentInfo): string
  {
    "<tr><th>Grade</th><td>" + info.grade + "%" + "</td></tr>"
  }

  /** The heading and the Results table (the script's `label`). */
  function ResultsSection(subject: string, info: StudentInfo): string
  {
    "<h1>" + subject + "</h1>" + "<h3>Results</h3>" + "<table>"
    + NameRow(info) + EmailRow(info) + GradeRow(info) + "</table>"
  }

  /** One header (tag "th") or value (tag "td") cell of the breakdown. */
  function TableCell(tag: string, v: string): string
  {
    "<" + tag + CssCell + ">" + v + "</" + tag + ">"
  }

  /** The cells for vs, in order, as the loop appends them. */
  function Row(tag: string, vs: seq<string>): string
  {
    if |vs| == 0 then "" else Row(tag, vs[..|vs| - 1]) + TableCell(tag, vs[|vs| - 1])
  }

  /**
   * The cells the loop `for (i = 1; i < getNumColumns(); ++i)` reads with the
   * 1-based getCell(1, i): every column of the range but the last.
   */
  function Shown(vs: seq<string>): seq<string>
  {
    if |vs| == 0 then [] else vs[..|vs| - 1]
  }

  /** The Breakdown section (`table`) around the two accumulated rows. */
  function BreakdownSection(tableHead: string, tableBody: string): string
  {
    "<h3>Breakdown</h3>"
    + "<table" + CssTable + ">"
    + "<thead>" + "<tr>" + tableHead + "</tr>" + "</thead>"
    + "<tbody>" + "<tr>" + tableBody + "</tr>" + "</tbody>"
    + "</table>"
  }

  /** The Comments section: escaped in tmp.js, verbatim in gradeReporter.js. */
  function CommentSection(comment: string, escape: bool): string
  {
    CommentOpen + ShownComment(comment, escape) + CommentClose
  }

  /** The report makeGradeTable returns. */
  function GradeReport(subject: string, info: StudentInfo, subH: seq<string>, subB: seq<string>,
                       escape: bool): string
  {
    ResultsSection(subject, info)
    + BreakdownSection(Row("th", Shown(subH)), Row("td", Shown(subB)))
    + CommentSection(info.comment, escape)
  }

  /** makeGradeTable, given the cells it reads (both ranges span the same columns). */
  method MakeGradeTable(subject: string, info: StudentInfo, subH: seq<string>, subB: seq<string>,
                        escape: bool) returns (html: string)
    requires |subH| == |subB|
    ensures html == GradeReport(subject, info, subH, subB, escape)
  {
    var results := ResultsSection(subject, info);
    var tableHead, tableBody := "", "";
    var i := 1;
    while i < |subH|
      invariant 1 <= i <= (if |subH| == 0 then 1 else |subH|)
      invariant tableHead == Row("th", subH[..i - 1])
      invariant tableBody == Row("td", subB[..i - 1])
    {
      assert subH[..i][..i - 1] == subH[..i - 1];
      assert subB[..i][..i - 1] == subB[..i - 1];
      tableHead := tableHead + TableCell("th", subH[i - 1]);
      tableBody := tableBody + TableCell("td", subB[i - 1]);
      i := i + 1;
    }
    var table := BreakdownSection(tableHead, tableBody);
    var comment := CommentSection(info.comment, escape);
    html := results + table + comment;
  }

  lemma {:induction false} RowConcat(tag: string, xs: seq<string>, ys: seq<string>)
    ensures Row(tag, xs + ys) == Row(tag, xs) + Row(tag, ys)
    decreases |ys|
  {
    if |ys| > 0 {
      var ys' := ys[..|ys| - 1];
      assert (xs + ys)[..|xs + ys| - 1] == xs + ys';
      RowConcat(tag, xs, ys');
    } else {
      assert xs + ys == xs;
    }
  }

  /**
   * For every shown column k (0-based, k < n - 1) the header row and the value
   * row both hold, after the same k cells, the cell of column k: the label
   * subH[k] and the value subB[k].
   */
  lemma BreakdownPairsColumns(subH: seq<string>, subB: seq<string>, k: nat)
    requires |subH| == |subB| && k + 1 < |subH|
    ensures Row("th", Shown(subH))
            == Row("th", subH[..k]) + TableCell("th", subH[k]) + Row("th", subH[k + 1..|subH| - 1])
    ensures Row("td", Shown(subB))
            == Row("td", subB[..k]) + TableCell("td", subB[k]) + Row("td", subB[k + 1..|subB| - 1])
  {
    var n := |subH|;
    assert Shown(subH) == subH[..k] + [subH[k]] + subH[k + 1..n - 1];
    assert Shown(subB) == subB[..k] + [subB[k]] + subB[k + 1..n - 1];
    RowConcat("th", subH[..k] + [subH[k]], subH[k + 1..n - 1]);
    RowConcat("td", subB[..k] + [subB[k]], subB[k + 1..n - 1]);
    assert (subH[..k] + [subH[k]])[..k] == subH[..k];
    assert (subB[..k] + [subB[k]])[..k] == subB[..k];
  }

  /**
   * The last sub-grade column of the range never reaches the report: the
   * breakdown of a range one column wider shows exactly the old columns.
   */
  lemma ReportIgnoresLastColumn(subject: string, info: StudentInfo, subH: seq<string>,
                                subB: seq<string>, escape: bool, h: string, b: string,
                                h': string, b': string)
    requires |subH| == |subB|
    ensures GradeReport(subject, info, subH + [h], subB + [b], escape)
            == GradeReport(subject, info, subH + [h'], subB + [b'], escape)
    ensures Row("th", Shown(subH + [h])) == Row("th", subH)
    ensures Row("td", Shown(subB + [b])) == Row("td", subB)
  {
    assert Shown(subH + [h]) == subH == Shown(subH + [h']);
    assert Shown(subB + [b]) == subB == Shown(subB + [b']);
  }

  lemma Slices(a: string, b: string, c: string)
    ensures (a + b + c)[..|a|] == a
    ensures (a + b + c)[|a|..|a| + |b|] == b
    ensures (a + b + c)[|a| + |b|..] == c
  {
  }

  /**
   * The report opens with the subject heading and the Results table: the
   * name as "last, first", the email, and the grade cell as printed, then '%'.
   */
  lemma ReportOpensWithResults(subject: string, info: StudentInfo, subH: seq<string>,
                               subB: seq<string>, escape: bool)
    ensures var r := GradeReport(subject, info, subH, subB, escape);
            var p := "<h1>" + subject + "</h1>" + "<h3>Results</h3>" + "<table>"
                     + NameRow(info) + EmailRow(info) + GradeRow(info) + "</table>";
            |p| <= |r| && r[..|p|] == p
  {
    var results := ResultsSection(subject, info);
    var table := BreakdownSection(Row("th", Shown(subH)), Row("td", Shown(subB)));
    var comment := CommentSection(info.comment, escape);
    Slices(results, table, comment);
  }

  /** Where the three parts of a comment section sit behind any front part. */
  lemma CommentSlices(front: string, t: string)
    ensures var r := front + CommentOpen + t + CommentClose;
            var start := |front| + |CommentOpen|;
            && r[start - |CommentOpen|..start] == CommentOpen
            && r[start..start + |t|] == t
            && r[start + |t|..] == CommentClose
  {
    Slices(front + CommentOpen, t, CommentClose);
    Slices(front, CommentOpen, t + CommentClose);
    assert front + CommentOpen + t + CommentClose == front + CommentOpen + (t + CommentClose);
  }

  /** r ends with the Comments section holding the text t. */
  predicate ClosesWithComment(r: string, t: string)
  {
    var start := |r| - |t| - |CommentClose|;
    && |CommentOpen| <= start
    && r[start - |CommentOpen|..start] == CommentOpen
    && r[start..start + |t|] == t
    && r[start + |t|..] == CommentClose
  }

  /** The text a comment section shows for a comment. */
  function ShownComment(comment: string, escape: bool): string
  {
    if escape then EscapeHtml(comment) else comment
  }

  /**
   * A comment section behind any front part: its opening, the comment text
   * and its closing. With escaping on, the text holds no '<', '>' or quote
   * and decodes back to the comment.
   */
  lemma CommentSectionLayout(front: string, comment: string, escape: bool)
    ensures ClosesWithComment(front + CommentSection(comment, escape), ShownComment(comment, escape))
    ensures escape ==> UnescapeHtml(ShownComment(comment, escape)) == comment
    ensures escape ==> var t := ShownComment(comment, escape);
                       '<' !in t && '>' !in t && '"' !in t && '\'' !in t
  {
    var t := ShownComment(comment, escape);
    assert front + CommentSection(comment, escape) == front + CommentOpen + t + CommentClose;
    CommentSlices(front, t);
    if escape {
      UnescapeEscape(comment);
    }
  }

  /**
   * The report closes with the Comments section: escaped in tmp.js, so that
   * the comment cannot add markup and decodes back to the cell's text;
   * verbatim in gradeReporter.js.
   */
  lemma ReportClosesWithComment(subject: string, info: StudentInfo, subH: seq<string>,
                                subB: seq<string>, escape: bool)
    ensures ClosesWithComment(GradeReport(subject, info, subH, subB, escape),
                              ShownComment(info.comment, escape))
    ensures !escape ==> ShownComment(info.comment, escape) == info.comment
    ensures escape ==> UnescapeHtml(ShownComment(info.comment, escape)) == info.comment
    ensures escape ==> var t := ShownComment(info.comment, escape);
                       '<' !in t && '>' !in t && '"' !in t && '\'' !in t
  {
    var front := ResultsSection(subject, info)
                 + BreakdownSection(Row("th", Shown(subH)), Row("td", Shown(subB)));
    CommentSectionLayout(front, info.comment, escape);
  }
}
