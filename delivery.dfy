/**
 * Delivery: sendGrades with its two prompt validators, showPromptAllStudent
 * and showPromptSingleStudent, and sendEmail. The mail transport is an
 * outbox: every GmailApp.sendEmail call appends one Email.
 */
module Delivery {
  import opened Wrappers
  import opened Dialogs
  import opened Sheets
  import opened Addressing
  import opened Settings
  import opened Report

  /** `stats`: the trailing mean/mode/min/max rows are not students. */
  const StatsRows := 4
  const Course := "COMP 4610"
  /** obj.replyTo, trailing space included. */
  const ReplyTo := "wzhou@cs.uml.edu "
  /** obj.debugEmail: the debug recipient, fixed in the code. */
  const DebugRecipient := "jose.flores.152@gmail.com"

  /** getFirstWrittenRow('A'): the column scanned for the header row. */
  const HeaderColumn := 1

  // The cRanges column letters as column numbers.
  const LastNameColumn := 1   // A
  const FirstNameColumn := 2  // B
  const EmailColumn := 4      // D
  const GradeColumn := 6      // F
  const CommentColumn := 7    // G
  const SubGradeStart := 8    // H

  datatype Email = Email(to: string, subject: string, htmlBody: string, replyTo: string)

  /** The fields of the script's `obj` that sendEmail and makeGradeTable read. */
  datatype Context = Context(
    header: int,          // cRanges.header
    subGradeEnd: int,     // the column named by cRanges.subGrade[1]
    first: int,           // cRanges.student[0]
    last: int,            // cRanges.student[1]
    assignment: string,   // the sheet's name
    debug: Option<string>, // getProperty(g_debug_key)
    escape: bool)         // tmp.js escapes the comment

  /** `obj` as sendGrades builds it once the header row is known. */
  function MakeContext(sheet: Sheet, props: map<string, string>, rev: Revision, header: int): Context
  {
    Context(header, ColumnIndex(ColumnLetters(LastColumn(sheet))), header + 1,
            LastRow(sheet) - StatsRows, sheet.name, Get(props, DebugKey), rev == TmpJs)
  }

  /** subjectHeading: course + ' - ' + assignment. */
  function Subject(ctx: Context): string
  {
    Course + " - " + ctx.assignment
  }

  /** True when debug mode redirects mail: the stored flag is exactly 'true'. */
  predicate DebugOn(ctx: Context)
  {
    ctx.debug == Some("true")
  }

  /** The five cell reads of makeGradeTable's forEach, for one row. */
  function ReadInfo(sheet: Sheet, row: int): StudentInfo
  {
    StudentInfo(Cell(sheet, row, LastNameColumn), Cell(sheet, row, FirstNameColumn),
                Cell(sheet, row, EmailColumn), Cell(sheet, row, GradeColumn),
                Cell(sheet, row, CommentColumn))
  }

  /** The mail sendEmail sends for a row. */
  function MailFor(sheet: Sheet, ctx: Context, row: int): Email
  {
    var subject := Subject(ctx);
    Email(if DebugOn(ctx) then DebugRecipient else Cell(sheet, row, EmailColumn),
          subject,
          GradeReport(subject, ReadInfo(sheet, row),
                      RangeValues(sheet, ctx.header, SubGradeStart, ctx.subGradeEnd),
                      RangeValues(sheet, row, SubGradeStart, ctx.subGradeEnd),
                      ctx.escape),
          ReplyTo)
  }

  /** sendEmail for one row. */
  method SendEmail(sheet: Sheet, ctx: Context, row: int) returns (mail: Email)
    ensures mail == MailFor(sheet, ctx, row)
  {
    var to := if ctx.debug == Some("true") then DebugRecipient else Cell(sheet, row, EmailColumn);
    var subjectHeading := Course + " - " + ctx.assignment;
    var info := ReadInfo(sheet, row);
    var subH := RangeValues(sheet, ctx.header, SubGradeStart, ctx.subGradeEnd);
    var subB := RangeValues(sheet, row, SubGradeStart, ctx.subGradeEnd);
    var body := MakeGradeTable(subjectHeading, info, subH, subB, ctx.escape);
    mail := Email(to, subjectHeading, body, ReplyTo);
  }

  // ---- the row prompt -----------------------------------------------------

  predicate IsDigits(s: string)
  {
    forall k :: 0 <= k < |s| ==> '0' <= s[k] <= '9'
  }

  /** The number a digit string denotes (parseInt on such text). */
  function DecimalValue(s: string): nat
    requires IsDigits(s)
  {
    if |s| == 0 then 0
    else 10 * DecimalValue(s[..|s| - 1]) + (s[|s| - 1] as int - '0' as int)
  }

  /** The usual decimal numeral of n. */
  function DecimalString(n: nat): (s: string)
    ensures IsDigits(s) && |s| > 0
  {
    if n < 10 then [('0' as int + n) as char]
    else DecimalString(n / 10) + [('0' as int + n % 10) as char]
  }

  /** Every number is read back from its own numeral. */
  lemma {:induction false} DecimalRoundTrip(n: nat)
    ensures DecimalValue(DecimalString(n)) == n
  {
    if n >= 10 {
      var s := DecimalString(n);
      assert s[..|s| - 1] == DecimalString(n / 10);
      DecimalRoundTrip(n / 10);
    }
  }

  /**
   * showPromptSingleStudent: the row typed, when OK was pressed and the text
   * is a nonzero number between the first and last student rows; otherwise
   * None (`undefined`). Only digit text is read as a number.
   */
  function SelectedRow(reply: Reply, first: int, last: int): (r: Option<int>)
    ensures r.Some? <==> reply.button == Ok && IsDigits(reply.text)
                         && DecimalValue(reply.text) != 0
                         && first <= DecimalValue(reply.text) <= last
    ensures r.Some? ==> r.value == DecimalValue(reply.text)
  {
    if reply.button == Ok then
      if IsDigits(reply.text) && DecimalValue(reply.text) != 0
         && DecimalValue(reply.text) >= first && DecimalValue(reply.text) <= last
      then Some(DecimalValue(reply.text))
      else None
    else None
  }

  /** A digit string that denotes 0 is all zeros. */
  lemma {:induction false} ZeroDigits(s: string)
    requires IsDigits(s) && DecimalValue(s) == 0
    ensures forall k :: 0 <= k < |s| ==> s[k] == '0'
  {
    if |s| > 0 {
      var init := s[..|s| - 1];
      assert IsDigits(init) by {
        forall k | 0 <= k < |init| ensures '0' <= init[k] <= '9' {
          assert init[k] == s[k];
        }
      }
      ZeroDigits(init);
      assert forall k :: 0 <= k < |init| ==> s[k] == init[k];
    }
  }

  /** A digit string denoting a positive number is that number's numeral behind zeros. */
  lemma {:induction false} DigitsDenote(s: string)
    requires IsDigits(s) && DecimalValue(s) >= 1
    ensures exists z :: (forall k :: 0 <= k < |z| ==> z[k] == '0')
                        && s == z + DecimalString(DecimalValue(s))
  {
    var n := DecimalValue(s);
    var init, c := s[..|s| - 1], s[|s| - 1];
    assert s == init + [c];
    assert IsDigits(init) by {
      forall k | 0 <= k < |init| ensures '0' <= init[k] <= '9' {
        assert init[k] == s[k];
      }
    }
    var v := DecimalValue(init);
    assert n == 10 * v + (c as int - '0' as int);
    if n < 10 {
      assert v == 0;
      ZeroDigits(init);
      assert DecimalString(n) == [c];
      assert s == init + DecimalString(n);
    } else {
      assert v == n / 10 && c == ('0' as int + n % 10) as char;
      DigitsDenote(init);
      var z :| (forall k :: 0 <= k < |z| ==> z[k] == '0') && init == z + DecimalString(v);
      assert DecimalString(n) == DecimalString(v) + [c];
      assert s == z + DecimalString(n);
    }
  }

  /**
   * A row the prompt accepts was typed as its own numeral, possibly behind
   * leading zeros, with OK, and lies between the first and last student rows.
   */
  lemma SelectedRowSound(reply: Reply, first: int, last: int, n: int)
    requires SelectedRow(reply, first, last) == Some(n)
    ensures reply.button == Ok && 1 <= n && first <= n <= last
    ensures exists z :: (forall k :: 0 <= k < |z| ==> z[k] == '0')
                        && reply.text == z + DecimalString(n)
  {
    DigitsDenote(reply.text);
  }

  /** Every student row can be chosen by typing its number. */
  lemma EveryStudentRowSelectable(row: int, first: int, last: int)
    requires 1 <= row && first <= row <= last
    ensures SelectedRow(Reply(Ok, DecimalString(row)), first, last) == Some(row)
  {
    DecimalRoundTrip(row);
  }

  /** showPromptAllStudent: true exactly when YES was pressed. */
  predicate ConfirmAll(reply: Reply)
  {
    reply.button == Yes
  }

  // ---- sendGrades ---------------------------------------------------------

  /** The rows from first to last, in ascending order. */
  function StudentRows(first: int, last: int): (rows: seq<int>)
    ensures |rows| == if first <= last then last - first + 1 else 0
    ensures forall k :: 0 <= k < |rows| ==> rows[k] == first + k
  {
    if first <= last then seq(last - first + 1, k requires 0 <= k <= last - first => first + k) else []
  }

  /** The rows sendGrades mails to, in order, once the interval is known. */
  function PlannedRows(all: bool, reply: Reply, first: int, last: int): seq<int>
  {
    if all then
      if ConfirmAll(reply) then StudentRows(first, last) else []
    else
      match SelectedRow(reply, first, last)
      case Some(r) => [r]
      case None => []
  }

  /** The rows mailed for a sheet: none when column A has no header row. */
  function MailedRows(all: bool, sheet: Sheet, reply: Reply): seq<int>
  {
    match HeaderRow(ColumnValues(sheet, HeaderColumn))
    case None => []
    case Some(h) => PlannedRows(all, reply, h + 1, LastRow(sheet) - StatsRows)
  }

  /** The outbox after sendGrades. */
  function Deliveries(all: bool, sheet: Sheet, props: map<string, string>, reply: Reply,
                      rev: Revision): seq<Email>
  {
    match HeaderRow(ColumnValues(sheet, HeaderColumn))
    case None => []
    case Some(h) =>
      var ctx := MakeContext(sheet, props, rev, h);
      var rows := PlannedRows(all, reply, ctx.first, ctx.last);
      Mails(Sender(sheet, ctx), rows)
  }

  /** sendEmail as a function of the row, for one sheet and one `obj`. */
  function Sender(sheet: Sheet, ctx: Context): int -> Email
  {
    row => MailFor(sheet, ctx, row)
  }

  /** send for each of the rows, in order. */
  function Mails(send: int -> Email, rows: seq<int>): seq<Email>
  {
    if |rows| == 0 then [] else Mails(send, rows[..|rows| - 1]) + [send(rows[|rows| - 1])]
  }

  /** One more student row adds one mail at the end. */
  lemma MailsExtend(send: int -> Email, first: int, i: int)
    requires first <= i
    ensures Mails(send, StudentRows(first, i)) == Mails(send, StudentRows(first, i - 1)) + [send(i)]
  {
    var rows := StudentRows(first, i);
    assert rows[..|rows| - 1] == StudentRows(first, i - 1);
  }

  /** Mails pairs the k-th mail with the k-th row. */
  lemma {:induction false} MailsPairRows(send: int -> Email, rows: seq<int>)
    ensures |Mails(send, rows)| == |rows|
    ensures forall k :: 0 <= k < |rows| ==> Mails(send, rows)[k] == send(rows[k])
  {
    if |rows| > 0 {
      MailsPairRows(send, rows[..|rows| - 1]);
    }
  }

  /**
   * sendGrades(all) with the user's answer to its dialog and the store's
   * contents: the mails it sends, in order.
   */
  method SendGrades(all: bool, sheet: Sheet, props: map<string, string>, reply: Reply,
                    rev: Revision) returns (outbox: seq<Email>)
    ensures outbox == Deliveries(all, sheet, props, reply, rev)
  {
    var values := ColumnValues(sheet, HeaderColumn);
    var start := FirstWrittenRow(values);
    if start.None? {
      // getFirstWrittenRow('A') throws before any dialog is shown.
      return [];
    }
    var endLetter := ColumnToLetter(LastColumn(sheet));
    var ctx := Context(start.value, ColumnIndex(endLetter), start.value + 1,
                       LastRow(sheet) - StatsRows, sheet.name, Get(props, DebugKey), rev == TmpJs);
    assert ctx == MakeContext(sheet, props, rev, start.value);
    if all {
      if !ConfirmAll(reply) {
        return [];
      }
      outbox := MailStudents(sheet, ctx);
    } else {
      var row := SelectedRow(reply, ctx.first, ctx.last);
      if row.None? {
        return [];
      }
      var mail := SendEmail(sheet, ctx, row.value);
      assert [row.value][..0] == [];
      assert Sender(sheet, ctx)(row.value) == mail;
      assert Mails(Sender(sheet, ctx), [row.value]) == [mail];
      outbox := [mail];
    }
  }

  /** The for loop of sendGrades(true): sendEmail for each student row in turn. */
  method MailStudents(sheet: Sheet, ctx: Context) returns (outbox: seq<Email>)
    ensures outbox == Mails(Sender(sheet, ctx), StudentRows(ctx.first, ctx.last))
  {
    outbox := [];
    var i := ctx.first;
    while i <= ctx.last
      invariant ctx.first <= i <= (if ctx.first <= ctx.last then ctx.last + 1 else ctx.first)
      invariant outbox == Mails(Sender(sheet, ctx), StudentRows(ctx.first, i - 1))
    {
      var mail := SendEmail(sheet, ctx, i);
      MailsExtend(Sender(sheet, ctx), ctx.first, i);
      outbox := outbox + [mail];
      i := i + 1;
    }
  }

  // ---- properties ---------------------------------------------------------

  /** One mail per mailed row, in the same order. */
  lemma DeliveriesFollowRows(all: bool, sheet: Sheet, props: map<string, string>, reply: Reply,
                             rev: Revision)
    ensures var d := Deliveries(all, sheet, props, reply, rev);
            var rows := MailedRows(all, sheet, reply);
            |d| == |rows|
            && forall k :: 0 <= k < |d| ==>
                 var ctx := MakeContext(sheet, props, rev, HeaderRow(ColumnValues(sheet, HeaderColumn)).value);
                 d[k] == MailFor(sheet, ctx, rows[k])
  {
    match HeaderRow(ColumnValues(sheet, HeaderColumn))
    case None =>
    case Some(h) =>
      var ctx := MakeContext(sheet, props, rev, h);
      MailsPairRows(Sender(sheet, ctx), PlannedRows(all, reply, ctx.first, ctx.last));
  }

  /**
   * After a confirmed "all", every row from header + 1 to lastRow - 4 is
   * mailed once, in ascending order; without YES nothing is sent.
   */
  lemma AllStudentsMailedInOrder(sheet: Sheet, reply: Reply)
    requires HeaderRow(ColumnValues(sheet, HeaderColumn)).Some?
    ensures var h := HeaderRow(ColumnValues(sheet, HeaderColumn)).value;
            var first, last := h + 1, LastRow(sheet) - StatsRows;
            var rows := MailedRows(true, sheet, reply);
            && (reply.button == Yes ==>
                  |rows| == (if first <= last then last - first + 1 else 0)
                  && forall k :: 0 <= k < |rows| ==> rows[k] == first + k)
            && (reply.button != Yes ==> rows == [])
  {
  }

  /**
   * The single-student path mails exactly one row, the one typed, when the
   * prompt accepts it, and nothing otherwise.
   */
  lemma SingleStudentMailedOnce(sheet: Sheet, reply: Reply)
    requires HeaderRow(ColumnValues(sheet, HeaderColumn)).Some?
    ensures var h := HeaderRow(ColumnValues(sheet, HeaderColumn)).value;
            var sel := SelectedRow(reply, h + 1, LastRow(sheet) - StatsRows);
            var rows := MailedRows(false, sheet, reply);
            (sel.Some? ==> rows == [sel.value]) && (sel.None? ==> rows == [])
  {
  }

  /** Without a header row in column A the script stops and sends nothing. */
  lemma NoHeaderNoMail(all: bool, sheet: Sheet, props: map<string, string>, reply: Reply,
                       rev: Revision)
    requires HeaderRow(ColumnValues(sheet, HeaderColumn)).None?
    ensures Deliveries(all, sheet, props, reply, rev) == []
  {
  }

  /**
   * Each mail goes to the fixed debug recipient when the stored flag is
   * 'true' and to column D of its row otherwise; its subject is the course
   * and the sheet name, its body the report of its row's own cells.
   */
  lemma MailAddressing(all: bool, sheet: Sheet, props: map<string, string>, reply: Reply,
                       rev: Revision, k: nat)
    requires k < |Deliveries(all, sheet, props, reply, rev)|
    ensures var d := Deliveries(all, sheet, props, reply, rev)[k];
            var rows := MailedRows(all, sheet, reply);
            && k < |rows|
            && d.to == (if Get(props, DebugKey) == Some("true") then DebugRecipient
                        else Cell(sheet, rows[k], EmailColumn))
            && d.subject == Course + " - " + sheet.name
            && d.replyTo == ReplyTo
            && HeaderRow(ColumnValues(sheet, HeaderColumn)).Some?
            && var header := HeaderRow(ColumnValues(sheet, HeaderColumn)).value;
               var end := ColumnIndex(ColumnLetters(LastColumn(sheet)));
               d.htmlBody == GradeReport(d.subject, ReadInfo(sheet, rows[k]),
                                         RangeValues(sheet, header, SubGradeStart, end),
                                         RangeValues(sheet, rows[k], SubGradeStart, end),
                                         rev == TmpJs)
  {
    DeliveriesFollowRows(all, sheet, props, reply, rev);
  }

  /** Debug mode changes only the recipients: same mails, same order, same bodies. */
  lemma DebugOnlyRedirects(all: bool, sheet: Sheet, props: map<string, string>, reply: Reply,
                           rev: Revision, flag: string)
    ensures var d := Deliveries(all, sheet, props, reply, rev);
            var d' := Deliveries(all, sheet, props[DebugKey := flag], reply, rev);
            |d| == |d'|
            && forall k :: 0 <= k < |d| ==>
                 d[k].subject == d'[k].subject && d[k].htmlBody == d'[k].htmlBody
                 && d[k].replyTo == d'[k].replyTo
  {
    DeliveriesFollowRows(all, sheet, props, reply, rev);
    DeliveriesFollowRows(all, sheet, props[DebugKey := flag], reply, rev);
  }

  /** The debug email stored by changeDebugEmail never reaches delivery. */
  lemma StoredDebugEmailUnused(all: bool, sheet: Sheet, props: map<string, string>, reply: Reply,
                               rev: Revision, email: string)
    ensures Deliveries(all, sheet, props[DebugEmailKey := email], reply, rev)
            == Deliveries(all, sheet, props, reply, rev)
  {
    assert Get(props[DebugEmailKey := email], DebugKey) == Get(props, DebugKey);
  }

  /**
   * The sub-grade range ends at the column named by columnToLetter's
   * letters: the last column up to 27, but 27 times the letter's number
   * from 28 to 52, past the end of the sheet.
   */
  lemma SubGradeRangeEnd(sheet: Sheet, props: map<string, string>, rev: Revision, h: int)
    requires 1 <= LastColumn(sheet) <= 52
    ensures MakeContext(sheet, props, rev, h).subGradeEnd
            == if LastColumn(sheet) <= 27 then LastColumn(sheet) else 27 * (LastColumn(sheet) - 26)
  {
    var c := LastColumn(sheet);
    ColumnLettersRoundTrip(c);
    if c > 27 {
      ColumnLettersDouble(c);
      var l := (38 + c) as char;
      assert [l, l][..1] == [l];
      assert [l][..0] == [];
      assert ColumnIndex([l]) == c - 26;
    }
  }
}
