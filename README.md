# Grade reporter, modelled in Dafny

This project models the core of a Google Apps Script add-on. The add-on e-mails every student the row of a grade spreadsheet that belongs to them, as an HTML report. The model covers the two revisions of the script, `tmp.js` and `gradeReporter.js`. They differ in two places that the model covers, and `Settings.Revision` selects between them. Their menus (`loadMenu`, not modelled) differ too.
- the default debug address: the active user's address in `tmp.js`, a constant in `gradeReporter.js`;
- the comment: HTML-escaped in `tmp.js`, copied verbatim in `gradeReporter.js`.

Modules, following the script's parts:
- `Sheets`: the spreadsheet as the script reads it. A named grid of the values `getValue()` returns, each taken to be a string; a cell outside the grid reads "".
- `Addressing`:
  - `columnToLetter`. It is a `method` with its loop; `col` is an exact rational in place of JavaScript's double.
  - `getFirstWrittenRow`. It is a `method` with its scan loop; `None` stands for the TypeError thrown when the scan runs off the column.
- `HtmlEscape`: `escapeHtml`, with a decoder of the five entities as its inverse.
- `EmailSyntax`: the regular expression of `validateEmail`, as mutually recursive recognisers for its parts.
- `Settings`: the user property store. It is a class over a `map`; its methods are specified by the pure functions `WithDefaults`, `AfterReset` and `AfterEmailChange`.
- `Report`:
  - `makeGradeTable` is a `method` with its loop over the sub-grade columns.
  - It is proved equal to the function `GradeReport`, whose layout the lemmas describe.
- `Delivery`:
  - `sendGrades` and `sendEmail`, and the two prompt validators.
  - Sending a mail appends an `Email` record to an outbox.
  - `SendGrades` is proved equal to the function `Deliveries`.

The model keeps four behaviours as they are written in the code. A plain description of the add-on suggests otherwise for each:
- `columnToLetter` is not the usual column naming. It computes `(col - 1) % 26` once and writes that letter once per iteration. Column 28 gives "BB" and column 53 gives "AAA". So for a sheet of 28 to 52 columns the sub-grade range ends at column 27 × (lastColumn − 26), past the sheet's last column.
- The breakdown loop starts at `i = 1` but runs while `i < getNumColumns()`. So it shows every sub-grade column but the last.
- The grade cell is printed as read, followed by '%'. It is not rounded to two decimals.
- Debug mode sends every mail to the address fixed in the code (`obj.debugEmail`). It never uses the debug address stored by `changeDebugEmail`.

## Model

| member | source | states |
|---|---|---|
| Sheets.Cell | tmp.js:141-145 | a cell outside the sheet's rows reads as the empty string |
| Sheets.LastColumn | tmp.js:201 | `getLastColumn` is at least the width of every row |
| Sheets.LastColumnAttained | tmp.js:201 | the bound is reached: `getLastColumn` is the width of some row, and 0 for an empty grid |
| Sheets.ColumnValues | tmp.js:165-167 | `getRange('A:A').getValues()` yields one value per row, the cell of that row in the column |
| Sheets.RangeValues | tmp.js:278-282 | a one-row range between two columns has one value per column, from the lower column on, in order |
| Addressing.JsRemainder | tmp.js:177 | JavaScript's `%` lies strictly between −26 and 26, agrees with the mathematical remainder for a non-negative dividend, and for a negative dividend is a non-positive remainder, taking the dividend's sign |
| Addressing.NextColShrinks | tmp.js:177 | each loop update `col = (col - i - 1) / 26` lowers the integer part of a positive `col`, so the loop ends |
| Addressing.ColumnToLetter | tmp.js:174-181 | the loop's result is `ColumnLetters(col)`; "" for col < 1; every letter is `(col - 1) % 26 + 65` |
| Addressing.ColumnLettersSingle | tmp.js:174-181 | columns 1 to 26 give their single letter A to Z |
| Addressing.ColumnLettersDouble | tmp.js:174-181 | columns 27 to 52 give the same letter twice (28 = "BB") |
| Addressing.ColumnLetters53 | tmp.js:174-181 | column 53 gives "AAA", a third iteration kept alive by the fraction |
| Addressing.ColumnLettersRoundTrip | tmp.js:174-181 | for columns 1 to 52, reading the letters back as an A1 column (`Sheets.ColumnIndex`, bijective base 26, as `getRange` reads them) gives the column iff col ≤ 27 |
| Addressing.HeaderRowFrom | tmp.js:169 | the scan finds a row iff a non-empty value lies ahead; that row holds a value and every row scanned before it is empty |
| Addressing.HeaderRowFromReadsSuffix | tmp.js:169 | the scan from index i depends only on the values from index i on |
| Addressing.HeaderRowSkipsRowOne | tmp.js:169 | the header row does not depend on row 1, which is never inspected |
| Addressing.FirstWrittenRow | tmp.js:164-172 | the loop returns `HeaderRow(values)`: the first non-empty row from row 2, or `None` where the script throws |
| HtmlEscape.Entity | tmp.js:372-378 | each of the five characters maps to an entity starting with '&' that has no other '&' and none of `< > " '`; any other character stands for itself |
| HtmlEscape.EscapeHtml | tmp.js:371-384 | the output holds none of `<`, `>`, `"`, `'` and is at least as long as the input |
| HtmlEscape.DecodeEntity | tmp.js:372-383 | the front of an escaped character decodes to that character and takes the entity's length |
| HtmlEscape.UnescapeEntity | tmp.js:380-383 | decoding removes one character's entity from the front of the output |
| HtmlEscape.UnescapeEscape | tmp.js:380-383 | decoding the output gives back the input; nothing is escaped twice |
| HtmlEscape.EscapeHtmlInjective | tmp.js:371-384 | different texts escape to different outputs |
| HtmlEscape.AmpersandStartsEntity | tmp.js:372-383 | every '&' in the output starts one of the five entities |
| HtmlEscape.EscapeHtmlPlainText | tmp.js:380-383 | text without the five characters is returned unchanged |
| HtmlEscape.EntityLength | tmp.js:372-378 | an entity is one character plus 4 for '&', 3 for '<' or '>', 5 for '"' or '\'' |
| HtmlEscape.EscapeHtmlLength | tmp.js:371-384 | output length = input length + 4·#'&' + 3·#'<' + 3·#'>' + 5·#'"' + 5·#'\'' |
| HtmlEscape.EscapeHtmlExample | tmp.js:380-383 | "&lt;" escapes to "&amp;lt;": an entity already in the text has its '&' escaped once |
| EmailSyntax.SplitFrom | tmp.js:103-104 | trying each '@' from index k, as the anchored pattern backtracks, succeeds iff some '@' from k on splits the text into a local part and a domain |
| EmailSyntax.AtomRestShape | tmp.js:103 | the rest of a dot atom matches iff it is atom characters and single dots, not ending in a dot |
| EmailSyntax.DotAtomIff | tmp.js:103 | `[^…]+(\.[^…]+)*` matches exactly the non-empty atom-character texts with no leading, trailing or doubled dot |
| EmailSyntax.HostNameHasNoAtHasDot | tmp.js:103 | a host name holds a dot and no '@' |
| EmailSyntax.LabelRestHasNoAtHasDot | tmp.js:103 | the rest of a host name after its first character holds a dot and no '@' |
| EmailSyntax.GroupOfHasNoAt | tmp.js:103 | the digit groups of an address literal hold no '@' |
| EmailSyntax.DigitGroupsHaveNoAt | tmp.js:103 | the digit groups of an address literal hold no '@' |
| EmailSyntax.DomainShape | tmp.js:103 | every domain the pattern accepts holds a dot and no '@' |
| EmailSyntax.ValidateEmailMatches | tmp.js:101-105 | `validateEmail` (`ValidateEmail`, the anchored pattern as recognisers) accepts iff some '@' splits the text into local part and domain, and that '@' is the last one |
| EmailSyntax.AcceptsDottedLocalPart | tmp.js:101-105 | "a.b@example.com" is accepted |
| EmailSyntax.ExampleHostName | tmp.js:103 | "example.com" matches the host-name alternative |
| EmailSyntax.AcceptsAddressLiteral | tmp.js:101-105 | "x@[10.0.0.1]" is accepted |
| EmailSyntax.ExampleIpLiteral | tmp.js:103 | "[10.0.0.1]" matches the bracketed four-group alternative |
| EmailSyntax.RejectsDotlessDomain | tmp.js:101-105 | "a@b" is rejected: its domain has no dot |
| EmailSyntax.RejectsMissingAt | tmp.js:101-105 | "not-an-email" is rejected: it has no '@' |
| Settings.ResetDependsOnUser | gradeReporter.js:45-59 | resetDebug's result depends on the active user iff the revision is tmp.js (tmp.js:55-73); gradeReporter.js always restores the constant `g_debugEmail_val` |
| Settings.WithDefaults | tmp.js:55-63 | `setDefaults` adds the two keys when absent (email ← default address, debug ← 'false') and keeps every present key |
| Settings.WithDefaultsIdempotent | tmp.js:55-63 | a second `setDefaults` changes nothing |
| Settings.AfterReset | tmp.js:68-73 | after `resetDebug` the flag is 'false' and the email the default address, whatever they held; other keys are kept |
| Settings.ResetForgetsSettings | tmp.js:68-73 | the state after `resetDebug` does not depend on the two settings before it |
| Settings.AfterEmailChange | tmp.js:120-131 | the email key becomes the entered text iff OK was pressed and the text is valid; otherwise the store is unchanged; other keys are always kept |
| Settings.UserProperties.constructor | tmp.js:14 | the store starts with the given properties |
| Settings.UserProperties.SetDefaults | tmp.js:55-63 | the store becomes `WithDefaults` of the old store, with `DefaultDebugEmail` as the address (the active user's in tmp.js, `g_debugEmail_val` in gradeReporter.js), and both keys are present |
| Settings.UserProperties.ResetDebug | tmp.js:68-73 | the store becomes `AfterReset` of the old store: flag 'false', email the default address |
| Settings.UserProperties.TurnOnDebug | tmp.js:78-81 | only `g_debug` changes, to 'true' |
| Settings.UserProperties.TurnOffDebug | tmp.js:85-88 | only `g_debug` changes, to 'false' |
| Settings.UserProperties.ChangeDebugEmail | tmp.js:93-132 | the store becomes `AfterEmailChange`; the result is the stored address iff OK and valid, else `undefined` |
| Report.MakeGradeTable | tmp.js:252-303 | the loop's result is `GradeReport`: the Results table, the breakdown of all sub-grade columns but the last, and the comment |
| Report.RowConcat | tmp.js:284-287 | the cells of two column runs, concatenated, are the cells of the joint run |
| Report.BreakdownPairsColumns | tmp.js:284-287 | for every shown column k, the k-th header label and the k-th value sit at the same position in their rows |
| Report.ReportIgnoresLastColumn | tmp.js:284 | the values of the range's last column never affect the report, and the breakdown of a range one column wider shows exactly the old columns |
| Report.ReportOpensWithResults | tmp.js:270-276 | the report opens with the subject heading and the Results table: "last, first", the email, the grade as read followed by '%' |
| Report.CommentSectionLayout | tmp.js:299-300 | the comment section sits at the end of any text before it; when escaped, its text holds no markup and decodes to the comment |
| Report.ReportClosesWithComment | gradeReporter.js:262-265 | the report ends with the Comments section: escaped in tmp.js, so it adds no markup and decodes to the cell; verbatim in gradeReporter.js |
| Delivery.SendEmail | tmp.js:236-246 | the mail sent for a row is `MailFor` that row: recipient, subject, report body, reply-to |
| Delivery.DecimalString | tmp.js:317 | a number's numeral is a non-empty digit string |
| Delivery.DecimalRoundTrip | tmp.js:317 | `DecimalValue`, `parseInt` on digit text, reads every number back from its own numeral |
| Delivery.ZeroDigits | tmp.js:317 | a digit text that denotes 0 is all zeros |
| Delivery.DigitsDenote | tmp.js:317 | a digit text that denotes a positive number is that number's numeral behind leading zeros |
| Delivery.SelectedRowSound | tmp.js:308-330 | a row the prompt accepts was entered with OK, is at least 1, lies between the first and last student rows, and was typed as its own numeral behind leading zeros |
| Delivery.EveryStudentRowSelectable | tmp.js:317-319 | typing any student row's number selects exactly that row |
| Delivery.StudentRows | tmp.js:219 | the rows first..last, ascending, one each; none when the interval is empty |
| Delivery.MailsExtend | tmp.js:219-222 | one more loop iteration appends the mail of the next row |
| Delivery.MailsPairRows | tmp.js:219-222 | the k-th mail is the mail of the k-th row |
| Delivery.SendGrades | tmp.js:188-231 | the outbox after `sendGrades` equals `Deliveries` |
| Delivery.MailStudents | tmp.js:219-222 | the loop sends the mails of rows first..last in order |
| Delivery.DeliveriesFollowRows | tmp.js:213-230 | one mail per mailed row, in the same order, each the row's `MailFor` |
| Delivery.AllStudentsMailedInOrder | tmp.js:202-222 | after YES to `showPromptAllStudent` (tmp.js:335-346), the rows mailed are exactly header+1 .. lastRow−4 (`MakeContext`, with `LastRow` for `getLastRow`) in ascending order; any other answer sends nothing |
| Delivery.SingleStudentMailedOnce | tmp.js:223-230 | the single path mails exactly the typed row when the prompt accepts it, and nothing otherwise |
| Delivery.NoHeaderNoMail | tmp.js:169-171 | without a header row in column A nothing is sent |
| Delivery.MailAddressing | tmp.js:238-245 | each mail goes to `obj.debugEmail` iff the stored `g_debug` (read once into `obj`, tmp.js:210) is exactly 'true', else to column D of its row; subject course + ' - ' + sheet name; reply-to fixed; body the report of the header row's and its own row's cells |
| Delivery.DebugOnlyRedirects | tmp.js:238-245 | changing the debug flag changes no subject, body or reply-to and not the number of mails |
| Delivery.StoredDebugEmailUnused | tmp.js:209 | the stored debug email has no effect on delivery |
| Delivery.SubGradeRangeEnd | tmp.js:201 | the sub-grade range, as `getRange` reads columnToLetter's letters, ends at the last column up to 27, and at 27 × (lastColumn − 26) from 28 to 52 |

## Left out

- Dialogs: `ui.prompt` and `ui.alert` become a `Reply` parameter. The confirmation dialogs shown by `success` and `fail` are not modelled. Neither are the lName/fName cell reads made only for the single-student dialog.
- `onOpen` and `loadMenu`: menu building is UI only. The model keeps the store that `loadMenu` reads.
- `GmailApp.sendEmail` becomes an appended `Email` record, and `Session.getActiveUser().getEmail()` becomes a parameter. Mail delivery and its failures are not modelled.
- Sheets: every cell's `getValue()` is taken to be a string; numbers, booleans and dates are not modelled. `getRange` with its end column before its start is taken to cover the same cells as the range written the other way round. `getRange('A:A')` is taken to cover the data rows; the rows below are empty and do not change the scan's result.
- Addressing.HeaderRow: the script's test `values[i][0] == ''` also holds for a numeric 0 or a `false` checkbox, so the script skips such a row in column A. The model, with string cells, stops at the cell "0".
- Report.ShownComment: the script's `escapeHtml(info.comment)` throws a TypeError when the comment cell holds a number or a date. The model, with string cells, never throws, so the stop of `sendGrades(true)`'s loop at such a row is not modelled.
- Sheets.LastRow: `LastRow` and `LastColumn` stand for `getLastRow` and `getLastColumn` only when the grid is exactly the sheet's data range. Nothing in the model enforces that: a grid with trailing empty rows would make the delivery lemmas mail rows the script does not.
- Sheets.Cell: the model assumes the sheet's grid is at least as wide as the column the sub-grade range names. That column is 27 × (lastColumn − 26) for 28 to 52 columns, and further out beyond 52 (53 columns name "AAA", column 703). On a narrower grid `getRange` fails, so `makeGradeTable` throws at the first student and nothing is mailed. That failure is not modelled: inside the assumed grid, cells past the data read as "".
- Delivery.SelectedRow: only text made of decimal digits counts as a number. JavaScript also accepts text that `parseInt` and the `>=` coercion both read as numbers, such as " 12" or "12.0", and the model rejects those.
- Delivery.SelectedRow: the typed text is used as a row number by its value. A numeral with leading zeros is passed to the A1 addresses as typed.
- HtmlEscape: strings are sequences of code points, so surrogate pairs are not modelled. The escaper never splits them.
- EmailSyntax: `\s` is the ECMAScript whitespace and line-terminator set, and `.` excludes the line terminators. The regex engine's backtracking is modelled only by its result.
- Addressing.ColumnToLetter: the original's `col` is a double. The model uses exact rationals, so that rounding is not modelled; `getLastColumn` returns integers well inside the exact range.
- `sendGradesAll` and `sendGradesSelect` only call `sendGrades(true)` and `sendGrades(false)`.
