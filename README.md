# Violation fines: accrual, settlement and the spreadsheet mirror

This project models the money logic of a class-discipline web application. Each
violation record (student, school week, violation code, date) carries a fine. A
student's fines are settled in one payment, and every change is mirrored into a
spreadsheet workbook that keeps one sheet per violation kind.

The modules follow the program's structure:

- `Wrappers`: the `Option` type.
- `Strings`: Python's whitespace `split`, `strip` and `join`. Also the name
  normalisation `' '.join(p.capitalize() for p in s.split())` used wherever a student
  name is compared, and Python's code-point order on `str` with `sorted(set(...))`.
- `Numerals`: `str(n)`, `int(s)` and the mirror's amount reader, which drops `.` and
  `,` before `int`. Also the dotted thousands rendering behind `format_currency`, and
  the transfer description built by `generate_payment_message`.
- `Calendar`: `datetime.date` with its ordering, `toordinal` and `strftime`, and
  `compute_custom_week`. That is the school-week count from Monday 8 September 2025,
  with the break from 15 to 28 February 2026 skipped.
- `Accrual`: the dynamic penalty, i.e. the fine a record owes given all the records.
  - Records are grouped by (student, week, code), and each group is sorted by (date, id).
  - For VP01 and VP06 the record at zero-based position *i* owes the code's default
    plus 10000 × *i*. Every other code owes its default.
  - The specification is declarative: the position of a record is the number of group
    members whose (date, id) sorts before it.
  - `ComputeDynamicDue` is the group / sort / enumerate loop the pages run. It is
    proved to fill exactly that map, one entry per record.
  - The module also holds the prospective amount proposed when a violation is added,
    and the code-to-sheet map.
- `Mirror`: a sheet is a sequence of rows of abstract cells, and a row is a data row
  when its column A reads as an integer. The `Workbook` class holds the sheets by name
  and has four methods:
  - append a violation, numbered one past the largest sequence number;
  - settle every owed row of a student in place;
  - delete the first row matching a record;
  - read the class roster (`DS_LOP`).
- `Store`: the `InfractionStore` class holds the violation records and the payment
  ledger.
  - `PaySummary` computes the pay page's total and codes.
  - `ConfirmPayment` settles the student's owed records through `MarkPaid`, whose loop
    (`SettleRecords`) builds the settled records before they are written back. It then
    adds a ledger row and settles the mirror.
  - `AddViolation` records a new violation and appends it to the mirror.

Inputs that the program reads from its environment are parameters here:

- "today" for the database, and a separate "today" for the mirror, which reads its
  own clock;
- the table of default amounts;
- the fresh record id;
- the current user's id.

Where the code and its comments disagree, the model follows the code:

- `format_currency`'s comment shows `10,000 VND`, but the code replaces the comma with
  a dot, giving `10.000 VND` (`Numerals.FormatCurrencyExample`).
- An escalating code (VP01, VP06) that is missing from the defaults table still
  escalates from 0. Its record at position *i* owes 10000 × *i*, not 0
  (`Accrual.GroupDues` states the general rule with `Base`).
- The stored `amount_due` of a record added with an earlier date than existing members
  of its group overstates its dynamic due (`Accrual.BackdatedOverstates`). The pages
  recompute, and settlement pays the dynamic due.
- The mirror's settle step compares each row's normalised name with the student name
  as given, which is not normalised. A name that is not in normal form matches no row
  (`Mirror.SettleNeedsNormalName`).

## Model

| member | source | states |
|---|---|---|
| Store.UnpaidAmount | violation_web/app.py:136-137 | the stored amount still owed is never negative; it is at least due − paid and equals either 0 or due − paid |
| Store.Outstanding | violation_web/app.py:722-727 | the outstanding amount under the dynamic due is never negative; it is at least due − paid and equals either 0 or due − paid |
| Accrual.ComputeDynamicDue | violation_web/app.py:436-447 | the group/sort/enumerate loops produce exactly one entry per record id, each equal to the declarative dynamic due, so the `.get(id, amount_due)` fallback is never taken |
| Accrual.GroupByKey | violation_web/app.py:436-438 | the grouping loop maps each (student, week, code) key present to its members in input order, and holds no other key |
| Accrual.NumberGroup | violation_web/app.py:442-447 | the enumerate loop over one sorted group gives every member its dynamic due and leaves other entries as they were |
| Accrual.SortByDateId | violation_web/app.py:440 | `sorted` by (date, id) returns a permutation of the group that is strictly increasing in (date, id) |
| Accrual.Insert | violation_web/app.py:440 | inserting into a sorted run keeps it sorted and adds exactly the new record |
| Accrual.BeforeOrder | violation_web/app.py:440 | the (date, id) key order is irreflexive, asymmetric and transitive, and total on records with distinct ids |
| Accrual.PositionInSortedGroup | violation_web/app.py:440-442 | the enumerate index of a record in its sorted group is its declarative position |
| Accrual.SortedGroup | violation_web/app.py:436-440 | the sorted group of a key has exactly the records with that key, in strictly increasing (date, id) order |
| Accrual.GroupDues | violation_web/app.py:440-446 | the record at index i of a sorted group owes default + 10000·i for VP01/VP06, so consecutive members differ by exactly 10000; any other code owes its default, or 0 without one, whatever the group |
| Accrual.DueGrowsWithinGroup | violation_web/app.py:443-444 | within a VP01/VP06 group a later record owes at least 10000 more than an earlier one |
| Accrual.DueIgnoresPayments | violation_web/app.py:958-968 | the dynamic due depends only on ids, dates, students, weeks, codes and defaults, never on paid amounts or payment dates |
| Accrual.GroupClosedViewAgrees | violation_web/app.py:512-525 | any sub-collection holding a record's whole group gives it the same dynamic due as the full collection |
| Accrual.StudentWeek | violation_web/app.py:505-514 | the current-week view of one student keeps exactly that student's records of that week |
| Accrual.WeeklyViewAgrees | violation_web/app.py:512-525 | the per-student, per-week recomputation gives every record the same dynamic due as the global one |
| Accrual.SheetFor | violation_web/app.py:1210-1219 | a code has a sheet name exactly when it is one of VP01–VP06; any other code maps to the empty name |
| Accrual.ProspectiveAmount | violation_web/app.py:1234-1248 | a non-escalating code is proposed its default (0 without one); an escalating code is proposed at least its default |
| Accrual.ProspectiveMatchesDue | violation_web/app.py:1238-1248 | default + 10000 × prior count equals the dynamic due the new record gets once stored, when it sorts after every member of its group |
| Accrual.BackdatedOverstates | violation_web/app.py:1238-1248 | for a back-dated VP01/VP06 record the proposed amount exceeds its dynamic due by at least 10000 |
| Accrual.CustomAmount | violation_web/app.py:1222-1228 | a custom amount that parses is never negative |
| Accrual.CustomAmountOfDisplayed | violation_web/app.py:1222-1228 | an amount typed as it is displayed (dot-grouped) is read back as the same number |
| Accrual.NewAmountOfDisplayed | violation_web/app.py:1220-1228 | an amount typed as it is displayed is stored as exactly that amount |
| Accrual.NewAmountIsDue | violation_web/app.py:1220-1248 | with no custom amount, a new violation that sorts after every record of its group is stored with the dynamic due it then has |
| Store.PreviewAmount | violation_web/app.py:1457-1482 | the amount preview is 0 when the student, date or code is missing; otherwise it is the prospective amount for the date's custom week |
| Store.PreviewMatchesDue | violation_web/app.py:1457-1482 | the preview equals the dynamic due the violation gets once stored, when it sorts after every record of its group |
| Store.OptionalTextStable | violation_web/app.py:1194-1197 | a stored reason or note has no whitespace at either end and is stored unchanged when submitted again; a field is stored as nothing exactly when it is all whitespace |
| Store.OwedTotal | violation_web/app.py:969-975 | the sum of the positive outstanding amounts of a student's records is never negative |
| Store.OwedTotalPositive | violation_web/app.py:969-981 | the total is positive exactly when some record of the student has positive outstanding |
| Store.OwedCodesEmpty | violation_web/app.py:969-982 | the code set is empty exactly when the total is 0 |
| Store.SettleChangesOnlyOwed | violation_web/app.py:969-979 | settlement sets paid := dynamic due and payment date := today on the student's records with positive outstanding, and leaves every other record unchanged; no id, student, week, code or date changes |
| Store.SettleKeepsDue | violation_web/app.py:958-979 | every record's dynamic due is the same after settlement |
| Store.SettleClears | violation_web/app.py:969-979 | after settlement the student owes nothing on any record, and every other student's outstanding amounts are as before |
| Store.SettleIdempotent | violation_web/app.py:969-981 | a second settlement (on any day) finds a total of 0 and changes nothing |
| Store.SettlePaysTotal | violation_web/app.py:969-977 | settlement raises the sum of paid amounts by exactly the total that was owed |
| Store.InfractionStore.PaySummary | violation_web/app.py:884-893 | the pay page total is the sum of the student's positive outstandings, and is positive exactly when one is owed; the codes are the sorted set of codes owed; the message is built from them |
| Store.InfractionStore.ConfirmPayment | violation_web/app.py:969-1004 | records become the settlement of the old records; with a positive total, exactly one ledger row (user, total, sorted codes joined by ", ", message, today) is added and the mirror is settled for the student; otherwise (the "nothing to pay" outcome) the ledger and mirror are unchanged; an empty student name changes nothing |
| Store.InfractionStore.MarkPaid | violation_web/app.py:969-980 | the record loop turns the records into their settled form, returns the total and codes of what it paid, and flags an update exactly when the total is positive; the ledger is untouched |
| Store.SettleRecords | violation_web/app.py:967-979 | the loop over the records yields the settlement of the records, pays exactly the total owed, collects exactly the owed codes, and reports an update exactly when the total is positive |
| Store.SumOwed | violation_web/app.py:884-890 | the pay page's loop sums exactly the student's positive dynamic outstanding amounts and collects exactly the codes of those records |
| Store.InfractionStore.AddViolation | violation_web/app.py:1190-1270 | with a student and a code, one record is appended with its custom week, the sheet of its code, the custom or prospective amount, nothing paid and optional reason/notes, and the mirror gets its row; without them nothing changes; the stored amount equals the amount preview and, for a record sorting last in its group, its dynamic due |
| Strings.Words | violation_web/utils.py:119 | `split()` yields only non-empty tokens free of whitespace |
| Strings.Strip | violation_web/utils.py:155 | `strip()` leaves no whitespace at either end and returns a string without end whitespace unchanged |
| Strings.NormalizeNameIdempotent | violation_web/utils.py:459 | normalising a name twice is normalising it once |
| Strings.NormalizeNameWellSpaced | violation_web/utils.py:155 | a normalised name has no leading, trailing or doubled space and no other whitespace |
| Strings.WordsOfJoin | violation_web/utils.py:119 | splitting words joined by single spaces gives the words back |
| Strings.StrLessTransitive | violation_web/utils.py:408 | Python's string order is transitive |
| Strings.StrLessTrichotomous | violation_web/utils.py:408 | any two different strings are ordered one way or the other |
| Strings.SortedSet | violation_web/utils.py:408 | `sorted(set(...))` lists each element of the set exactly once, in strictly increasing order |
| Strings.StrictlySortedUnique | violation_web/utils.py:408 | a strictly increasing list is determined by its elements |
| Numerals.Digits | violation_web/utils.py:484 | `str(n)` of a natural number is a non-empty digit string without a leading zero |
| Numerals.DigitsRoundTrip | violation_web/utils.py:484 | the digits of n read back as n |
| Numerals.ParseIntOfIntToString | violation_web/utils.py:484 | `int(str(n)) == n` for every integer |
| Numerals.IntToStringRoundTrip | violation_web/utils.py:478-484 | the paid text the mirror writes reads back through its amount reader as the same number |
| Numerals.GroupedDigitsShape | violation_web/utils.py:77 | the dotted rendering starts with a digit, puts a dot before every full group of three digits from the right, and has digits everywhere else |
| Numerals.GroupedDigitsValue | violation_web/utils.py:77 | removing the dots from the rendering gives digits whose value is the amount |
| Numerals.FormatAmountRoundTrip | violation_web/utils.py:77 | the mirror's amount reader reads a dotted amount back as the same number, negatives included |
| Numerals.FormatCurrencyExample | violation_web/utils.py:49-54 | 10000 renders as "10.000 VND" |
| Numerals.PaymentMessageExample | violation_web/utils.py:57-80 | the documented example "Vũ Trần Đình Tâm 310.000 VP01, VP04, VP05" is produced |
| Calendar.ZeroPadValue | violation_web/utils.py:534 | the padded digits read back as the number, are at least `width` long, and exactly `width` long for a number below 10^width |
| Calendar.FormatDateShape | violation_web/utils.py:534 | a valid date is written as ten characters `YYYY-MM-DD` whose three digit fields read back as year, month and day |
| Calendar.FormatDateInjective | violation_web/utils.py:120 | distinct valid dates are written as distinct text, so the scans' text comparison compares dates |
| Calendar.CustomWeek | violation_web/utils.py:213-244 | the custom week is at least 1 |
| Calendar.CustomWeekOf | violation_web/utils.py:213-244 | the custom week of a date is at least 1 |
| Calendar.CalendarConstants | violation_web/utils.py:228-230 | the three day numbers are the ordinals of 8 Sep 2025, 15 Feb 2026 and 28 Feb 2026, and the break is 14 days long |
| Calendar.FirstWeek | violation_web/utils.py:231-232 | any day before the start, or within the first 7 days from it, is in week 1 |
| Calendar.BreakHandling | violation_web/utils.py:234-243 | before the break weeks are plain 7-day counts; a day of the break has the week of 14 Feb 2026; after the break the count runs 14 days behind |
| Calendar.CustomWeekMonotone | violation_web/utils.py:234-243 | a later date never has an earlier week |
| Calendar.CustomWeekNoGap | violation_web/utils.py:234-243 | the next day is in the same week or the next one |
| Calendar.CustomWeekAroundBreak | violation_web/utils.py:216-219 | 14 Feb 2026 and 1 Mar 2026 are in week 23; 2 Mar 2026 opens week 24 |
| Mirror.NumberCellAmount | violation_web/utils.py:466-471 | read through its text, an integer cell gives back its own value, and so does the text the settle writes for an integer |
| Mirror.PaymentSheetsAreViolationSheets | violation_web/utils.py:435-437 | the settle step visits exactly the sheets violations are filed under |
| Mirror.LastSeq | violation_web/utils.py:519-527 | the last sequence number is at least 0, at least every integer in column A, and either 0 or one of them |
| Mirror.ScanLastSeq | violation_web/utils.py:519-527 | the column-A scan computes the last sequence number |
| Mirror.AppendedSeqIsFresh | violation_web/utils.py:528-545 | append adds exactly one data row after the unchanged old rows, numbered above every existing sequence number |
| Mirror.Workbook.AppendViolation | violation_web/utils.py:514-545 | only the record's own existing sheet changes, by the appended row; otherwise the workbook is unchanged |
| Mirror.SettleRowMovesUnpaid | violation_web/utils.py:474-490 | an owed row keeps paid + unpaid, shows unpaid 0 and today's date, and keeps every other cell |
| Mirror.SettleRowIdempotent | violation_web/utils.py:472-490 | settling a row twice is settling it once |
| Mirror.SettleNeedsNormalName | violation_web/utils.py:459-461 | a student name not in normal form matches no row, so nothing is settled |
| Mirror.SettleBookIdempotent | violation_web/utils.py:435-491 | a second settle for the same student changes nothing |
| Mirror.SettleSheetRows | violation_web/utils.py:445-490 | the row loop writes the three cells of every owed row and computes the settled sheet |
| Mirror.SettleCells | violation_web/utils.py:446-490 | the per-row body writes paid + unpaid as text, today's date and unpaid 0 into a data row of the student at least eight cells wide with unpaid > 0, and leaves any other row alone: the settled row |
| Mirror.Workbook.UpdatePayment | violation_web/utils.py:435-491 | every violation sheet present is settled for the student; other sheets are unchanged |
| Mirror.FirstMatch | violation_web/utils.py:123-165 | the match found is the first data row whose name, date and column-H amount are the record's; no match means no row matches |
| Mirror.FindRowToDelete | violation_web/utils.py:122-165 | the search loop stops at the first matching row, or reports none |
| Mirror.RemoveRowRemovesOne | violation_web/utils.py:163-169 | delete removes at most one row: the first matching row, a data row with no match before it, keeping the order of the rest; with no match nothing changes |
| Mirror.Workbook.RemoveViolation | violation_web/utils.py:114-169 | only the record's sheet changes, by deleting its first matching row |
| Mirror.NewRowMatches | violation_web/utils.py:529-545 | the row appended for a record matches that record |
| Mirror.AppendThenRemove | violation_web/utils.py:119-165 | appending a record's row and then deleting the record restores the sheet, when no earlier row matches it |
| Mirror.NoMatchKeeps | violation_web/utils.py:164-168 | when no row matches, the delete leaves the sheet unchanged |
| Mirror.PaidRowSurvivesDelete | violation_web/utils.py:159-163 | once a bulk settle has paid a new record, its row no longer matches and the delete keeps it |
| Mirror.FirstRepairedMatch | violation_web/utils.py:123-165 | the repaired search finds the first data row whose name and date are the record's and whose column H, or columns F + H, hold its amount; no match means no row matches |
| Mirror.RepairDeletesWhenScanDoes | violation_web/utils.py:159-163 | whenever the scan finds a row, the repaired search finds one too, at or before the scan's row |
| Mirror.RepairAgreesWhenUnpaid | violation_web/utils.py:159-163 | on a sheet whose rows for the record have nothing paid, the repaired delete is the scan's delete |
| Mirror.SettleRowKeepsEntry | violation_web/utils.py:474-490 | a settle keeps a row's name, date and paid + unpaid sum |
| Mirror.SettleRowNoNewMatch | violation_web/utils.py:474-490 | for a non-zero amount, a settle creates no repaired match |
| Mirror.AppendSettleThenRemove | violation_web/utils.py:122-165 | append, settle, then the repaired delete leaves the sheet as the settle alone would |
| Mirror.RosterSetStep | violation_web/utils.py:396-406 | each roster row adds its normalised name, the header and blank rows add nothing |
| Mirror.RosterNamesNormalized | violation_web/utils.py:404-405 | every roster name is non-empty and in normal form |
| Mirror.CollectRosterNames | violation_web/utils.py:396-409 | the roster list is the strictly sorted, duplicate-free list of the normalised names of the non-header, non-blank rows |
| Mirror.Workbook.RosterNames | violation_web/utils.py:390-409 | the roster list comes from DS_LOP, and is empty without that sheet |

## Findings

| source | as written | input that shows it | evidently intended | confidence | as-written member | corrected member |
|---|---|---|---|---|---|---|
| violation_web/utils.py:159-163 | the delete scan matches a row by column H (unpaid) = `amount_due`, but the settle step zeroes column H and moves the amount into column F | add a violation with amount 10000 (its row: F 0, H 10000), confirm the student's payment (row: F "10000", H 0), then delete the violation: no row matches, and the paid row stays in the workbook | also accept a row whose paid + unpaid (F + H) is the amount, the sum the settle step keeps, so a paid violation's row is deleted too, while every row the scan matches still matches | not executed; high that the row survives, medium on the intended repair | Mirror.PaidRowSurvivesDelete | Mirror.AppendSettleThenRemove |

`Mirror.MatchesRecord`, `FirstMatch`, `RemoveRow`, `FindRowToDelete` and
`Workbook.RemoveViolation` model the scan as written, comparing column H.
`Mirror.MatchesRecordRepaired` and `Mirror.RemoveRowRepaired` are the repair. It accepts
every row the scan accepts, so an imported row (column H holds the amount due, column F
what was paid) is still deleted. It also accepts a settled row by its F + H sum. On a
sheet whose rows for the record have nothing paid, the two deletes agree
(`Mirror.RepairAgreesWhenUnpaid`).

## Left out

- Web, database and file plumbing is not modelled: Flask routes, templates, sessions,
  flash messages and redirects; SQLAlchemy queries and commits; authorisation checks;
  loading and saving workbooks with openpyxl and pandas; file-missing and missing-library
  early returns.
- Notifications, the QR image (`generate_qr_code_base64`), `compute_week_number` and
  `import_excel_if_needed` are not part of this model.
- Exceptions swallowed around mirror calls are not modelled. The store update never
  depends on the mirror's outcome, and the model always performs the mirror step.
- Store.InfractionStore.ConfirmPayment: the clocks are parameters. The database uses
  UTC+7 and the mirror uses local time, so two "today" values are passed. The ledger
  keeps the transfer date to the day, without its time of day.
- Store.InfractionStore.AddViolation: the form date arrives already parsed. A date that
  does not parse is left out; its error page changes nothing. The record id is supplied
  by the caller as a fresh id.
- Mirror.AppendSettleThenRemove: stated for a record with a non-zero amount. With amount
  0 the settle turns every owed row of the student with the same name and date into
  unpaid 0, which the repaired test then accepts.
- Store.PreviewAmount: a date that fails to parse is passed as `None`, which gives 0 like
  the source's exception handler. No other exception path exists in the model.
- Strings.Upper: `Strings.Upper` and `Strings.Lower` map only ASCII letters. Python's
  Unicode case mapping is not modelled. For Vietnamese names this matters: Python
  capitalises "đỗ" to "Đỗ", the model leaves "đỗ". Two spellings of a name that differ
  only in the case of a non-ASCII letter normalise to different names here and to the
  same name in the program. (Whitespace is Python's full `str.isspace` set, see
  `Strings.IsSpace`.)
- Numerals.ParseInt: `int()`'s underscores and non-ASCII digits are not modelled.
- Mirror.CellInt: cells hold integers, text, dates or nothing. Float cells are not
  modelled.
- Mirror.DateText: Excel serial-number dates in the delete scan are not converted, so
  such a row never matches.
- Calendar.Ordinal: days are counted only for dates `datetime.date` accepts (years
  1–9999).
- Calendar.FormatDate: the year is always padded to four digits. `strftime('%Y')` on
  glibc writes a year below 1000 without padding, so for such years the text differs.
  The program's dates are in 2025–2026.
- Mirror.Workbook.RosterNames: the roster reader gets the sheet's rows as cells, from
  its first row on. pandas' NaN and Timestamp cell types are not modelled.
