/**
 * The spreadsheet mirror: the workbook that shadows the database, one sheet per
 * violation kind, each a list of rows whose column A holds a sequence number (STT).
 * Rows of a sheet are
 *   A seq | B week | C date | D name | E reason | F paid | G paid date | H unpaid | I notes
 * and a row is a data row exactly when its column A reads as an integer.  The three
 * row operations are appending a violation, settling every outstanding row of a
 * student, and deleting the row of a removed violation; the class roster sheet DS_LOP
 * supplies the list of student names.
 */
module Mirror {
  import opened Wrappers
  import opened Strings
  import Numerals
  import opened Calendar
  import opened Accrual

  /** A cell value as the workbook reader returns it. */
  datatype Cell = Blank | Num(n: int) | Str(s: string) | Day(date: Date)

  type Row = seq<Cell>

  /** `row[i].value`, with a missing cell read as empty. */
  function At(row: Row, i: nat): Cell {
    if i < |row| then row[i] else Blank
  }

  /** `int(cell.value)`: an integer cell, or text `int()` accepts; anything else raises. */
  function CellInt(c: Cell): Option<int> {
    match c
    case Num(n) => Some(n)
    case Str(s) => Numerals.ParseInt(s)
    case _ => None
  }

  /** Rows whose column A does not read as an integer are headers, titles or blanks. */
  predicate IsDataRow(row: Row) {
    CellInt(At(row, 0)).Some?
  }

  /** The amount reader of the paid and unpaid columns:
      `int(str(v).replace(',', '').replace('.', ''))` for a non-empty cell, 0 when the cell
      is empty or the text does not parse. */
  function CellAmount(c: Cell): int {
    match c
    case Blank => 0
    case Num(n) => n
    case Str(s) => Numerals.ParseSeparatedInt(s).GetOr(0)
    case Day(_) => 0
  }

  /** An integer cell is read through its text like any other: `str(n)` has no separators,
      so the reader gives back `n`. */
  lemma NumberCellAmount(n: int)
    ensures CellAmount(Num(n)) == Numerals.ParseSeparatedInt(Numerals.IntToString(n)).GetOr(0)
    ensures CellAmount(Str(Numerals.IntToString(n))) == n
  {
    Numerals.IntToStringRoundTrip(n);
  }

  /** The date text the delete scan compares: a date cell formatted as `%Y-%m-%d`, a text
      cell stripped; an empty cell has none. */
  function DateText(c: Cell): Option<string> {
    match c
    case Day(d) => Some(FormatDate(d))
    case Str(s) => Some(Strip(s))
    case _ => None
  }

  /** The six violation sheets, in the order the settle scan visits them. */
  const PaymentSheets: seq<string> :=
    ["NHAT_KI_DI_MUON", "NG_LA", "DOI_CHO", "QUEN_DDHT", "NGU_TRONG_GIO", "NGHI_HOC"]

  /** The sheets the settle scan visits are exactly the sheets violations are filed under. */
  lemma PaymentSheetsAreViolationSheets()
    ensures forall name :: name in PaymentSheets <==> name != "" && exists code :: SheetFor(code) == name
  {
    assert SheetFor("VP01") == PaymentSheets[0];
    assert SheetFor("VP02") == PaymentSheets[1];
    assert SheetFor("VP03") == PaymentSheets[2];
    assert SheetFor("VP04") == PaymentSheets[3];
    assert SheetFor("VP05") == PaymentSheets[4];
    assert SheetFor("VP06") == PaymentSheets[5];
  }

  // ---------------------------------------------------------------------------------
  // Append
  // ---------------------------------------------------------------------------------

  /** The largest integer in column A, or 0 when there is none larger. */
  function LastSeq(rows: seq<Row>): (last: int)
    ensures last >= 0
    ensures forall i :: 0 <= i < |rows| && IsDataRow(rows[i]) ==> CellInt(At(rows[i], 0)).value <= last
    ensures last == 0 || exists i :: 0 <= i < |rows| && IsDataRow(rows[i]) && CellInt(At(rows[i], 0)).value == last
  {
    if rows == [] then 0
    else
      var rest := LastSeq(rows[..|rows| - 1]);
      var v := CellInt(At(rows[|rows| - 1], 0));
      if v.Some? && v.value > rest then v.value else rest
  }

  /** `[new_stt, week or '', date, name, reason or '', paid or 0, paid date or '', due or 0,
      notes or '']`. */
  function NewRow(seqNo: int, r: Record): (row: Row)
    ensures |row| == 9
  {
    [ Num(seqNo),
      if r.week == 0 then Str("") else Num(r.week),
      Str(FormatDate(r.date)),
      Str(r.student),
      Str(r.reason.GetOr("")),
      Num(r.amountPaid),
      Str(match r.paymentDate case Some(d) => FormatDate(d) case None => ""),
      Num(r.amountDue),
      Str(r.notes.GetOr("")) ]
  }

  /** The sheet after `append_violation_to_excel`. */
  function AppendRow(rows: seq<Row>, r: Record): seq<Row> {
    rows + [NewRow(LastSeq(rows) + 1, r)]
  }

  /** The STT scan of `append_violation_to_excel`. */
  method ScanLastSeq(rows: seq<Row>) returns (last: int)
    ensures last == LastSeq(rows)
  {
    last := 0;
    var i := 0;
    while i < |rows|
      invariant 0 <= i <= |rows|
      invariant last == LastSeq(rows[..i])
    {
      assert rows[..i + 1][..i] == rows[..i];
      var v := CellInt(At(rows[i], 0));
      if v.Some? && v.value > last {
        last := v.value;
      }
      i := i + 1;
    }
    assert rows[..|rows|] == rows;
  }

  /** The append writes the row numbered one past the scanned STT. */
  lemma AppendRowAfterScan(rows: seq<Row>, r: Record, next: int)
    requires next == LastSeq(rows) + 1
    ensures AppendRow(rows, r) == rows + [NewRow(next, r)]
  {
    AppendRowUnfold(rows, r);
  }

  lemma AppendRowUnfold(rows: seq<Row>, r: Record)
    ensures AppendRow(rows, r) == rows + [NewRow(LastSeq(rows) + 1, r)]
  {
  }

  /** The new row's number is larger than every number already in column A. */
  lemma AppendedSeqIsFresh(rows: seq<Row>, r: Record)
    ensures var rows' := AppendRow(rows, r);
            |rows'| == |rows| + 1 && rows'[..|rows|] == rows && IsDataRow(rows'[|rows|]) &&
            forall i :: 0 <= i < |rows| && IsDataRow(rows[i]) ==>
              CellInt(At(rows[i], 0)).value < CellInt(At(rows'[|rows|], 0)).value
  {
  }

  // ---------------------------------------------------------------------------------
  // Bulk settle
  // ---------------------------------------------------------------------------------

  /** A data row of `student` that still shows an unpaid amount. */
  predicate IsOwedRow(row: Row, student: string) {
    IsDataRow(row) && At(row, 3).Str? && NormalizeName(At(row, 3).s) == student &&
    CellAmount(At(row, 7)) > 0
  }

  /** Paid becomes the text of paid + unpaid, the paid date becomes today and unpaid 0; any
      other row is left as it is. */
  function SettleRow(row: Row, student: string, today: Date): (row': Row)
    ensures |row'| == |row|
  {
    if IsOwedRow(row, student) then
      var total := CellAmount(At(row, 5)) + CellAmount(At(row, 7));
      row[5 := Str(Numerals.IntToString(total))][6 := Str(FormatDate(today))][7 := Num(0)]
    else row
  }

  function SettleRows(rows: seq<Row>, student: string, today: Date): (rows': seq<Row>)
    ensures |rows'| == |rows|
    ensures forall i :: 0 <= i < |rows| ==> rows'[i] == SettleRow(rows[i], student, today)
  {
    seq(|rows|, i requires 0 <= i < |rows| => SettleRow(rows[i], student, today))
  }

  /** The workbook after `update_excel_payment(student, ...)` on `today`. */
  function SettleBook(sheets: map<string, seq<Row>>, student: string, today: Date): map<string, seq<Row>> {
    map name | name in sheets ::
      if name in PaymentSheets then SettleRows(sheets[name], student, today) else sheets[name]
  }

  /** A settled row keeps paid + unpaid, owes nothing, and is dated today. */
  lemma SettleRowMovesUnpaid(row: Row, student: string, today: Date)
    requires IsOwedRow(row, student)
    ensures var row' := SettleRow(row, student, today);
            CellAmount(At(row', 5)) + CellAmount(At(row', 7)) == CellAmount(At(row, 5)) + CellAmount(At(row, 7)) &&
            CellAmount(At(row', 7)) == 0 && At(row', 6) == Str(FormatDate(today)) &&
            forall i :: 0 <= i < |row| && i != 5 && i != 6 && i != 7 ==> row'[i] == row[i]
  {
    SettledCells(row, student, today);
    NumberCellAmount(CellAmount(At(row, 5)) + CellAmount(At(row, 7)));
    SettledKeepsOtherCells(row, student, today);
  }

  /** A bulk settle writes columns F, G and H only. */
  lemma SettledKeepsOtherCells(row: Row, student: string, today: Date)
    ensures var row' := SettleRow(row, student, today);
            forall i :: 0 <= i < |row| && i != 5 && i != 6 && i != 7 ==> row'[i] == row[i]
  {
  }

  /** Settling a row twice is settling it once. */
  lemma SettleRowIdempotent(row: Row, student: string, today: Date)
    ensures SettleRow(SettleRow(row, student, today), student, today) == SettleRow(row, student, today)
  {
    if IsOwedRow(row, student) {
      assert !IsOwedRow(SettleRow(row, student, today), student);
    }
  }

  /** The comparison is with the normalised cell text, so a student name that is not in
      normal form (stray spaces, lower-case initials) matches no row. */
  lemma SettleNeedsNormalName(row: Row, student: string, today: Date)
    requires NormalizeName(student) != student
    ensures SettleRow(row, student, today) == row
  {
    if At(row, 3).Str? && NormalizeName(At(row, 3).s) == student {
      NormalizeNameIdempotent(At(row, 3).s);
    }
  }

  /** A second bulk settle for the same student changes nothing. */
  lemma SettleBookIdempotent(sheets: map<string, seq<Row>>, student: string, today: Date)
    ensures SettleBook(SettleBook(sheets, student, today), student, today) == SettleBook(sheets, student, today)
  {
    var once := SettleBook(sheets, student, today);
    forall name | name in once && name in PaymentSheets
      ensures SettleRows(once[name], student, today) == once[name]
    {
      forall i | 0 <= i < |once[name]| ensures SettleRow(once[name][i], student, today) == once[name][i] {
        SettleRowIdempotent(sheets[name][i], student, today);
      }
    }
  }

  // ---------------------------------------------------------------------------------
  // Delete
  // ---------------------------------------------------------------------------------

  /** The key the delete scan compares: a data row whose normalised name and date text are
      the record's. */
  predicate SameEntry(row: Row, r: Record) {
    IsDataRow(row) && At(row, 3).Str? &&
    NormalizeName(At(row, 3).s) == NormalizeName(r.student) &&
    DateText(At(row, 2)) == Some(FormatDate(r.date))
  }

  /** The delete scan's test: the row's key is the record's and its column-H amount is the
      record's amount due. */
  predicate MatchesRecord(row: Row, r: Record) {
    SameEntry(row, r) && CellAmount(At(row, 7)) == r.amountDue
  }

  /** The index of the first row at or after `from` that satisfies `p`, if any. */
  function FirstWhere(rows: seq<Row>, p: Row -> bool, from: nat): Option<nat>
    requires from <= |rows|
    decreases |rows| - from
  {
    if from == |rows| then None
    else if p(rows[from]) then Some(from)
    else FirstWhere(rows, p, from + 1)
  }

  /** The search finds the first row satisfying `p` at or after `from`, or reports that there
      is none. */
  lemma {:induction false} FirstWhereIsFirst(rows: seq<Row>, p: Row -> bool, from: nat)
    requires from <= |rows|
    ensures var found := FirstWhere(rows, p, from);
            (found.Some? ==> from <= found.value < |rows| && p(rows[found.value]) &&
                             forall j :: from <= j < found.value ==> !p(rows[j])) &&
            (found.None? ==> forall j :: from <= j < |rows| ==> !p(rows[j]))
    decreases |rows| - from
  {
    if from < |rows| && !p(rows[from]) {
      FirstWhereIsFirst(rows, p, from + 1);
    }
  }

  /** Rows that fail `p` can be skipped by the search. */
  lemma {:induction false} FirstWhereSkips(rows: seq<Row>, p: Row -> bool, start: int, stop: int)
    requires 0 <= start <= stop <= |rows|
    requires forall j :: start <= j < stop ==> !p(rows[j])
    ensures FirstWhere(rows, p, start) == FirstWhere(rows, p, stop)
    decreases stop - start
  {
    if start < stop {
      FirstWhereSkips(rows, p, start + 1, stop);
    }
  }

  /** A search whose only hit is the last row finds that row. */
  lemma FirstWhereLast(rows: seq<Row>, last: Row, p: Row -> bool)
    requires forall j :: 0 <= j < |rows| ==> !p(rows[j])
    requires p(last)
    ensures FirstWhere(rows + [last], p, 0) == Some(|rows|)
  {
    var rows' := rows + [last];
    assert forall j :: 0 <= j < |rows| ==> rows'[j] == rows[j];
    FirstWhereSkips(rows', p, 0, |rows|);
  }

  /** The index of the first row matching `r`, if any. */
  function FirstMatch(rows: seq<Row>, r: Record): (found: Option<nat>)
    ensures found.Some? ==> found.value < |rows| && MatchesRecord(rows[found.value], r) &&
                            forall j :: 0 <= j < found.value ==> !MatchesRecord(rows[j], r)
    ensures found.None? ==> forall j :: 0 <= j < |rows| ==> !MatchesRecord(rows[j], r)
  {
    var p := (row: Row) => MatchesRecord(row, r);
    FirstWhereIsFirst(rows, p, 0);
    FirstWhere(rows, p, 0)
  }

  /** The sheet after `remove_violation_from_excel(r, ...)`. */
  function RemoveRow(rows: seq<Row>, r: Record): seq<Row> {
    match FirstMatch(rows, r)
    case Some(k) => rows[..k] + rows[k + 1..]
    case None => rows
  }

  /** The search loop of `remove_violation_from_excel`, stopping at the first match. */
  method FindRowToDelete(rows: seq<Row>, r: Record) returns (found: Option<nat>)
    ensures found == FirstMatch(rows, r)
  {
    var p := (row: Row) => MatchesRecord(row, r);
    var i := 0;
    while i < |rows|
      invariant 0 <= i <= |rows|
      invariant FirstWhere(rows, p, i) == FirstWhere(rows, p, 0)
    {
      if MatchesRecord(rows[i], r) {
        return Some(i);
      }
      i := i + 1;
    }
    return None;
  }

  /** Deleting removes at most one row: the first row matching the record, which is a data
      row; every row before it fails the test, and the rows before and after it keep their
      order. With no match nothing changes. */
  lemma RemoveRowRemovesOne(rows: seq<Row>, r: Record)
    ensures var rows' := RemoveRow(rows, r);
            (rows' == rows && forall j :: 0 <= j < |rows| ==> !MatchesRecord(rows[j], r)) ||
            exists k :: 0 <= k < |rows| && IsDataRow(rows[k]) && MatchesRecord(rows[k], r) &&
                        (forall j :: 0 <= j < k ==> !MatchesRecord(rows[j], r)) &&
                        rows' == rows[..k] + rows[k + 1..]
  {
  }

  /** The row appended for a record is found again by the delete scan for that record. */
  lemma NewRowMatches(seqNo: int, r: Record)
    ensures MatchesRecord(NewRow(seqNo, r), r)
  {
    NewRowCells(seqNo, r);
    DateCellText(r.date);
  }

  /** The date text written by the append is read back unchanged by the delete scan. */
  lemma DateCellText(d: Date)
    ensures DateText(Str(FormatDate(d))) == Some(FormatDate(d))
  {
    var s := FormatDate(d);
    assert !IsSpace(s[0]) && !IsSpace(s[|s| - 1]);
  }

  /** Appending a record's row and then deleting that record restores the sheet, when no
      existing row already matches the record. */
  lemma AppendThenRemove(rows: seq<Row>, r: Record)
    requires forall j :: 0 <= j < |rows| ==> !MatchesRecord(rows[j], r)
    ensures RemoveRow(AppendRow(rows, r), r) == rows
  {
    NewRowMatches(LastSeq(rows) + 1, r);
    AppendThenRemoveRow(rows, NewRow(LastSeq(rows) + 1, r), r);
  }

  /** Deleting from a sheet whose only match is its last row drops that row. */
  lemma AppendThenRemoveRow(rows: seq<Row>, last: Row, r: Record)
    requires forall j :: 0 <= j < |rows| ==> !MatchesRecord(rows[j], r)
    requires MatchesRecord(last, r)
    ensures RemoveRow(rows + [last], r) == rows
  {
    var rows' := rows + [last];
    assert rows'[..|rows|] == rows;
    var p := (row: Row) => MatchesRecord(row, r);
    FirstWhereLast(rows, last, p);
    assert FirstMatch(rows', r) == Some(|rows|);
  }

  /** The scan cannot delete a paid violation: once a bulk settle has moved a new record's
      amount into column F and zeroed column H, the record's row no longer matches and stays
      in the sheet. */
  lemma PaidRowSurvivesDelete(r: Record, today: Date)
    requires r.amountDue > 0 && r.amountPaid == 0 && NormalizeName(r.student) == r.student
    ensures var rows := SettleRows(AppendRow([], r), r.student, today);
            |rows| == 1 && CellAmount(At(rows[0], 5)) == r.amountDue &&
            RemoveRow(rows, r) == rows
  {
    var row := NewRow(LastSeq([]) + 1, r);
    assert AppendRow([], r) == [row];
    SettledNewRow(LastSeq([]) + 1, r, today);
    var rows := SettleRows([row], r.student, today);
    assert rows == [SettleRow(row, r.student, today)];
    NoMatchKeeps(rows, r);
  }

  /** A new record's row after a bulk settle shows the whole amount paid and nothing unpaid. */
  lemma SettledNewRow(seqNo: int, r: Record, today: Date)
    requires r.amountDue > 0 && r.amountPaid == 0 && NormalizeName(r.student) == r.student
    ensures var row' := SettleRow(NewRow(seqNo, r), r.student, today);
            CellAmount(At(row', 5)) == r.amountDue && CellAmount(At(row', 7)) == 0
  {
    var row := NewRow(seqNo, r);
    NewRowCells(seqNo, r);
    SettledCells(row, r.student, today);
    NumberCellAmount(r.amountDue);
  }

  /** The cells of a new record's row that the scans read. */
  lemma NewRowCells(seqNo: int, r: Record)
    ensures var row := NewRow(seqNo, r);
            At(row, 0) == Num(seqNo) && At(row, 2) == Str(FormatDate(r.date)) && At(row, 3) == Str(r.student) &&
            At(row, 5) == Num(r.amountPaid) && At(row, 7) == Num(r.amountDue)
  {
  }

  /** The three cells a bulk settle writes into an owed row. */
  lemma SettledCells(row: Row, student: string, today: Date)
    requires IsOwedRow(row, student)
    ensures var row' := SettleRow(row, student, today);
            At(row', 5) == Str(Numerals.IntToString(CellAmount(At(row, 5)) + CellAmount(At(row, 7)))) &&
            At(row', 6) == Str(FormatDate(today)) && At(row', 7) == Num(0)
  {
  }

  /** The delete scan leaves a sheet in which no row matches as it is. */
  lemma NoMatchKeeps(rows: seq<Row>, r: Record)
    requires forall j :: 0 <= j < |rows| ==> !MatchesRecord(rows[j], r)
    ensures RemoveRow(rows, r) == rows
  {
    var p := (row: Row) => MatchesRecord(row, r);
    FirstWhereSkips(rows, p, 0, |rows|);
  }

  // ---------------------------------------------------------------------------------
  // The delete, repaired
  // ---------------------------------------------------------------------------------

  /** The repaired test: the key is the record's, and either column H holds the amount due
      (a new or imported row, as the scan reads it) or paid + unpaid (columns F and H) does,
      the sum a bulk settle keeps. */
  predicate MatchesRecordRepaired(row: Row, r: Record) {
    SameEntry(row, r) &&
    (CellAmount(At(row, 7)) == r.amountDue || CellAmount(At(row, 5)) + CellAmount(At(row, 7)) == r.amountDue)
  }

  /** The index of the first row matching `r` under the repaired test, if any. */
  function FirstRepairedMatch(rows: seq<Row>, r: Record): (found: Option<nat>)
    ensures found.Some? ==> found.value < |rows| && MatchesRecordRepaired(rows[found.value], r) &&
                            forall j :: 0 <= j < found.value ==> !MatchesRecordRepaired(rows[j], r)
    ensures found.None? ==> forall j :: 0 <= j < |rows| ==> !MatchesRecordRepaired(rows[j], r)
  {
    var p := (row: Row) => MatchesRecordRepaired(row, r);
    FirstWhereIsFirst(rows, p, 0);
    FirstWhere(rows, p, 0)
  }

  /** The sheet after the delete with the repaired test. */
  function RemoveRowRepaired(rows: seq<Row>, r: Record): seq<Row> {
    match FirstRepairedMatch(rows, r)
    case Some(k) => rows[..k] + rows[k + 1..]
    case None => rows
  }

  /** The repair deletes no later than the scan: whenever the scan finds a row, the repaired
      delete finds one too, at or before the scan's row. */
  lemma RepairDeletesWhenScanDoes(rows: seq<Row>, r: Record)
    requires FirstMatch(rows, r).Some?
    ensures FirstRepairedMatch(rows, r).Some?
    ensures FirstRepairedMatch(rows, r).value <= FirstMatch(rows, r).value
  {
    var k := FirstMatch(rows, r).value;
    ScanMatchIsRepaired(rows[k], r);
  }

  lemma ScanMatchIsRepaired(row: Row, r: Record)
    requires MatchesRecord(row, r)
    ensures MatchesRecordRepaired(row, r)
  {
  }

  /** On a sheet where every row with the record's key has nothing paid (column F reads 0),
      the repaired delete is the scan's delete. */
  lemma RepairAgreesWhenUnpaid(rows: seq<Row>, r: Record)
    requires forall j :: 0 <= j < |rows| && SameEntry(rows[j], r) ==> CellAmount(At(rows[j], 5)) == 0
    ensures RemoveRowRepaired(rows, r) == RemoveRow(rows, r)
  {
    var p := (row: Row) => MatchesRecordRepaired(row, r);
    var q := (row: Row) => MatchesRecord(row, r);
    assert forall j :: 0 <= j < |rows| ==> p(rows[j]) == q(rows[j]);
    FirstWhereAgree(rows, p, q, 0);
  }

  /** Two tests that agree on every row give the same search. */
  lemma {:induction false} FirstWhereAgree(rows: seq<Row>, p: Row -> bool, q: Row -> bool, from: nat)
    requires from <= |rows|
    requires forall j :: from <= j < |rows| ==> p(rows[j]) == q(rows[j])
    ensures FirstWhere(rows, p, from) == FirstWhere(rows, q, from)
    decreases |rows| - from
  {
    if from < |rows| {
      FirstWhereAgree(rows, p, q, from + 1);
    }
  }

  /** A bulk settle keeps a row's key and its paid + unpaid sum. */
  lemma SettleRowKeepsEntry(row: Row, r: Record, student: string, today: Date)
    ensures var row' := SettleRow(row, student, today);
            SameEntry(row', r) == SameEntry(row, r) &&
            CellAmount(At(row', 5)) + CellAmount(At(row', 7)) == CellAmount(At(row, 5)) + CellAmount(At(row, 7))
  {
    if IsOwedRow(row, student) {
      SettleRowMovesUnpaid(row, student, today);
    }
  }

  /** For a record with a non-zero amount, a bulk settle creates no repaired match: an owed
      row ends with column H 0 and the same paid + unpaid sum. */
  lemma SettleRowNoNewMatch(row: Row, r: Record, student: string, today: Date)
    requires r.amountDue != 0
    requires !MatchesRecordRepaired(row, r)
    ensures !MatchesRecordRepaired(SettleRow(row, student, today), r)
  {
    SettleRowKeepsEntry(row, r, student, today);
    if IsOwedRow(row, student) {
      SettleRowMovesUnpaid(row, student, today);
    }
  }

  /** Appending a new record's row, settling its student, and deleting the record with the
      repaired test leaves the sheet as settling alone would have left it. */
  lemma AppendSettleThenRemove(rows: seq<Row>, r: Record, today: Date)
    requires r.amountPaid == 0 && r.amountDue != 0
    requires forall j :: 0 <= j < |rows| ==> !MatchesRecordRepaired(rows[j], r)
    ensures RemoveRowRepaired(SettleRows(AppendRow(rows, r), r.student, today), r) == SettleRows(rows, r.student, today)
  {
    var row := NewRow(LastSeq(rows) + 1, r);
    var settled := SettleRows(rows, r.student, today);
    SettleRowsSnoc(rows, row, r.student, today);
    forall j | 0 <= j < |rows| ensures !MatchesRecordRepaired(settled[j], r) {
      SettleRowNoNewMatch(rows[j], r, r.student, today);
    }
    SettledNewRowMatches(LastSeq(rows) + 1, r, today);
    RemoveRepairedLast(settled, SettleRow(row, r.student, today), r);
  }

  /** A new record's row, settled or not, matches the repaired test by its paid + unpaid sum. */
  lemma SettledNewRowMatches(seqNo: int, r: Record, today: Date)
    requires r.amountPaid == 0
    ensures MatchesRecordRepaired(SettleRow(NewRow(seqNo, r), r.student, today), r)
  {
    NewRowMatches(seqNo, r);
    NewRowCells(seqNo, r);
    SettleRowKeepsEntry(NewRow(seqNo, r), r, r.student, today);
  }

  /** The repaired delete on a sheet whose only match is its last row drops that row. */
  lemma RemoveRepairedLast(rows: seq<Row>, last: Row, r: Record)
    requires forall j :: 0 <= j < |rows| ==> !MatchesRecordRepaired(rows[j], r)
    requires MatchesRecordRepaired(last, r)
    ensures RemoveRowRepaired(rows + [last], r) == rows
  {
    var rows' := rows + [last];
    assert rows'[..|rows|] == rows;
    var p := (row: Row) => MatchesRecordRepaired(row, r);
    FirstWhereLast(rows, last, p);
    assert FirstRepairedMatch(rows', r) == Some(|rows|);
  }

  lemma SettleRowsSnoc(rows: seq<Row>, row: Row, student: string, today: Date)
    ensures SettleRows(rows + [row], student, today) == SettleRows(rows, student, today) + [SettleRow(row, student, today)]
  {
  }

  // ---------------------------------------------------------------------------------
  // The class roster
  // ---------------------------------------------------------------------------------

  /** The header row of DS_LOP: column A is the text "stt" up to case and spaces. */
  predicate IsHeaderRow(row: Row) {
    At(row, 0).Str? && LowerAll(Strip(At(row, 0).s)) == "stt"
  }

  /** A row that contributes a name: not the header, and a non-blank text in column B. */
  predicate IsRosterRow(row: Row) {
    !IsHeaderRow(row) && At(row, 1).Str? && Strip(At(row, 1).s) != ""
  }

  /** The set of normalised names the roster lists. */
  function RosterSet(rows: seq<Row>): set<string> {
    set i | 0 <= i < |rows| && IsRosterRow(rows[i]) :: NormalizeName(At(rows[i], 1).s)
  }

  /** Every roster name is in normal form and not empty. */
  lemma RosterNamesNormalized(rows: seq<Row>)
    ensures forall n :: n in RosterSet(rows) ==> n != "" && NormalizeName(n) == n
  {
    forall n | n in RosterSet(rows) ensures n != "" && NormalizeName(n) == n {
      var i :| 0 <= i < |rows| && IsRosterRow(rows[i]) && n == NormalizeName(At(rows[i], 1).s);
      NormalizeNameIdempotent(At(rows[i], 1).s);
      NonBlankNameNonEmpty(At(rows[i], 1).s);
    }
  }

  /** A name with a non-whitespace character normalises to a non-empty name. */
  lemma NonBlankNameNonEmpty(s: string)
    requires Strip(s) != ""
    ensures NormalizeName(s) != ""
  {
    assert exists i :: 0 <= i < |s| && !IsSpace(s[i]) by {
      if forall i :: 0 <= i < |s| ==> IsSpace(s[i]) {
        AllSpaceStripsEmpty(s);
      }
    }
    var i :| 0 <= i < |s| && !IsSpace(s[i]);
    WordsNonEmpty(s, i);
    var ws := Words(s);
    assert IsWord(ws[0]);
    var cs := CapitalizeAll(ws);
    assert cs[0] == Capitalize(ws[0]) && cs[0] != [];
  }

  lemma {:induction false} AllSpaceStripsEmpty(s: string)
    requires forall i :: 0 <= i < |s| ==> IsSpace(s[i])
    ensures StripLeft(s) == []
  {
    if s != [] {
      AllSpaceStripsEmpty(s[1..]);
    }
  }

  lemma {:induction false} WordsNonEmpty(s: string, i: nat)
    requires i < |s| && !IsSpace(s[i])
    ensures Words(s) != []
    decreases |s|
  {
    if IsSpace(s[0]) {
      WordsNonEmpty(s[1..], i - 1);
    }
  }

  /** The roster names of the first i + 1 rows: those of the first i, and row i's name when
      row i is a roster row. */
  lemma RosterSetStep(rows: seq<Row>, i: int)
    requires 0 <= i < |rows|
    ensures RosterSet(rows[..i + 1]) ==
            RosterSet(rows[..i]) + (if IsRosterRow(rows[i]) then {NormalizeName(At(rows[i], 1).s)} else {})
  {
    var a := rows[..i + 1];
    forall j | 0 <= j < i ensures a[j] == rows[..i][j] { }
    assert a[i] == rows[i];
  }

  /** The loop of `get_ds_lop_names` over the rows of DS_LOP, then `sorted(set(names))`: the
      normalised names of the roster rows, each once, in code-point order. */
  method CollectRosterNames(rows: seq<Row>) returns (names: seq<string>)
    ensures names == SortedSet(RosterSet(rows))
    ensures StrictlySorted(names)
    ensures forall n :: n in names <==> n in RosterSet(rows)
    ensures forall n :: n in names ==> n != "" && NormalizeName(n) == n
  {
    var collected: seq<string> := [];
    var i := 0;
    while i < |rows|
      invariant 0 <= i <= |rows|
      invariant (set n | n in collected) == RosterSet(rows[..i])
    {
      RosterSetStep(rows, i);
      var row := rows[i];
      if IsHeaderRow(row) {
        i := i + 1;
        continue;
      }
      var nameCell := At(row, 1);
      if nameCell.Str? && Strip(nameCell.s) != "" {
        collected := collected + [NormalizeName(nameCell.s)];
      }
      i := i + 1;
    }
    assert rows[..|rows|] == rows;
    names := SortedSet(set n | n in collected);
    RosterNamesNormalized(rows);
  }

  // ---------------------------------------------------------------------------------
  // The workbook
  // ---------------------------------------------------------------------------------

  /** `sheets` with the named sheets settled for `student`. */
  function SettleSheets(sheets: map<string, seq<Row>>, names: seq<string>, student: string, today: Date)
    : map<string, seq<Row>>
  {
    map name | name in sheets :: if name in names then SettleRows(sheets[name], student, today) else sheets[name]
  }

  /** The mirror workbook: its sheets by name. */
  class Workbook {
    var sheets: map<string, seq<Row>>

    constructor (sheets: map<string, seq<Row>>)
      ensures this.sheets == sheets
    {
      this.sheets := sheets;
    }

    /** `append_violation_to_excel(r, ...)`: nothing happens unless the record names an
        existing sheet; otherwise the record's row is appended to that sheet, numbered one
        past the largest STT. */
    method AppendViolation(r: Record)
      modifies this
      ensures r.sheet != "" && r.sheet in old(sheets) ==>
              sheets == old(sheets)[r.sheet := AppendRow(old(sheets)[r.sheet], r)]
      ensures r.sheet == "" || r.sheet !in old(sheets) ==> sheets == old(sheets)
    {
      if r.sheet == "" || r.sheet !in sheets {
        return;
      }
      var rows := sheets[r.sheet];
      var last := ScanLastSeq(rows);
      var next := last + 1;
      AppendRowAfterScan(rows, r, next);
      sheets := sheets[r.sheet := rows + [NewRow(next, r)]];
    }

    /** `update_excel_payment(student, ...)` on `today`: in each violation sheet, every data
        row of the student that shows an unpaid amount gets paid := paid + unpaid (as text),
        paid date := today and unpaid := 0. */
    method UpdatePayment(student: string, today: Date)
      modifies this
      ensures sheets == SettleBook(old(sheets), student, today)
    {
      var k := 0;
      while k < |PaymentSheets|
        invariant 0 <= k <= |PaymentSheets|
        invariant sheets == SettleSheets(old(sheets), PaymentSheets[..k], student, today)
      {
        var name := PaymentSheets[k];
        PaymentSheetsStep(old(sheets), k, student, today);
        if name in sheets {
          var rows := SettleSheetRows(sheets[name], student, today);
          sheets := sheets[name := rows];
        }
        k := k + 1;
      }
      AllPaymentSheets(old(sheets), student, today);
    }

    /** `remove_violation_from_excel(r, ...)`: in the record's sheet, the first data row
        whose name, date and column-H amount match the record is deleted. */
    method RemoveViolation(r: Record)
      modifies this
      ensures r.sheet in old(sheets) ==> sheets == old(sheets)[r.sheet := RemoveRow(old(sheets)[r.sheet], r)]
      ensures r.sheet !in old(sheets) ==> sheets == old(sheets)
    {
      if r.sheet !in sheets {
        return;
      }
      var rows := sheets[r.sheet];
      var found := FindRowToDelete(rows, r);
      if found.Some? {
        var k := found.value;
        sheets := sheets[r.sheet := rows[..k] + rows[k + 1..]];
      }
    }

    /** `get_ds_lop_names`: the sorted, duplicate-free normalised names of the DS_LOP sheet,
        or none when the workbook has no such sheet. */
    method RosterNames() returns (names: seq<string>)
      ensures "DS_LOP" in sheets ==> names == SortedSet(RosterSet(sheets["DS_LOP"]))
      ensures "DS_LOP" !in sheets ==> names == []
    {
      if "DS_LOP" !in sheets {
        return [];
      }
      names := CollectRosterNames(sheets["DS_LOP"]);
    }
  }

  /** The row loop of `update_excel_payment` on one sheet, writing the three cells of every
      owed row of the student in place. */
  method SettleSheetRows(rows: seq<Row>, student: string, today: Date) returns (rows': seq<Row>)
    ensures rows' == SettleRows(rows, student, today)
  {
    rows' := rows;
    var i := 0;
    while i < |rows'|
      invariant 0 <= i <= |rows'| == |rows|
      invariant forall j :: 0 <= j < i ==> rows'[j] == SettleRow(rows[j], student, today)
      invariant forall j :: i <= j < |rows| ==> rows'[j] == rows[j]
    {
      var row := SettleCells(rows'[i], student, today);
      rows' := rows'[i := row];
      i := i + 1;
    }
  }

  /** The body of that loop for one row: a data row of the student, at least eight cells
      wide, with a positive unpaid amount gets its paid, paid-date and unpaid cells written. */
  method SettleCells(row: Row, student: string, today: Date) returns (row': Row)
    ensures row' == SettleRow(row, student, today)
  {
    row' := row;
    if CellInt(At(row, 0)).Some? && |row| >= 4 && row[3].Str? && NormalizeName(row[3].s) == student && |row| >= 8 {
      var unpaid := CellAmount(row[7]);
      if unpaid > 0 {
        var prevPaid := CellAmount(row[5]);
        row' := row'[5 := Str(Numerals.IntToString(prevPaid + unpaid))];
        row' := row'[6 := Str(FormatDate(today))];
        row' := row'[7 := Num(0)];
      }
    }
  }

  /** Settling one more sheet, not settled before, replaces just that sheet. */
  lemma SettleSheetsStep(sheets: map<string, seq<Row>>, done: seq<string>, name: string, student: string, today: Date)
    requires name !in done
    ensures var before := SettleSheets(sheets, done, student, today);
            name in sheets ==>
              before[name] == sheets[name] &&
              SettleSheets(sheets, done + [name], student, today) == before[name := SettleRows(sheets[name], student, today)]
    ensures name !in sheets ==> SettleSheets(sheets, done + [name], student, today) == SettleSheets(sheets, done, student, today)
  {
  }

  /** The settle scan's step over the `k`-th violation sheet, which it has not visited yet. */
  lemma PaymentSheetsStep(sheets: map<string, seq<Row>>, k: int, student: string, today: Date)
    requires 0 <= k < |PaymentSheets|
    ensures var name := PaymentSheets[k];
            var before := SettleSheets(sheets, PaymentSheets[..k], student, today);
            var after := SettleSheets(sheets, PaymentSheets[..k + 1], student, today);
            (name in sheets ==> before[name] == sheets[name] &&
                                after == before[name := SettleRows(sheets[name], student, today)]) &&
            (name !in sheets ==> after == before)
  {
    var name := PaymentSheets[k];
    assert PaymentSheets[..k + 1] == PaymentSheets[..k] + [name];
    assert name !in PaymentSheets[..k];
    SettleSheetsStep(sheets, PaymentSheets[..k], name, student, today);
  }

  /** Visiting all six violation sheets is the whole bulk settle. */
  lemma AllPaymentSheets(sheets: map<string, seq<Row>>, student: string, today: Date)
    ensures SettleSheets(sheets, PaymentSheets[..|PaymentSheets|], student, today) == SettleBook(sheets, student, today)
  {
    assert PaymentSheets[..|PaymentSheets|] == PaymentSheets;
  }
}
