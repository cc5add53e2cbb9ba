/**
 * The violation store and its money operations: what a record still owes, what a
 * student owes in total (the pay page), the settlement of everything a student owes
 * (`confirm_payment`, which also writes the payment ledger and the mirror workbook),
 * and the recording of a new violation (`add_violation`, which also appends it to the
 * mirror).
 */
module Store {
  import opened Wrappers
  import opened Strings
  import Numerals
  import opened Calendar
  import opened Accrual
  import Mirror

  /** A `Payment` ledger row.  The transfer time is kept to the day. */
  datatype Payment = Payment(userId: int, amount: int, codes: string, note: string, transferDate: Date)

  /** `ViolationRecord.unpaid_amount()`: the stored amount still owed, never negative. */
  function UnpaidAmount(r: Record): (u: int)
    ensures u >= 0 && u >= r.amountDue - r.amountPaid
    ensures u == 0 || u == r.amountDue - r.amountPaid
  {
    if r.amountDue - r.amountPaid > 0 then r.amountDue - r.amountPaid else 0
  }

  /** The pages' outstanding amount: dynamic due minus paid, clamped at 0. */
  function Outstanding(recs: seq<Record>, defaults: Defaults, r: Record): (o: int)
    ensures o >= 0 && o >= Due(recs, defaults, r) - r.amountPaid
    ensures o == 0 || o == Due(recs, defaults, r) - r.amountPaid
  {
    var d := Due(recs, defaults, r) - r.amountPaid;
    if d > 0 then d else 0
  }

  /** Whether `r` is one of `student`'s records with something left to pay. */
  predicate Owes(recs: seq<Record>, defaults: Defaults, student: string, r: Record) {
    r.student == student && Due(recs, defaults, r) - r.amountPaid > 0
  }

  /** The sum of the positive outstanding amounts of `student`'s records among `part`. */
  function OwedTotal(recs: seq<Record>, defaults: Defaults, student: string, part: seq<Record>): (total: int)
    ensures total >= 0
  {
    if part == [] then 0
    else
      var r := part[|part| - 1];
      OwedTotal(recs, defaults, student, part[..|part| - 1]) +
      (if Owes(recs, defaults, student, r) then Due(recs, defaults, r) - r.amountPaid else 0)
  }

  /** The codes of `student`'s records among `part` with something left to pay. */
  function OwedCodes(recs: seq<Record>, defaults: Defaults, student: string, part: seq<Record>): set<string> {
    set r | r in part && Owes(recs, defaults, student, r) :: r.code
  }

  /** The total is positive exactly when some record of the student owes something. */
  lemma {:induction false} OwedTotalPositive(recs: seq<Record>, defaults: Defaults, student: string, part: seq<Record>)
    ensures OwedTotal(recs, defaults, student, part) > 0 <==> exists r :: r in part && Owes(recs, defaults, student, r)
  {
    if part != [] {
      var init := part[..|part| - 1];
      var last := part[|part| - 1];
      OwedTotalPositive(recs, defaults, student, init);
      assert part == init + [last];
      assert forall r :: r in part <==> r in init || r == last;
    }
  }

  /** Nothing owed means no codes; something owed means at least one code. */
  lemma OwedCodesEmpty(recs: seq<Record>, defaults: Defaults, student: string, part: seq<Record>)
    ensures OwedCodes(recs, defaults, student, part) == {} <==> OwedTotal(recs, defaults, student, part) == 0
  {
    OwedTotalPositive(recs, defaults, student, part);
    if OwedTotal(recs, defaults, student, part) > 0 {
      var r :| r in part && Owes(recs, defaults, student, r);
      assert r.code in OwedCodes(recs, defaults, student, part);
    }
  }

  // ---------------------------------------------------------------------------------
  // Settlement
  // ---------------------------------------------------------------------------------

  /** One record after the settlement of `student`'s debts on `today`. */
  function SettleOne(recs: seq<Record>, defaults: Defaults, student: string, today: Date, r: Record): Record {
    if Owes(recs, defaults, student, r)
    then r.(amountPaid := Due(recs, defaults, r), paymentDate := Some(today))
    else r
  }

  /** All records after the settlement. */
  function Settle(recs: seq<Record>, defaults: Defaults, student: string, today: Date): (recs': seq<Record>)
    ensures |recs'| == |recs|
    ensures forall i :: 0 <= i < |recs| ==> recs'[i] == SettleOne(recs, defaults, student, today, recs[i])
  {
    seq(|recs|, i requires 0 <= i < |recs| => SettleOne(recs, defaults, student, today, recs[i]))
  }

  /** Settlement touches only the chosen student's records that owed something; it pays them
      exactly their dynamic due and dates them today; no record changes its id, student,
      week, code or date. */
  lemma SettleChangesOnlyOwed(recs: seq<Record>, defaults: Defaults, student: string, today: Date, i: int)
    requires 0 <= i < |recs|
    ensures var r' := Settle(recs, defaults, student, today)[i];
            SameCharge(recs[i], r') &&
            (Owes(recs, defaults, student, recs[i]) ==>
               r' == recs[i].(amountPaid := Due(recs, defaults, recs[i]), paymentDate := Some(today))) &&
            (!Owes(recs, defaults, student, recs[i]) ==> r' == recs[i])
  {
  }

  /** The dynamic due of every record is the same after settlement. */
  lemma SettleKeepsDue(recs: seq<Record>, defaults: Defaults, student: string, today: Date, i: int)
    requires 0 <= i < |recs|
    ensures var recs' := Settle(recs, defaults, student, today);
            Due(recs', defaults, recs'[i]) == Due(recs, defaults, recs[i])
  {
    var recs' := Settle(recs, defaults, student, today);
    DueIgnoresPayments(recs, recs', defaults, recs[i], recs'[i]);
  }

  /** After settlement the student owes nothing, and every other student owes what they owed. */
  lemma SettleClears(recs: seq<Record>, defaults: Defaults, student: string, today: Date)
    ensures var recs' := Settle(recs, defaults, student, today);
            forall i :: 0 <= i < |recs| ==>
              !Owes(recs', defaults, student, recs'[i]) &&
              Outstanding(recs', defaults, recs'[i]) ==
                (if recs[i].student == student then 0 else Outstanding(recs, defaults, recs[i]))
  {
    var recs' := Settle(recs, defaults, student, today);
    forall i | 0 <= i < |recs| ensures !Owes(recs', defaults, student, recs'[i]) {
      SettleKeepsDue(recs, defaults, student, today, i);
    }
    forall i | 0 <= i < |recs|
      ensures Outstanding(recs', defaults, recs'[i]) ==
              (if recs[i].student == student then 0 else Outstanding(recs, defaults, recs[i]))
    {
      SettleKeepsDue(recs, defaults, student, today, i);
    }
  }

  /** Settling twice in a row is settling once: the second settlement pays nothing. */
  lemma SettleIdempotent(recs: seq<Record>, defaults: Defaults, student: string, today: Date, today2: Date)
    ensures var recs' := Settle(recs, defaults, student, today);
            Settle(recs', defaults, student, today2) == recs' &&
            OwedTotal(recs', defaults, student, recs') == 0
  {
    var recs' := Settle(recs, defaults, student, today);
    SettleClears(recs, defaults, student, today);
    assert forall r :: r in recs' ==> !Owes(recs', defaults, student, r);
    OwedTotalPositive(recs', defaults, student, recs');
  }

  /** The sum of the paid amounts. */
  function PaidSum(s: seq<Record>): int {
    if s == [] then 0 else PaidSum(s[..|s| - 1]) + s[|s| - 1].amountPaid
  }

  /** Settlement raises the paid amounts by exactly the total the student owed. */
  lemma {:induction false} SettlePaysTotal(recs: seq<Record>, defaults: Defaults, student: string, today: Date, n: int)
    requires 0 <= n <= |recs|
    ensures PaidSum(Settle(recs, defaults, student, today)[..n]) ==
            PaidSum(recs[..n]) + OwedTotal(recs, defaults, student, recs[..n])
  {
    if n > 0 {
      var recs' := Settle(recs, defaults, student, today);
      SettlePaysTotal(recs, defaults, student, today, n - 1);
      assert recs'[..n][..n - 1] == recs'[..n - 1];
      assert recs[..n][..n - 1] == recs[..n - 1];
    }
  }

  /** `ids` unchanged: settlement keeps the primary key. */
  lemma SettleKeepsIds(recs: seq<Record>, defaults: Defaults, student: string, today: Date)
    requires UniqueIds(recs)
    ensures UniqueIds(Settle(recs, defaults, student, today))
  {
  }

  // ---------------------------------------------------------------------------------
  // The amount preview
  // ---------------------------------------------------------------------------------

  /** `calculate_amount_api`: the prospective amount for the week of `date`, or 0 when the
      student, the date or the code is missing (`date` is `None` also when it does not parse). */
  function PreviewAmount(recs: seq<Record>, defaults: Defaults, student: string, date: Option<Date>, code: string): (amount: int)
    requires date.Some? ==> ValidDate(date.value)
    ensures student == "" || code == "" || date.None? ==> amount == 0
    ensures student != "" && code != "" && date.Some? ==>
              amount == ProspectiveAmount(recs, defaults, student, code, CustomWeekOf(date.value))
  {
    if student != "" && code != "" && date.Some? then
      ProspectiveAmount(recs, defaults, student, code, CustomWeekOf(date.value))
    else 0
  }

  /** The preview shown while a violation is being entered is the dynamic due the violation
      gets once it is stored, when it sorts after every existing record of its group (a
      later date, or the same date and a larger id). */
  lemma PreviewMatchesDue(recs: seq<Record>, defaults: Defaults, r: Record)
    requires ValidDate(r.date) && r.week == CustomWeekOf(r.date)
    requires r.student != "" && r.code != ""
    requires r.id !in Ids(recs)
    requires forall x :: x in recs && KeyOf(x) == KeyOf(r) ==> Before(x, r)
    ensures PreviewAmount(recs, defaults, r.student, Some(r.date), r.code) == Due(recs + [r], defaults, r)
  {
    ProspectiveMatchesDue(recs, defaults, r);
  }

  /** `reason if reason else None` on the stripped form field. */
  function OptionalText(input: string): (t: Option<string>)
    ensures t.Some? ==> t.value != "" && t.value == Strip(input)
    ensures t.None? ==> Strip(input) == ""
  {
    var s := Strip(input);
    if s == "" then None else Some(s)
  }

  /** A stored reason or note has no whitespace at either end, so submitting it again
      stores the same text; a field of whitespace only is stored as nothing. */
  lemma OptionalTextStable(input: string)
    ensures var t := OptionalText(input);
            (t.Some? ==> !IsSpace(t.value[0]) && !IsSpace(t.value[|t.value| - 1]) &&
                         OptionalText(t.value) == t) &&
            (t.None? <==> forall i :: 0 <= i < |input| ==> IsSpace(input[i]))
  {
    StripAllSpace(input);
  }

  // ---------------------------------------------------------------------------------
  // The store
  // ---------------------------------------------------------------------------------

  /** The database tables the core touches: violation records and the payment ledger. */
  class InfractionStore {
    var records: seq<Record>
    var payments: seq<Payment>

    /** Ids are the primary key of the records table. */
    ghost predicate Valid()
      reads this
    {
      UniqueIds(records)
    }

    constructor (records: seq<Record>, payments: seq<Payment>)
      requires UniqueIds(records)
      ensures Valid()
      ensures this.records == records && this.payments == payments
    {
      this.records := records;
      this.payments := payments;
    }

    /** The pay page: the total the student still owes under dynamic dues, the sorted codes
        concerned, and the transfer description built from them. */
    method PaySummary(defaults: Defaults, student: string) returns (total: int, codes: seq<string>, message: string)
      requires Valid()
      ensures total == OwedTotal(records, defaults, student, records)
      ensures total > 0 <==> exists r :: r in records && Owes(records, defaults, student, r)
      ensures codes == SortedSet(OwedCodes(records, defaults, student, records))
      ensures StrictlySorted(codes)
      ensures message == Numerals.PaymentMessage(student, total, codes)
    {
      var recs := records;
      var due := ComputeDynamicDue(recs, defaults);
      var codeSet;
      total, codeSet := SumOwed(recs, defaults, student, due);
      OwedTotalPositive(recs, defaults, student, recs);
      codes := SortedSet(codeSet);
      message := Numerals.PaymentMessage(student, total, codes);
    }

    /** `confirm_payment`: every record of the student that still owes something is marked
        paid at its dynamic due and dated `today`; when anything was paid, a ledger row with
        the total, the sorted codes and the transfer description is added and the mirror
        workbook is settled for the student (on the mirror's own `mirrorToday`); otherwise
        nothing changes and the outcome is "nothing to pay".  An empty student name is
        refused before anything is read. */
    method ConfirmPayment(defaults: Defaults, student: string, today: Date, mirrorToday: Date,
                          userId: int, mirror: Mirror.Workbook)
      returns (anyUpdated: bool)
      requires Valid()
      modifies this, mirror
      ensures Valid()
      ensures student == "" ==> !anyUpdated && records == old(records)
      ensures student != "" ==> records == Settle(old(records), defaults, student, today)
      ensures anyUpdated <==> student != "" && OwedTotal(old(records), defaults, student, old(records)) > 0
      ensures var total := OwedTotal(old(records), defaults, student, old(records));
              var codes := SortedSet(OwedCodes(old(records), defaults, student, old(records)));
              payments == old(payments) +
                (if anyUpdated
                 then [Payment(userId, total, Join(codes, ", "), Numerals.PaymentMessage(student, total, codes), today)]
                 else [])
      ensures mirror.sheets ==
              (if anyUpdated then Mirror.SettleBook(old(mirror.sheets), student, mirrorToday) else old(mirror.sheets))
    {
      if student == "" {
        return false;
      }
      ghost var recs := records;
      var due := ComputeDynamicDue(records, defaults);
      var total, codeSet;
      total, codeSet, anyUpdated := MarkPaid(defaults, student, today, due);
      SettleKeepsIds(recs, defaults, student, today);
      if anyUpdated {
        var codes := SortedSet(codeSet);
        var message := Numerals.PaymentMessage(student, total, codes);
        payments := payments + [Payment(userId, total, Join(codes, ", "), message, today)];
        mirror.UpdatePayment(student, mirrorToday);
      }
    }

    /** The record loop of `confirm_payment`: each of the student's records whose dynamic due
        exceeds what it has paid is paid up to that due and dated `today`; the loop sums what
        it paid and collects the codes concerned. */
    method MarkPaid(defaults: Defaults, student: string, today: Date, due: map<int, int>)
      returns (total: int, codeSet: set<string>, anyUpdated: bool)
      requires IsDueMap(due, records, defaults)
      modifies this
      ensures records == Settle(old(records), defaults, student, today)
      ensures payments == old(payments)
      ensures total == OwedTotal(old(records), defaults, student, old(records))
      ensures codeSet == OwedCodes(old(records), defaults, student, old(records))
      ensures anyUpdated <==> total > 0
    {
      var current;
      current, total, codeSet, anyUpdated := SettleRecords(records, defaults, student, today, due);
      records := current;
    }

    /** `add_violation`: with the student and the code given, a record is stored with the
        week of its date, the sheet of its code, the custom amount when one parses and the
        prospective amount otherwise, nothing paid, and the stripped reason and notes (absent
        when blank); the same record is appended to the mirror.  A missing student or code
        stores nothing. */
    method AddViolation(defaults: Defaults, id: int, student: string, date: Date, code: string,
                        reasonInput: string, amountInput: string, notesInput: string, mirror: Mirror.Workbook)
      returns (added: Option<Record>)
      requires Valid() && ValidDate(date)
      requires id !in Ids(records)
      modifies this, mirror
      ensures Valid()
      ensures added.Some? <==> student != "" && code != ""
      ensures added.None? ==> records == old(records) && mirror.sheets == old(mirror.sheets)
      ensures added.Some? ==>
                var week := CustomWeekOf(date);
                added.value == Record(id, SheetFor(code), week, date, student, code, OptionalText(reasonInput),
                                      NewAmount(old(records), defaults, student, code, week, amountInput),
                                      0, None, OptionalText(notesInput)) &&
                records == old(records) + [added.value]
      ensures added.Some? ==>
                var sheet := SheetFor(code);
                mirror.sheets ==
                  (if sheet != "" && sheet in old(mirror.sheets)
                   then old(mirror.sheets)[sheet := Mirror.AppendRow(old(mirror.sheets)[sheet], added.value)]
                   else old(mirror.sheets))
      ensures added.Some? && Accrual.CustomAmount(amountInput).None? ==>
                added.value.amountDue == PreviewAmount(old(records), defaults, student, Some(date), code)
      ensures added.Some? && Accrual.CustomAmount(amountInput).None? &&
              (forall x :: x in old(records) && KeyOf(x) == KeyOf(added.value) ==> Before(x, added.value)) ==>
                added.value.amountDue == Due(records, defaults, added.value)
    {
      if student == "" || code == "" {
        return None;
      }
      var week := CustomWeekOf(date);
      var sheet := SheetFor(code);
      var amount := NewAmount(records, defaults, student, code, week, amountInput);
      var rec := Record(id, sheet, week, date, student, code, OptionalText(reasonInput), amount, 0, None,
                        OptionalText(notesInput));
      if Accrual.CustomAmount(amountInput).None? &&
         (forall x :: x in records && KeyOf(x) == KeyOf(rec) ==> Before(x, rec)) {
        ProspectiveMatchesDue(records, defaults, rec);
      }
      NewIdKeepsUnique(records, rec);
      records := records + [rec];
      mirror.AppendViolation(rec);
      return Some(rec);
    }
  }

  /** The settlement loop's state after `i` steps: the first `i` records are those of
      `target`, the rest are still the originals. */
  ghost predicate SettledUpTo(current: seq<Record>, target: seq<Record>, recs: seq<Record>, i: int) {
    |current| == |recs| && |target| == |recs| && 0 <= i <= |recs| &&
    forall j :: 0 <= j < |recs| ==> current[j] == if j < i then target[j] else recs[j]
  }

  /** One step of the settlement loop: record `i` becomes its target, which leaves the list
      as it is when the target is the original. */
  lemma SettledStep(current: seq<Record>, target: seq<Record>, recs: seq<Record>, i: int)
    requires SettledUpTo(current, target, recs, i) && i < |recs|
    ensures current[i] == recs[i]
    ensures SettledUpTo(current[i := target[i]], target, recs, i + 1)
    ensures target[i] == recs[i] ==> SettledUpTo(current, target, recs, i + 1)
  {
  }

  /** The state of `confirm_payment`'s record loop after `i` records: the settled prefix,
      and the total and codes owed by that prefix. */
  ghost predicate SettleLoopInv(recs: seq<Record>, defaults: Defaults, student: string, target: seq<Record>,
                                current: seq<Record>, total: int, codeSet: set<string>, i: int) {
    SettledUpTo(current, target, recs, i) &&
    total == OwedTotal(recs, defaults, student, recs[..i]) &&
    codeSet == OwedCodes(recs, defaults, student, recs[..i])
  }

  /** One iteration of `confirm_payment`'s record loop, given record `i`'s dynamic due. */
  lemma SettleLoopStep(recs: seq<Record>, defaults: Defaults, student: string, today: Date, target: seq<Record>,
                       current: seq<Record>, total: int, codeSet: set<string>, i: int, dynDue: int)
    requires SettleLoopInv(recs, defaults, student, target, current, total, codeSet, i) && i < |recs|
    requires target == Settle(recs, defaults, student, today) && dynDue == Due(recs, defaults, recs[i])
    ensures var r := recs[i];
            var owes := r.student == student && dynDue - r.amountPaid > 0;
            SettleLoopInv(recs, defaults, student, target,
                          if owes then current[i := r.(amountPaid := dynDue, paymentDate := Some(today))] else current,
                          if owes then total + (dynDue - r.amountPaid) else total,
                          if owes then codeSet + {r.code} else codeSet,
                          i + 1)
  {
    SettledStep(current, target, recs, i);
    OwedStepWith(recs, defaults, student, i, dynDue);
    SettleAtWith(recs, defaults, student, today, i, dynDue);
  }

  /** The state of the record loop before its first iteration. */
  lemma SettleLoopInit(recs: seq<Record>, defaults: Defaults, student: string, target: seq<Record>)
    requires |target| == |recs|
    ensures SettleLoopInv(recs, defaults, student, target, recs, 0, {}, 0)
  {
    assert recs[..0] == [];
  }

  /** The state of the record loop after its last iteration. */
  lemma SettleLoopDone(recs: seq<Record>, defaults: Defaults, student: string, target: seq<Record>,
                       current: seq<Record>, total: int, codeSet: set<string>)
    requires SettleLoopInv(recs, defaults, student, target, current, total, codeSet, |recs|)
    ensures current == target
    ensures total == OwedTotal(recs, defaults, student, recs)
    ensures codeSet == OwedCodes(recs, defaults, student, recs)
  {
    SettledAll(current, target, recs);
    assert recs[..|recs|] == recs;
  }

  /** At the end of the settlement loop the list is the target. */
  lemma SettledAll(current: seq<Record>, target: seq<Record>, recs: seq<Record>)
    requires SettledUpTo(current, target, recs, |recs|)
    ensures current == target
  {
  }

  /** The record loop of `confirm_payment` on the record list `recs`: the settled list, the
      sum paid, the codes concerned and whether any record changed. */
  method SettleRecords(recs: seq<Record>, defaults: Defaults, student: string, today: Date, due: map<int, int>)
    returns (current: seq<Record>, total: int, codeSet: set<string>, anyUpdated: bool)
    requires IsDueMap(due, recs, defaults)
    ensures current == Settle(recs, defaults, student, today)
    ensures total == OwedTotal(recs, defaults, student, recs)
    ensures codeSet == OwedCodes(recs, defaults, student, recs)
    ensures anyUpdated <==> total > 0
  {
    ghost var target := Settle(recs, defaults, student, today);
    current := recs;
    total := 0;
    codeSet := {};
    anyUpdated := false;
    var i := 0;
    SettleLoopInit(recs, defaults, student, target);
    while i < |recs|
      invariant 0 <= i <= |recs|
      invariant SettleLoopInv(recs, defaults, student, target, current, total, codeSet, i)
      invariant anyUpdated <==> total > 0
    {
      var rec := recs[i];
      DueAt(due, recs, defaults, i);
      var dynDue := if rec.id in due then due[rec.id] else rec.amountDue;
      SettleLoopStep(recs, defaults, student, today, target, current, total, codeSet, i, dynDue);
      var outstanding := dynDue - rec.amountPaid;
      if rec.student == student && outstanding > 0 {
        total := total + outstanding;
        codeSet := codeSet + {rec.code};
        current := current[i := rec.(amountPaid := dynDue, paymentDate := Some(today))];
        anyUpdated := true;
      }
      i := i + 1;
    }
    assert recs[..|recs|] == recs;
    SettleLoopDone(recs, defaults, student, target, current, total, codeSet);
  }

  /** The pay page's loop over the records: the sum of the student's positive outstanding
      amounts under the dynamic dues `due`, and the codes of the records concerned. */
  method SumOwed(recs: seq<Record>, defaults: Defaults, student: string, due: map<int, int>)
    returns (total: int, codeSet: set<string>)
    requires IsDueMap(due, recs, defaults)
    ensures total == OwedTotal(recs, defaults, student, recs)
    ensures codeSet == OwedCodes(recs, defaults, student, recs)
  {
    total := 0;
    codeSet := {};
    var i := 0;
    while i < |recs|
      invariant 0 <= i <= |recs|
      invariant total == OwedTotal(recs, defaults, student, recs[..i])
      invariant codeSet == OwedCodes(recs, defaults, student, recs[..i])
    {
      var rec := recs[i];
      DueAt(due, recs, defaults, i);
      var dynDue := if rec.id in due then due[rec.id] else rec.amountDue;
      OwedStepWith(recs, defaults, student, i, dynDue);
      if rec.student == student {
        var outstanding := dynDue - rec.amountPaid;
        if outstanding > 0 {
          total := total + outstanding;
          codeSet := codeSet + {rec.code};
        }
      }
      i := i + 1;
    }
    assert recs[..|recs|] == recs;
  }

  /** The map from the dynamic-due loop has the entry of record `i`. */
  lemma DueAt(due: map<int, int>, recs: seq<Record>, defaults: Defaults, i: int)
    requires IsDueMap(due, recs, defaults) && 0 <= i < |recs|
    ensures recs[i].id in due && due[recs[i].id] == Due(recs, defaults, recs[i])
  {
    assert recs[i] in recs;
  }

  /** One step of the totals loop, with record `i`'s dynamic due already looked up. */
  lemma OwedStepWith(recs: seq<Record>, defaults: Defaults, student: string, i: int, dynDue: int)
    requires 0 <= i < |recs| && dynDue == Due(recs, defaults, recs[i])
    ensures var owes := recs[i].student == student && dynDue - recs[i].amountPaid > 0;
            OwedTotal(recs, defaults, student, recs[..i + 1]) ==
              OwedTotal(recs, defaults, student, recs[..i]) + (if owes then dynDue - recs[i].amountPaid else 0) &&
            OwedCodes(recs, defaults, student, recs[..i + 1]) ==
              OwedCodes(recs, defaults, student, recs[..i]) + (if owes then {recs[i].code} else {})
  {
    OwedStep(recs, defaults, student, i);
  }

  /** Record `i` after the settlement, with its dynamic due already looked up. */
  lemma SettleAtWith(recs: seq<Record>, defaults: Defaults, student: string, today: Date, i: int, dynDue: int)
    requires 0 <= i < |recs| && dynDue == Due(recs, defaults, recs[i])
    ensures Settle(recs, defaults, student, today)[i] ==
            if recs[i].student == student && dynDue - recs[i].amountPaid > 0
            then recs[i].(amountPaid := dynDue, paymentDate := Some(today))
            else recs[i]
  {
  }

  /** One step of the totals loop. */
  lemma OwedStep(recs: seq<Record>, defaults: Defaults, student: string, i: int)
    requires 0 <= i < |recs|
    ensures OwedTotal(recs, defaults, student, recs[..i + 1]) ==
            OwedTotal(recs, defaults, student, recs[..i]) +
            (if Owes(recs, defaults, student, recs[i]) then Due(recs, defaults, recs[i]) - recs[i].amountPaid else 0)
    ensures OwedCodes(recs, defaults, student, recs[..i + 1]) ==
            OwedCodes(recs, defaults, student, recs[..i]) +
            (if Owes(recs, defaults, student, recs[i]) then {recs[i].code} else {})
  {
    assert recs[..i + 1][..i] == recs[..i];
    assert recs[..i + 1] == recs[..i] + [recs[i]];
  }

  lemma NewIdKeepsUnique(recs: seq<Record>, r: Record)
    requires UniqueIds(recs) && r.id !in Ids(recs)
    ensures UniqueIds(recs + [r])
  {
    forall i | 0 <= i < |recs| ensures recs[i].id != r.id {
      assert recs[i] in recs;
    }
  }
}
