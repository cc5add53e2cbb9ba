/**
 * Fine accrual: the violation record, the default amount of each error code, and the
 * "dynamic due" rule the pages use in place of the stored `amount_due`.  Records are
 * grouped by (student, week, error code); within a group sorted by (date, id), the record
 * at zero-based position i owes `default + 10000 * i` when the code is VP01 (late) or
 * VP06 (unexcused absence), and the default otherwise.  The same rule, evaluated before
 * a record exists, gives the amount proposed when a violation is added.
 */
module Accrual {
  import opened Wrappers
  import opened Calendar
  import Strings
  import Numerals

  /** A `ViolationRecord` row. */
  datatype Record = Record(
    id: int,
    sheet: string,
    week: int,
    date: Date,
    student: string,
    code: string,
    reason: Option<string>,
    amountDue: int,
    amountPaid: int,
    paymentDate: Option<Date>,
    notes: Option<string>)

  /** `{e.code: e.default_amount for e in ErrorCode.query.all()}`. */
  type Defaults = map<string, int>

  /** The surcharge for each further occurrence of an escalating code in one week. */
  const Step: int := 10000

  /** The codes whose fine grows with repetition: VP01 and VP06. */
  predicate Escalating(code: string) {
    code == "VP01" || code == "VP06"
  }

  /** `error_defaults.get(code, 0)`. */
  function Base(defaults: Defaults, code: string): int {
    if code in defaults then defaults[code] else 0
  }

  /** The grouping key (student_name, week, error_code). */
  datatype GroupKey = GroupKey(student: string, week: int, code: string)

  function KeyOf(r: Record): GroupKey {
    GroupKey(r.student, r.week, r.code)
  }

  /** The sort key order: `(a.date, a.id) < (b.date, b.id)` as Python tuples. */
  predicate Before(a: Record, b: Record) {
    DateLess(a.date, b.date) || (a.date == b.date && a.id < b.id)
  }

  /** Ids are a primary key. */
  predicate UniqueIds(recs: seq<Record>) {
    forall i, j :: 0 <= i < j < |recs| ==> recs[i].id != recs[j].id
  }

  function Ids(recs: seq<Record>): set<int> {
    set r | r in recs :: r.id
  }

  // ---------------------------------------------------------------------------------
  // The specification of dynamic due
  // ---------------------------------------------------------------------------------

  /** Ids of the members of `r`'s group that sort before `r`. */
  function EarlierIds(recs: seq<Record>, r: Record): set<int> {
    set x | x in recs && KeyOf(x) == KeyOf(r) && Before(x, r) :: x.id
  }

  /** The zero-based position of `r` in its group sorted by (date, id). */
  function Position(recs: seq<Record>, r: Record): nat {
    |EarlierIds(recs, r)|
  }

  /** The dynamic due amount of `r` among `recs`. */
  function Due(recs: seq<Record>, defaults: Defaults, r: Record): int {
    Base(defaults, r.code) + (if Escalating(r.code) then Step * Position(recs, r) else 0)
  }

  // ---------------------------------------------------------------------------------
  // The order on records
  // ---------------------------------------------------------------------------------

  lemma BeforeOrder(a: Record, b: Record, c: Record)
    ensures !Before(a, a)
    ensures Before(a, b) ==> !Before(b, a)
    ensures Before(a, b) && Before(b, c) ==> Before(a, c)
    ensures a.id != b.id ==> Before(a, b) || Before(b, a)
  {
  }

  /** Two records of a sequence with unique ids that share an id are the same record. */
  lemma IdDetermines(recs: seq<Record>, a: Record, b: Record)
    requires UniqueIds(recs)
    requires a in recs && b in recs && a.id == b.id
    ensures a == b
  {
    var i :| 0 <= i < |recs| && recs[i] == a;
    var j :| 0 <= j < |recs| && recs[j] == b;
  }

  lemma {:induction false} IdsCardinality(s: seq<Record>)
    requires UniqueIds(s)
    ensures |Ids(s)| == |s|
  {
    if s != [] {
      TailIdsFresh(s);
      IdsCardinality(s[1..]);
      assert Ids(s) == {s[0].id} + Ids(s[1..]);
    }
  }

  // ---------------------------------------------------------------------------------
  // `sorted(rec_list, key=lambda r: (r.date, r.id))`
  // ---------------------------------------------------------------------------------

  predicate SortedByDateId(s: seq<Record>) {
    forall i, j :: 0 <= i < j < |s| ==> Before(s[i], s[j])
  }

  /** The first element of a sorted sequence comes before every later one. */
  lemma FirstBeforeRest(x: Record, s: seq<Record>)
    requires SortedByDateId([x] + s)
    ensures forall y :: y in s ==> Before(x, y)
  {
    forall y | y in s ensures Before(x, y) {
      var j :| 0 <= j < |s| && s[j] == y;
      assert ([x] + s)[0] == x && ([x] + s)[j + 1] == y;
    }
  }

  /** A record put in front of a sequence it comes before keeps it sorted. */
  lemma ConsSorted(x: Record, s: seq<Record>)
    requires SortedByDateId(s)
    requires forall y :: y in s ==> Before(x, y)
    ensures SortedByDateId([x] + s)
  {
    forall i, j | 0 <= i < j < |[x] + s| ensures Before(([x] + s)[i], ([x] + s)[j]) {
      assert ([x] + s)[j] == s[j - 1];
      if i > 0 { assert ([x] + s)[i] == s[i - 1]; }
    }
  }

  function Insert(x: Record, s: seq<Record>): (r: seq<Record>)
    requires SortedByDateId(s)
    requires forall y :: y in s ==> y.id != x.id
    ensures multiset(r) == multiset(s) + multiset{x}
    ensures forall y :: y in r <==> y == x || y in s
    ensures SortedByDateId(r)
  {
    if s == [] then [x]
    else if Before(x, s[0]) then
      assert s == [s[0]] + s[1..];
      FirstBeforeRest(s[0], s[1..]);
      assert forall y :: y in s ==> Before(x, y) by {
        forall y | y in s ensures Before(x, y) {
          if y != s[0] { BeforeOrder(x, s[0], y); }
        }
      }
      ConsSorted(x, s);
      [x] + s
    else
      var t := Insert(x, s[1..]);
      assert s == [s[0]] + s[1..];
      BeforeOrder(s[0], x, x);
      FirstBeforeRest(s[0], s[1..]);
      ConsSorted(s[0], t);
      [s[0]] + t
  }

  /** Python's `sorted` with the (date, id) key; the ids are distinct, so no two records
      tie and the result is the one ascending arrangement. */
  function SortByDateId(s: seq<Record>): (r: seq<Record>)
    requires UniqueIds(s)
    ensures multiset(r) == multiset(s)
    ensures forall y :: y in r <==> y in s
    ensures SortedByDateId(r)
  {
    if s == [] then []
    else
      TailIdsFresh(s);
      var t := SortByDateId(s[1..]);
      Insert(s[0], t)
  }

  /** Without its first record the list still has distinct ids, none of them the first's. */
  lemma TailIdsFresh(s: seq<Record>)
    requires UniqueIds(s) && s != []
    ensures UniqueIds(s[1..])
    ensures forall y :: y in s[1..] ==> y.id != s[0].id
    ensures multiset(s) == multiset(s[1..]) + multiset{s[0]}
    ensures forall y :: y in s <==> y == s[0] || y in s[1..]
  {
    forall y | y in s[1..] ensures y.id != s[0].id {
      var j :| 0 <= j < |s[1..]| && s[1..][j] == y;
      assert s[j + 1] == y;
    }
    assert s == [s[0]] + s[1..];
  }

  // ---------------------------------------------------------------------------------
  // The grouping
  // ---------------------------------------------------------------------------------

  /** `per_key[k]` after the records of `s` were appended in order. */
  function GroupOf(s: seq<Record>, k: GroupKey): (g: seq<Record>)
    ensures forall x :: x in g <==> x in s && KeyOf(x) == k
  {
    if s == [] then []
    else
      var init := s[..|s| - 1];
      var last := s[|s| - 1];
      assert s == init + [last];
      GroupOf(init, k) + (if KeyOf(last) == k then [last] else [])
  }

  lemma {:induction false} GroupOfUnique(s: seq<Record>, k: GroupKey)
    requires UniqueIds(s)
    ensures UniqueIds(GroupOf(s, k))
  {
    if s != [] {
      var init := s[..|s| - 1];
      var last := s[|s| - 1];
      GroupOfUnique(init, k);
      var g := GroupOf(init, k);
      forall y | y in g ensures y.id != last.id {
        var i :| 0 <= i < |init| && init[i] == y;
        assert s[i] == y;
      }
    }
  }

  function KeysOf(s: seq<Record>): set<GroupKey> {
    set r | r in s :: KeyOf(r)
  }

  /** In a group sorted by (date, id), the record at index j has exactly j group members
      before it. */
  lemma PositionInSortedGroup(recs: seq<Record>, sorted: seq<Record>, j: int)
    requires UniqueIds(recs)
    requires SortedByDateId(sorted)
    requires 0 <= j < |sorted|
    requires forall x :: x in sorted <==> x in recs && KeyOf(x) == KeyOf(sorted[j])
    ensures Position(recs, sorted[j]) == j
  {
    var r := sorted[j];
    var prefix := sorted[..j];
    assert EarlierIds(recs, r) == Ids(prefix) by {
      forall id | id in EarlierIds(recs, r) ensures id in Ids(prefix) {
        var x :| x in recs && KeyOf(x) == KeyOf(r) && Before(x, r) && x.id == id;
        var i :| 0 <= i < |sorted| && sorted[i] == x;
        if i >= j {
          BeforeOrder(x, r, x);
          assert false;
        }
        assert prefix[i] == x;
      }
      forall id | id in Ids(prefix) ensures id in EarlierIds(recs, r) {
        var x :| x in prefix && x.id == id;
        var i :| 0 <= i < |prefix| && prefix[i] == x;
        assert sorted[i] == x;
        assert x in recs && Before(x, r);
      }
    }
    assert UniqueIds(prefix) by {
      forall a, b | 0 <= a < b < |prefix| ensures prefix[a].id != prefix[b].id {
        assert Before(sorted[a], sorted[b]);
        BeforeOrder(sorted[a], sorted[b], sorted[b]);
        if prefix[a].id == prefix[b].id {
          IdDetermines(recs, sorted[a], sorted[b]);
        }
      }
    }
    IdsCardinality(prefix);
  }

  /** Groups with their members in input order, as the first loop builds them. */
  ghost predicate IsGrouping(groups: map<GroupKey, seq<Record>>, s: seq<Record>) {
    groups.Keys == KeysOf(s) && forall k :: k in groups ==> groups[k] == GroupOf(s, k)
  }

  /** The record set seen as a dynamic-due map: one entry per id, each the dynamic due. */
  ghost predicate IsDueMap(due: map<int, int>, recs: seq<Record>, defaults: Defaults) {
    due.Keys == Ids(recs) && forall r :: r in recs ==> due[r.id] == Due(recs, defaults, r)
  }

  /** The dynamic-due block: group the records by (student, week, code), sort each group
      by (date, id) and number its members from 0.  Every record gets exactly one entry,
      so the `.get(r.id, r.amount_due)` fallback is never taken for these records. */
  method ComputeDynamicDue(recs: seq<Record>, defaults: Defaults) returns (due: map<int, int>)
    requires UniqueIds(recs)
    ensures IsDueMap(due, recs, defaults)
  {
    var groups := GroupByKey(recs);
    due := map[];
    StartNumbering(groups, recs, defaults);
    var pending := groups.Keys;
    while pending != {}
      invariant pending <= groups.Keys
      invariant DoneExcept(due, recs, defaults, pending)
      decreases |pending|
    {
      var k :| k in pending;
      StartGroup(groups, recs, defaults, due, pending, k);
      var sorted := SortByDateId(groups[k]);
      due := NumberGroup(due, recs, defaults, pending, k, sorted);
      pending := pending - {k};
    }
    AllDone(due, recs, defaults);
  }

  /** The first loop: `per_key[(student, week, code)].append(rec)` for every record. */
  method GroupByKey(recs: seq<Record>) returns (groups: map<GroupKey, seq<Record>>)
    ensures IsGrouping(groups, recs)
  {
    groups := map[];
    var i := 0;
    NoGroups(recs);
    while i < |recs|
      invariant 0 <= i <= |recs|
      invariant IsGrouping(groups, recs[..i])
    {
      GroupingStep(groups, recs, i);
      groups := AddToGroup(groups, recs[i]);
      i := i + 1;
    }
    AllGrouped(groups, recs);
  }

  /** The inner loop: `for idx, rr in enumerate(sorted_list)` records
      `base + 10000 * idx` (escalating codes) or `base` for `rr.id`. */
  method NumberGroup(due: map<int, int>, recs: seq<Record>, defaults: Defaults,
                     pending: set<GroupKey>, k: GroupKey, sorted: seq<Record>)
    returns (due': map<int, int>)
    requires GroupPartlyDone(due, recs, defaults, pending, k, sorted, 0)
    ensures DoneExcept(due', recs, defaults, pending - {k})
  {
    var base := Base(defaults, k.code);
    due' := due;
    var idx := 0;
    while idx < |sorted|
      invariant 0 <= idx <= |sorted|
      invariant GroupPartlyDone(due', recs, defaults, pending, k, sorted, idx)
    {
      PositionInSortedGroup(recs, sorted, idx);
      var amount := if Escalating(k.code) then base + Step * idx else base;
      NumberingStep(due', recs, defaults, pending, k, sorted, idx, amount);
      due' := due'[sorted[idx].id := amount];
      idx := idx + 1;
    }
    GroupDone(due', recs, defaults, pending, k, sorted);
  }

  lemma GroupOfSnoc(s: seq<Record>, r: Record, k: GroupKey)
    ensures GroupOf(s + [r], k) == GroupOf(s, k) + (if KeyOf(r) == k then [r] else [])
  {
    assert (s + [r])[..|s|] == s;
  }

  lemma {:induction false} GroupOfAbsent(s: seq<Record>, k: GroupKey)
    requires k !in KeysOf(s)
    ensures GroupOf(s, k) == []
  {
    if s != [] {
      var init := s[..|s| - 1];
      assert s == init + [s[|s| - 1]];
      assert KeysOf(init) <= KeysOf(s);
      assert KeyOf(s[|s| - 1]) in KeysOf(s);
      GroupOfAbsent(init, k);
    }
  }

  lemma KeysOfSnoc(s: seq<Record>, r: Record)
    ensures KeysOf(s + [r]) == KeysOf(s) + {KeyOf(r)}
  {
    forall k | k in KeysOf(s + [r]) ensures k in KeysOf(s) + {KeyOf(r)} {
      var x :| x in s + [r] && KeyOf(x) == k;
      if x != r { assert x in s; }
    }
    forall k | k in KeysOf(s) ensures k in KeysOf(s + [r]) {
      var x :| x in s && KeyOf(x) == k;
      assert x in s + [r];
    }
    assert r in s + [r];
  }

  /** Before the grouping loop the empty map groups the empty prefix. */
  lemma NoGroups(recs: seq<Record>)
    ensures IsGrouping(map[], recs[..0])
  {
    assert recs[..0] == [];
  }

  /** After the grouping loop the map groups all the records. */
  lemma AllGrouped(groups: map<GroupKey, seq<Record>>, recs: seq<Record>)
    requires IsGrouping(groups, recs[..|recs|])
    ensures IsGrouping(groups, recs)
  {
    assert recs[..|recs|] == recs;
  }

  /** `per_key[key(r)].append(r)` on a defaultdict of lists. */
  function AddToGroup(groups: map<GroupKey, seq<Record>>, r: Record): map<GroupKey, seq<Record>> {
    groups[KeyOf(r) := (if KeyOf(r) in groups then groups[KeyOf(r)] else []) + [r]]
  }

  /** One step of the grouping loop, `per_key[key(recs[i])].append(recs[i])`, keeps the
      map a grouping of the records seen so far. */
  lemma GroupingStep(groups: map<GroupKey, seq<Record>>, recs: seq<Record>, i: int)
    requires 0 <= i < |recs|
    requires IsGrouping(groups, recs[..i])
    ensures IsGrouping(AddToGroup(groups, recs[i]), recs[..i + 1])
  {
    var s, r := recs[..i], recs[i];
    var members := if KeyOf(r) in groups then groups[KeyOf(r)] else [];
    assert recs[..i + 1] == s + [r];
    assert members == GroupOf(s, KeyOf(r)) by {
      GroupMembers(groups, s, KeyOf(r));
    }
    GroupingSnoc(groups, s, r, members);
  }

  /** A grouping holds each key's members, and nothing for a key not yet seen. */
  lemma GroupMembers(groups: map<GroupKey, seq<Record>>, s: seq<Record>, k: GroupKey)
    requires IsGrouping(groups, s)
    ensures (if k in groups then groups[k] else []) == GroupOf(s, k)
  {
    if k !in groups {
      GroupOfAbsent(s, k);
    }
  }

  /** Appending `r` to its own group, whose members so far are `g`, keeps the map a
      grouping of the records with `r` added. */
  lemma GroupingSnoc(groups: map<GroupKey, seq<Record>>, s: seq<Record>, r: Record, g: seq<Record>)
    requires IsGrouping(groups, s) && g == GroupOf(s, KeyOf(r))
    ensures IsGrouping(groups[KeyOf(r) := g + [r]], s + [r])
  {
    var k := KeyOf(r);
    var groups' := groups[k := g + [r]];
    forall k' | k' in groups' ensures groups'[k'] == GroupOf(s + [r], k') {
      GroupOfSnoc(s, r, k');
      if k' != k {
        assert groups'[k'] == groups[k'] == GroupOf(s, k');
        assert GroupOf(s, k') + [] == GroupOf(s, k');
      }
    }
    KeysOfSnoc(s, r);
    assert groups'.Keys == groups.Keys + {k};
  }

  /** Before the numbering loop no group is done and the map is empty. */
  lemma StartNumbering(groups: map<GroupKey, seq<Record>>, recs: seq<Record>, defaults: Defaults)
    requires IsGrouping(groups, recs)
    ensures DoneExcept(map[], recs, defaults, groups.Keys)
  {
    assert (set r | r in recs && KeyOf(r) !in groups.Keys :: r.id) == {};
  }

  /** The sorted members of group `k` are exactly the records with key `k`. */
  lemma StartGroup(groups: map<GroupKey, seq<Record>>, recs: seq<Record>, defaults: Defaults,
                   due: map<int, int>, pending: set<GroupKey>, k: GroupKey)
    requires UniqueIds(recs)
    requires IsGrouping(groups, recs)
    requires DoneExcept(due, recs, defaults, pending)
    requires k in pending && pending <= groups.Keys
    ensures UniqueIds(groups[k])
    ensures GroupPartlyDone(due, recs, defaults, pending, k, SortByDateId(groups[k]), 0)
  {
    GroupOfUnique(recs, k);
    var sorted := SortByDateId(groups[k]);
    assert sorted[..0] == [];
    assert Ids(sorted[..0]) == {};
  }

  /** Once no group is pending, every record has its entry. */
  lemma AllDone(due: map<int, int>, recs: seq<Record>, defaults: Defaults)
    requires DoneExcept(due, recs, defaults, {})
    ensures IsDueMap(due, recs, defaults)
  {
    assert Ids(recs) == set r | r in recs && KeyOf(r) !in {} :: r.id;
  }

  /** Every record whose group is no longer pending has its dynamic due in `due`, and no
      other id has an entry. */
  ghost predicate DoneExcept(due: map<int, int>, recs: seq<Record>, defaults: Defaults, pending: set<GroupKey>) {
    due.Keys == (set r | r in recs && KeyOf(r) !in pending :: r.id) &&
    forall r :: r in recs && KeyOf(r) !in pending ==> due[r.id] == Due(recs, defaults, r)
  }

  /** `DoneExcept`, and the first `idx` members of the sorted group `k` numbered too. */
  ghost predicate GroupPartlyDone(due: map<int, int>, recs: seq<Record>, defaults: Defaults,
                            pending: set<GroupKey>, k: GroupKey, sorted: seq<Record>, idx: int)
    requires 0 <= idx <= |sorted|
  {
    UniqueIds(recs) && k in pending && SortedByDateId(sorted) &&
    (forall x :: x in sorted <==> x in recs && KeyOf(x) == k) &&
    due.Keys == (set r | r in recs && KeyOf(r) !in pending :: r.id) + Ids(sorted[..idx]) &&
    (forall r :: r in recs && KeyOf(r) !in pending ==> due[r.id] == Due(recs, defaults, r)) &&
    (forall j :: 0 <= j < idx ==> due[sorted[j].id] == Due(recs, defaults, sorted[j]))
  }

  /** One more member of a prefix adds its id to the prefix's ids. */
  lemma IdsOfLongerPrefix(s: seq<Record>, idx: int)
    requires 0 <= idx < |s|
    ensures Ids(s[..idx + 1]) == Ids(s[..idx]) + {s[idx].id}
  {
    assert s[..idx + 1] == s[..idx] + [s[idx]];
  }

  /** `dynamic_due_map[rr.id] = amount` for the member at index `idx` keeps the numbering
      invariant, because ids of other groups and of earlier members differ from `rr.id`. */
  lemma NumberingStep(due: map<int, int>, recs: seq<Record>, defaults: Defaults,
                      pending: set<GroupKey>, k: GroupKey, sorted: seq<Record>, idx: int, amount: int)
    requires 0 <= idx < |sorted|
    requires GroupPartlyDone(due, recs, defaults, pending, k, sorted, idx)
    requires amount == Due(recs, defaults, sorted[idx])
    ensures GroupPartlyDone(due[sorted[idx].id := amount], recs, defaults, pending, k, sorted, idx + 1)
  {
    var rr := sorted[idx];
    var due' := due[rr.id := amount];
    IdsOfLongerPrefix(sorted, idx);
    forall r | r in recs && KeyOf(r) !in pending ensures due'[r.id] == Due(recs, defaults, r) {
      if r.id == rr.id { IdDetermines(recs, r, rr); }
    }
    forall j | 0 <= j < idx ensures due'[sorted[j].id] == Due(recs, defaults, sorted[j]) {
      if sorted[j].id == rr.id {
        IdDetermines(recs, sorted[j], rr);
        BeforeOrder(rr, rr, rr);
      }
    }
  }

  /** After the last member of group `k` the group is no longer pending. */
  lemma GroupDone(due: map<int, int>, recs: seq<Record>, defaults: Defaults,
                  pending: set<GroupKey>, k: GroupKey, sorted: seq<Record>)
    requires GroupPartlyDone(due, recs, defaults, pending, k, sorted, |sorted|)
    ensures DoneExcept(due, recs, defaults, pending - {k})
  {
    assert sorted[..|sorted|] == sorted;
    assert (set r | r in recs && KeyOf(r) !in pending - {k} :: r.id)
        == (set r | r in recs && KeyOf(r) !in pending :: r.id) + Ids(sorted);
    forall r | r in recs && KeyOf(r) !in pending - {k} ensures due[r.id] == Due(recs, defaults, r) {
      if KeyOf(r) == k {
        var j :| 0 <= j < |sorted| && sorted[j] == r;
      }
    }
  }

  // ---------------------------------------------------------------------------------
  // Properties of dynamic due
  // ---------------------------------------------------------------------------------

  /** The members of group `k` in (date, id) order. */
  function SortedGroup(recs: seq<Record>, k: GroupKey): (g: seq<Record>)
    requires UniqueIds(recs)
    ensures forall x :: x in g <==> x in recs && KeyOf(x) == k
    ensures SortedByDateId(g)
  {
    GroupOfUnique(recs, k);
    SortByDateId(GroupOf(recs, k))
  }

  /** The record at position i of its sorted group owes `default + 10000 * i` for VP01 and
      VP06, so consecutive members differ by exactly 10000; any other code owes the
      default at every position, and 0 when the code has no default. */
  lemma GroupDues(recs: seq<Record>, defaults: Defaults, k: GroupKey)
    requires UniqueIds(recs)
    ensures var g := SortedGroup(recs, k);
            forall i :: 0 <= i < |g| ==>
              Due(recs, defaults, g[i]) == Base(defaults, k.code) + (if Escalating(k.code) then Step * i else 0)
    ensures var g := SortedGroup(recs, k);
            Escalating(k.code) ==>
              forall i :: 0 <= i < |g| - 1 ==> Due(recs, defaults, g[i + 1]) == Due(recs, defaults, g[i]) + Step
    ensures var g := SortedGroup(recs, k);
            !Escalating(k.code) ==>
              forall i :: 0 <= i < |g| ==> Due(recs, defaults, g[i]) == (if k.code in defaults then defaults[k.code] else 0)
  {
    var g := SortedGroup(recs, k);
    forall i | 0 <= i < |g|
      ensures Due(recs, defaults, g[i]) == Base(defaults, k.code) + (if Escalating(k.code) then Step * i else 0)
    {
      assert KeyOf(g[i]) == k;
      PositionInSortedGroup(recs, g, i);
    }
  }

  /** A later member of an escalating group owes at least 10000 more than an earlier one. */
  lemma DueGrowsWithinGroup(recs: seq<Record>, defaults: Defaults, a: Record, b: Record)
    requires UniqueIds(recs)
    requires a in recs && b in recs && KeyOf(a) == KeyOf(b) && Escalating(a.code)
    requires Before(a, b)
    ensures Due(recs, defaults, b) >= Due(recs, defaults, a) + Step
  {
    var ea := EarlierIds(recs, a);
    var eb := EarlierIds(recs, b);
    assert ea + {a.id} <= eb by {
      forall id | id in ea ensures id in eb {
        var x :| x in recs && KeyOf(x) == KeyOf(a) && Before(x, a) && x.id == id;
        BeforeOrder(x, a, b);
      }
    }
    assert a.id !in ea by {
      forall x | x in recs && KeyOf(x) == KeyOf(a) && Before(x, a) ensures x.id != a.id {
        if x.id == a.id {
          IdDetermines(recs, x, a);
          BeforeOrder(x, a, a);
        }
      }
    }
    assert |ea + {a.id}| == |ea| + 1;
    assert |ea + {a.id}| <= |eb| by {
      SubsetCardinality(ea + {a.id}, eb);
    }
  }

  lemma SubsetCardinality(a: set<int>, b: set<int>)
    requires a <= b
    ensures |a| <= |b|
  {
    assert b == a + (b - a);
  }

  /** The fields a payment changes (`amount_paid`, `payment_date`) are the only ones that
      may differ between `a` and `b`. */
  predicate SameCharge(a: Record, b: Record) {
    a.id == b.id && a.date == b.date && KeyOf(a) == KeyOf(b)
  }

  /** Dynamic due depends on the student, week, code, date and id of the records and on the
      defaults, never on what has been paid. */
  lemma DueIgnoresPayments(recs: seq<Record>, recs': seq<Record>, defaults: Defaults, r: Record, r': Record)
    requires |recs| == |recs'|
    requires forall i :: 0 <= i < |recs| ==> SameCharge(recs[i], recs'[i])
    requires SameCharge(r, r')
    ensures Due(recs', defaults, r') == Due(recs, defaults, r)
  {
    assert EarlierIds(recs, r) == EarlierIds(recs', r') by {
      forall id | id in EarlierIds(recs, r) ensures id in EarlierIds(recs', r') {
        var x :| x in recs && KeyOf(x) == KeyOf(r) && Before(x, r) && x.id == id;
        var i :| 0 <= i < |recs| && recs[i] == x;
        assert recs'[i] in recs';
      }
      forall id | id in EarlierIds(recs', r') ensures id in EarlierIds(recs, r) {
        var x :| x in recs' && KeyOf(x) == KeyOf(r') && Before(x, r') && x.id == id;
        var i :| 0 <= i < |recs'| && recs'[i] == x;
        assert recs[i] in recs;
      }
    }
  }

  /** A sub-collection that holds the whole group of `r` gives `r` the same dynamic due as the
      full collection. */
  lemma GroupClosedViewAgrees(recs: seq<Record>, sub: seq<Record>, defaults: Defaults, r: Record)
    requires forall x :: x in sub ==> x in recs
    requires forall x :: x in recs && KeyOf(x) == KeyOf(r) ==> x in sub
    ensures Due(sub, defaults, r) == Due(recs, defaults, r)
  {
    assert EarlierIds(sub, r) == EarlierIds(recs, r);
  }

  /** The records of one student in one week, in their original order: what the weekly
      summary groups by code. */
  function StudentWeek(recs: seq<Record>, student: string, week: int): (sub: seq<Record>)
    ensures forall x :: x in sub <==> x in recs && x.student == student && x.week == week
  {
    if recs == [] then []
    else
      (if recs[0].student == student && recs[0].week == week then [recs[0]] else []) +
      StudentWeek(recs[1..], student, week)
  }

  /** The weekly summary's own numbering (per student, then per code, among that week's
      records) gives every record the same dynamic due as the all-records computation. */
  lemma WeeklyViewAgrees(recs: seq<Record>, defaults: Defaults, r: Record)
    requires r in recs
    ensures Due(StudentWeek(recs, r.student, r.week), defaults, r) == Due(recs, defaults, r)
  {
    GroupClosedViewAgrees(recs, StudentWeek(recs, r.student, r.week), defaults, r);
  }

  // ---------------------------------------------------------------------------------
  // Adding a violation
  // ---------------------------------------------------------------------------------

  /** The sheet of the mirror workbook that lists violations of `code`. */
  function SheetFor(code: string): (sheet: string)
    ensures sheet != "" <==> code in {"VP01", "VP02", "VP03", "VP04", "VP05", "VP06"}
  {
    match code
    case "VP01" => "NHAT_KI_DI_MUON"
    case "VP02" => "NG_LA"
    case "VP03" => "DOI_CHO"
    case "VP04" => "QUEN_DDHT"
    case "VP05" => "NGU_TRONG_GIO"
    case "VP06" => "NGHI_HOC"
    case _ => ""
  }

  /** The number of existing records with this student, code and week. */
  function PriorCount(recs: seq<Record>, student: string, code: string, week: int): nat {
    |set x | x in recs && x.student == student && x.code == code && x.week == week :: x.id|
  }

  /** The amount proposed for a new violation: the default plus 10000 for every earlier
      record of the same student, code and week when the code escalates. */
  function ProspectiveAmount(recs: seq<Record>, defaults: Defaults, student: string, code: string, week: int): (amount: int)
    ensures !Escalating(code) ==> amount == Base(defaults, code)
    ensures Escalating(code) ==> amount >= Base(defaults, code)
  {
    Base(defaults, code) + (if Escalating(code) then Step * PriorCount(recs, student, code, week) else 0)
  }

  /** When the new record sorts after every existing member of its group (a later date, or
      the same date with the larger id), the proposed amount is exactly the dynamic due it
      gets once stored. */
  lemma ProspectiveMatchesDue(recs: seq<Record>, defaults: Defaults, r: Record)
    requires r.id !in Ids(recs)
    requires forall x :: x in recs && KeyOf(x) == KeyOf(r) ==> Before(x, r)
    ensures ProspectiveAmount(recs, defaults, r.student, r.code, r.week) == Due(recs + [r], defaults, r)
  {
    assert EarlierIds(recs + [r], r)
        == set x | x in recs && x.student == r.student && x.code == r.code && x.week == r.week :: x.id by {
      forall id | id in EarlierIds(recs + [r], r)
        ensures id in set x | x in recs && x.student == r.student && x.code == r.code && x.week == r.week :: x.id
      {
        var x :| x in recs + [r] && KeyOf(x) == KeyOf(r) && Before(x, r) && x.id == id;
        BeforeOrder(x, x, x);
        assert x != r;
        assert x in recs;
      }
      forall id | id in set x | x in recs && x.student == r.student && x.code == r.code && x.week == r.week :: x.id
        ensures id in EarlierIds(recs + [r], r)
      {
        var x :| x in recs && x.student == r.student && x.code == r.code && x.week == r.week && x.id == id;
        assert x in recs + [r];
      }
    }
  }

  /** A back-dated VP01/VP06 record (one that sorts before an existing member of its group)
      is proposed more than its dynamic due: the stored `amount_due` overstates it, which is
      why the pages recompute. */
  lemma BackdatedOverstates(recs: seq<Record>, defaults: Defaults, r: Record, later: Record)
    requires UniqueIds(recs + [r])
    requires later in recs && KeyOf(later) == KeyOf(r) && Before(r, later)
    requires Escalating(r.code)
    ensures ProspectiveAmount(recs, defaults, r.student, r.code, r.week) >= Due(recs + [r], defaults, r) + Step
  {
    var e := EarlierIds(recs + [r], r);
    var all := set x | x in recs && x.student == r.student && x.code == r.code && x.week == r.week :: x.id;
    assert e <= all by {
      forall id | id in e ensures id in all {
        var x :| x in recs + [r] && KeyOf(x) == KeyOf(r) && Before(x, r) && x.id == id;
        BeforeOrder(x, x, x);
        assert x in recs;
      }
    }
    assert later.id !in e by {
      forall x | x in recs + [r] && KeyOf(x) == KeyOf(r) && Before(x, r) ensures x.id != later.id {
        if x.id == later.id {
          IdDetermines(recs + [r], x, later);
          BeforeOrder(r, later, r);
        }
      }
    }
    assert later.id in all;
    SubsetCardinality(e + {later.id}, all);
  }

  /** The custom amount field of the add form: stripped, with '.' and ',' removed, taken when
      what is left is a non-empty run of ASCII digits. */
  function CustomAmount(input: string): (amount: Option<int>)
    ensures amount.Some? ==> amount.value >= 0
  {
    var s := Strings.Strip(input);
    if s == "" then None
    else
      var cleaned := Numerals.RemoveSeparators(s);
      if cleaned != [] && Numerals.AllDigits(cleaned) then Some(Numerals.DigitsValue(cleaned) as int) else None
  }

  /** An amount typed as it is displayed (dots every three digits) is read back unchanged. */
  lemma CustomAmountOfDisplayed(n: nat)
    ensures CustomAmount(Numerals.FormatAmount(n)) == Some(n)
  {
    var t := Numerals.FormatAmount(n);
    Numerals.GroupedDigitsShape(n);
    Numerals.GroupedDigitsValue(n);
    assert Numerals.IsDigit(t[|t| - 1]) by {
      assert (|t| - (|t| - 1)) % 4 == 1;
    }
    assert Strings.Strip(t) == t;
  }

  /** The amount stored for a new violation: the custom amount when it parses, otherwise the
      prospective amount. */
  function NewAmount(recs: seq<Record>, defaults: Defaults, student: string, code: string, week: int,
                     input: string): (amount: int)
    ensures CustomAmount(input).Some? ==> amount == CustomAmount(input).value
    ensures CustomAmount(input).None? ==> amount == ProspectiveAmount(recs, defaults, student, code, week)
  {
    match CustomAmount(input)
    case Some(a) => a
    case None => ProspectiveAmount(recs, defaults, student, code, week)
  }

  /** An amount typed as it is displayed is stored as that amount. */
  lemma NewAmountOfDisplayed(recs: seq<Record>, defaults: Defaults, student: string, code: string, week: int, n: nat)
    ensures NewAmount(recs, defaults, student, code, week, Numerals.FormatAmount(n)) == n
  {
    CustomAmountOfDisplayed(n);
  }

  /** With no custom amount, a new violation that sorts after every existing record of its
      group is stored with the dynamic due it has once stored. */
  lemma NewAmountIsDue(recs: seq<Record>, defaults: Defaults, r: Record, input: string)
    requires CustomAmount(input).None?
    requires r.id !in Ids(recs)
    requires forall x :: x in recs && KeyOf(x) == KeyOf(r) ==> Before(x, r)
    ensures NewAmount(recs, defaults, r.student, r.code, r.week, input) == Due(recs + [r], defaults, r)
  {
    ProspectiveMatchesDue(recs, defaults, r);
  }
}
