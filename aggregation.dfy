/**
 * Observation aggregation of the ranking-race page: the `dateValues` rollup
 * (records grouped by date, then by name, reduced to the value of the first
 * record of each group, sorted ascending by date) and the `companyNames`
 * set of entity names in first-appearance order.
 */
module Aggregation {

  /** One decoded observation. `date` is the millisecond timestamp of the record's Date. */
  datatype Record = Record(date: int, name: string, category: string, value: real)

  /** The values observed on one date, keyed by entity name. */
  datatype Snapshot = Snapshot(date: int, values: map<string, real>)

  predicate Distinct<T(==)>(s: seq<T>) {
    forall i, j :: 0 <= i < j < |s| ==> s[i] != s[j]
  }

  /**
   * The elements of `s` in order of first appearance, each once. This is the
   * iteration order of a JavaScript `Set` built from `s`, and the key order of
   * the `InternMap` that `d3.rollup` builds.
   */
  function FirstAppearance<T(==)>(s: seq<T>): (r: seq<T>)
    ensures Distinct(r)
    ensures forall i :: 0 <= i < |s| ==> s[i] in r
    ensures forall i :: 0 <= i < |r| ==> r[i] in s
  {
    if s == [] then []
    else
      var prefix := FirstAppearance(s[..|s| - 1]);
      assert s == s[..|s| - 1] + [s[|s| - 1]];
      if s[|s| - 1] in prefix then prefix else prefix + [s[|s| - 1]]
  }

  /**
   * Order of first appearance: when `r[i]` comes before `r[j]` in the result,
   * `r[i]` already occurs in `s` before any occurrence of `r[j]`.
   */
  lemma {:induction false} FirstAppearanceOrder<T>(s: seq<T>, i: nat, j: nat, k: nat)
    requires i < j < |FirstAppearance(s)|
    requires k < |s| && s[k] == FirstAppearance(s)[j]
    ensures FirstAppearance(s)[i] in s[..k]
    decreases |s|, 1
  {
    if k < |s| - 1 {
      FirstAppearanceOrderBefore(s, i, j, k);
    } else {
      FirstAppearanceOrderLast(s, i, j);
    }
  }

  /** The case of an occurrence before the last element: it is already in the prefix's result. */
  lemma {:induction false} FirstAppearanceOrderBefore<T>(s: seq<T>, i: nat, j: nat, k: nat)
    requires i < j < |FirstAppearance(s)|
    requires k < |s| - 1 && s[k] == FirstAppearance(s)[j]
    ensures FirstAppearance(s)[i] in s[..k]
    decreases |s|, 0
  {
    var init := s[..|s| - 1];
    var prefix := FirstAppearance(init);
    var r := FirstAppearance(s);
    assert s == init + [s[|s| - 1]];
    assert init[k] == s[k] && s[k] in prefix;
    assert j < |prefix|;
    assert r[j] == prefix[j] && r[i] == prefix[i];
    FirstAppearanceOrder(init, i, j, k);
    assert init[..k] == s[..k];
  }

  /** The case of the last element: every earlier result element occurs before it. */
  lemma FirstAppearanceOrderLast<T>(s: seq<T>, i: nat, j: nat)
    requires i < j < |FirstAppearance(s)| && s != []
    ensures FirstAppearance(s)[i] in s[..|s| - 1]
  {
    var init := s[..|s| - 1];
    var prefix := FirstAppearance(init);
    var r := FirstAppearance(s);
    assert s == init + [s[|s| - 1]];
    if r == prefix {
      assert r[i] in prefix;
    } else {
      assert r[i] == prefix[i];
    }
  }

  /** The record dates, in input order. */
  function Dates(rs: seq<Record>): seq<int>
  {
    seq(|rs|, i requires 0 <= i < |rs| => rs[i].date)
  }

  /** The record names, in input order. */
  function Names(rs: seq<Record>): seq<string>
  {
    seq(|rs|, i requires 0 <= i < |rs| => rs[i].name)
  }

  /**
   * The name universe: one entry per distinct record name, in order of first
   * appearance. This order is the tie-break order of the ranking.
   */
  function CompanyNames(rs: seq<Record>): (names: seq<string>)
    ensures Distinct(names)
    ensures forall n :: n in names <==> exists k :: 0 <= k < |rs| && rs[k].name == n
    ensures forall i, j, k :: 0 <= i < j < |names| && 0 <= k < |rs| && rs[k].name == names[j] ==>
              exists m :: 0 <= m < k && rs[m].name == names[i]
  {
    CompanyNamesOrder(rs, FirstAppearance(Names(rs)));
    CompanyNamesMembers(rs);
    FirstAppearance(Names(rs))
  }

  lemma CompanyNamesOrder(rs: seq<Record>, names: seq<string>)
    requires names == FirstAppearance(Names(rs))
    ensures forall i, j, k :: 0 <= i < j < |names| && 0 <= k < |rs| && rs[k].name == names[j] ==>
        exists m :: 0 <= m < k && rs[m].name == names[i]
  {
    var ns := Names(rs);
    forall i, j, k | 0 <= i < j < |names| && 0 <= k < |rs| && rs[k].name == names[j]
      ensures exists m :: 0 <= m < k && rs[m].name == names[i]
    {
      FirstAppearanceOrder(ns, i, j, k);
      var m :| 0 <= m < k && ns[..k][m] == names[i];
      assert rs[m].name == names[i];
    }
  }

  lemma CompanyNamesMembers(rs: seq<Record>)
    ensures forall n :: n in FirstAppearance(Names(rs)) <==> exists k :: 0 <= k < |rs| && rs[k].name == n
  {
    var ns := Names(rs);
    forall n ensures n in FirstAppearance(ns) <==> exists k :: 0 <= k < |rs| && rs[k].name == n {
      if n in FirstAppearance(ns) {
        var k :| 0 <= k < |ns| && ns[k] == n;
        assert rs[k].name == n;
      }
      if exists k :: 0 <= k < |rs| && rs[k].name == n {
        var k :| 0 <= k < |rs| && rs[k].name == n;
        assert ns[k] == n;
      }
    }
  }

  /** The records of the (date, name) group, in input order. */
  function Group(rs: seq<Record>, date: int, name: string): (g: seq<Record>)
    ensures forall x :: x in g <==> x in rs && x.date == date && x.name == name
  {
    if rs == [] then []
    else
      assert rs == [rs[0]] + rs[1..];
      (if rs[0].date == date && rs[0].name == name then [rs[0]] else []) + Group(rs[1..], date, name)
  }

  /** The dates that occur in the records. */
  function DatesOf(rs: seq<Record>): set<int> {
    set r | r in rs :: r.date
  }

  /** The names recorded on `date`. */
  function NamesOn(rs: seq<Record>, date: int): set<string> {
    set r | r in rs && r.date == date :: r.name
  }

  /** The reducer `([d]) => d.value`: the value of the group's first record. */
  function Reduce(group: seq<Record>): real
    requires group != []
  {
    group[0].value
  }

  /**
   * `d3.rollup(records, reduce, date, name)`: for each date, for each name
   * recorded on that date, the reduced group of records.
   */
  function Rollup(rs: seq<Record>): map<int, map<string, real>> {
    map d | d in DatesOf(rs) ::
      map n | n in NamesOn(rs, d) ::
        var group := Group(rs, d, n);
        assert exists r :: r in rs && r.date == d && r.name == n;
        Reduce(group)
  }

  /** Record `k` is the first record of its (date, name) pair. */
  predicate FirstOfPair(rs: seq<Record>, k: nat) {
    k < |rs| && forall j :: 0 <= j < k ==> !(rs[j].date == rs[k].date && rs[j].name == rs[k].name)
  }

  /** Every record of a pair is preceded, or equalled, by the first record of that pair. */
  lemma {:induction false} FirstOccurrence(rs: seq<Record>, i: nat)
    requires i < |rs|
    ensures exists k: nat :: FirstOfPair(rs, k) && k <= i && rs[k].date == rs[i].date && rs[k].name == rs[i].name
    decreases i
  {
    if !FirstOfPair(rs, i) {
      var j :| 0 <= j < i && rs[j].date == rs[i].date && rs[j].name == rs[i].name;
      FirstOccurrence(rs, j);
    }
  }

  /** The group of a record that is the first of its (date, name) pair starts with that record. */
  lemma {:induction false} GroupStartsAtFirst(rs: seq<Record>, k: nat)
    requires FirstOfPair(rs, k)
    ensures Group(rs, rs[k].date, rs[k].name) != []
    ensures Group(rs, rs[k].date, rs[k].name)[0] == rs[k]
  {
    if k > 0 {
      assert !(rs[0].date == rs[k].date && rs[0].name == rs[k].name);
      assert forall j :: 0 <= j < k - 1 ==> rs[1..][j] == rs[j + 1];
      GroupStartsAtFirst(rs[1..], k - 1);
    }
  }

  /** The value stored for the pair of a first record is that record's value. */
  lemma RollupFirstValue(rs: seq<Record>, k: nat)
    requires FirstOfPair(rs, k)
    ensures rs[k].date in Rollup(rs) && rs[k].name in Rollup(rs)[rs[k].date]
    ensures Rollup(rs)[rs[k].date][rs[k].name] == rs[k].value
  {
    GroupStartsAtFirst(rs, k);
    assert rs[k] in rs;
  }

  /**
   * The rollup holds one entry per (date, name) pair that occurs in the
   * records, and keeps the FIRST record of each pair: whatever later records
   * with the same date and name say, the stored value is the value of the
   * first one in input order.
   */
  lemma RollupKeepsFirst(rs: seq<Record>)
    ensures Rollup(rs).Keys == DatesOf(rs)
    ensures forall d :: d in Rollup(rs) ==> Rollup(rs)[d].Keys == NamesOn(rs, d)
    ensures forall k: nat :: FirstOfPair(rs, k) ==>
      && rs[k].date in Rollup(rs) && rs[k].name in Rollup(rs)[rs[k].date]
      && Rollup(rs)[rs[k].date][rs[k].name] == rs[k].value
    ensures forall d, n :: d in Rollup(rs) && n in Rollup(rs)[d] ==>
      exists k: nat :: FirstOfPair(rs, k) && rs[k].date == d && rs[k].name == n
  {
    RollupDomain(rs);
    forall k: nat | FirstOfPair(rs, k)
      ensures rs[k].date in Rollup(rs) && rs[k].name in Rollup(rs)[rs[k].date]
      ensures Rollup(rs)[rs[k].date][rs[k].name] == rs[k].value
    {
      RollupFirstValue(rs, k);
    }
    forall d, n | d in Rollup(rs) && n in Rollup(rs)[d]
      ensures exists k: nat :: FirstOfPair(rs, k) && rs[k].date == d && rs[k].name == n
    {
      RollupEntryHasFirst(rs, d, n);
    }
  }

  /** The keys of the rollup: the record dates, and under each date the names recorded on it. */
  lemma RollupDomain(rs: seq<Record>)
    ensures Rollup(rs).Keys == DatesOf(rs)
    ensures forall d :: d in Rollup(rs) ==> Rollup(rs)[d].Keys == NamesOn(rs, d)
  {
  }

  /** A stored (date, name) pair has a first record. */
  lemma RollupEntryHasFirst(rs: seq<Record>, d: int, n: string)
    requires d in DatesOf(rs) && n in NamesOn(rs, d)
    ensures exists k: nat :: FirstOfPair(rs, k) && rs[k].date == d && rs[k].name == n
  {
    var r :| r in rs && r.date == d && r.name == n;
    var i :| 0 <= i < |rs| && rs[i] == r;
    FirstOccurrence(rs, i);
  }

  predicate DatesNonDecreasing(s: seq<Snapshot>) {
    forall i, j :: 0 <= i < j < |s| ==> s[i].date <= s[j].date
  }

  predicate DatesIncreasing(s: seq<Snapshot>) {
    forall i, j :: 0 <= i < j < |s| ==> s[i].date < s[j].date
  }

  /**
   * Places `x` before the first snapshot of `s` whose date is not earlier:
   * the step of a stable sort ascending by date (`d3.ascending`).
   */
  function InsertByDate(x: Snapshot, s: seq<Snapshot>): (r: seq<Snapshot>)
    ensures multiset(r) == multiset{x} + multiset(s)
    ensures forall y :: y in r <==> y == x || y in s
  {
    if s == [] then [x]
    else if x.date <= s[0].date then [x] + s
    else
      assert s == [s[0]] + s[1..];
      [s[0]] + InsertByDate(x, s[1..])
  }

  lemma {:induction false} InsertByDateOrdered(x: Snapshot, s: seq<Snapshot>)
    requires DatesNonDecreasing(s)
    ensures DatesNonDecreasing(InsertByDate(x, s))
  {
    if s != [] && x.date <= s[0].date {
      assert forall j :: 0 <= j < |s| ==> x.date <= s[j].date by {
        forall j | 0 < j < |s| ensures s[0].date <= s[j].date { }
      }
      PrependOrdered(x, s);
    } else if s != [] {
      assert s == [s[0]] + s[1..];
      InsertByDateOrdered(x, s[1..]);
      var rest := InsertByDate(x, s[1..]);
      assert forall j :: 0 <= j < |rest| ==> s[0].date <= rest[j].date by {
        forall j | 0 <= j < |rest| ensures s[0].date <= rest[j].date {
          assert rest[j] in rest;
          if rest[j] != x {
            var k :| 0 <= k < |s[1..]| && s[1..][k] == rest[j];
            assert s[k + 1] == rest[j];
          }
        }
      }
      PrependOrdered(s[0], rest);
    }
  }

  lemma PrependOrdered(x: Snapshot, s: seq<Snapshot>)
    requires DatesNonDecreasing(s)
    requires forall j :: 0 <= j < |s| ==> x.date <= s[j].date
    ensures DatesNonDecreasing([x] + s)
  {
    var r := [x] + s;
    forall i, j | 0 <= i < j < |r| ensures r[i].date <= r[j].date {
      assert r[j] == s[j - 1];
      if i > 0 { assert r[i] == s[i - 1]; }
    }
  }

  lemma {:induction false} InsertByDateIncreasing(x: Snapshot, s: seq<Snapshot>)
    requires DatesIncreasing(s)
    requires forall y :: y in s ==> y.date != x.date
    ensures DatesIncreasing(InsertByDate(x, s))
    decreases |s|, 1
  {
    if s != [] && x.date > s[0].date {
      InsertByDateIncreasingLater(x, s);
    } else if s != [] {
      assert x.date < s[0].date by { assert s[0] in s; }
      forall j | 0 <= j < |s| ensures x.date < s[j].date {
        if j > 0 { assert s[0].date < s[j].date; }
      }
      PrependIncreasing(x, s);
    }
  }

  /** The case where `x` goes after the head of `s`. */
  lemma {:induction false} InsertByDateIncreasingLater(x: Snapshot, s: seq<Snapshot>)
    requires DatesIncreasing(s)
    requires forall y :: y in s ==> y.date != x.date
    requires s != [] && x.date > s[0].date
    ensures DatesIncreasing(InsertByDate(x, s))
    decreases |s|, 0
  {
    assert s == [s[0]] + s[1..];
    InsertByDateIncreasing(x, s[1..]);
    var rest := InsertByDate(x, s[1..]);
    assert InsertByDate(x, s) == [s[0]] + rest;
    forall y | y in s[1..] ensures s[0].date < y.date {
      var k :| 0 <= k < |s[1..]| && s[1..][k] == y;
      assert s[k + 1] == y;
    }
    InsertedAbove(x, s[1..], s[0].date);
    PrependIncreasing(s[0], rest);
  }

  /** A bound below `x` and below every element of `s` stays below every element after the insertion. */
  lemma InsertedAbove(x: Snapshot, s: seq<Snapshot>, bound: int)
    requires bound < x.date
    requires forall y :: y in s ==> bound < y.date
    ensures forall j :: 0 <= j < |InsertByDate(x, s)| ==> bound < InsertByDate(x, s)[j].date
  {
    var r := InsertByDate(x, s);
    forall j | 0 <= j < |r| ensures bound < r[j].date {
      assert r[j] in r;
    }
  }

  lemma PrependIncreasing(x: Snapshot, s: seq<Snapshot>)
    requires DatesIncreasing(s)
    requires forall j :: 0 <= j < |s| ==> x.date < s[j].date
    ensures DatesIncreasing([x] + s)
  {
    var r := [x] + s;
    forall i, j | 0 <= i < j < |r| ensures r[i].date < r[j].date {
      assert r[j] == s[j - 1];
      if i > 0 { assert r[i] == s[i - 1]; }
    }
  }

  /** Stable insertion sort of snapshots ascending by date. */
  function SortByDate(s: seq<Snapshot>): (r: seq<Snapshot>)
    ensures multiset(r) == multiset(s)
    ensures forall y :: y in r <==> y in s
  {
    if s == [] then []
    else
      assert s == [s[0]] + s[1..];
      InsertByDate(s[0], SortByDate(s[1..]))
  }

  /**
   * The sort orders snapshots by date, strictly when no two snapshots share a
   * date (as after the rollup, whose keys are distinct).
   */
  lemma {:induction false} SortByDateOrdered(s: seq<Snapshot>)
    ensures DatesNonDecreasing(SortByDate(s))
  {
    if s != [] {
      SortByDateOrdered(s[1..]);
      InsertByDateOrdered(s[0], SortByDate(s[1..]));
    }
  }

  /** With no two snapshots on the same date (as after the rollup) the order is strict. */
  lemma {:induction false} SortByDateIncreasing(s: seq<Snapshot>)
    requires forall i, j :: 0 <= i < j < |s| ==> s[i].date != s[j].date
    ensures DatesIncreasing(SortByDate(s))
  {
    if s != [] {
      assert s == [s[0]] + s[1..];
      SortByDateIncreasing(s[1..]);
      var rest := SortByDate(s[1..]);
      forall y | y in rest ensures y.date != s[0].date {
        var k :| 0 <= k < |s[1..]| && s[1..][k] == y;
        assert s[k + 1] == y;
      }
      InsertByDateIncreasing(s[0], rest);
    }
  }

  /** The rollup's keys, in first-appearance order, are exactly the record dates. */
  lemma RollupKeys(rs: seq<Record>)
    ensures forall d :: d in FirstAppearance(Dates(rs)) <==> d in DatesOf(rs)
  {
    var keys := FirstAppearance(Dates(rs));
    forall d ensures d in keys <==> d in DatesOf(rs) {
      if d in keys {
        var k :| 0 <= k < |rs| && Dates(rs)[k] == d;
        assert rs[k] in rs;
      }
      if d in DatesOf(rs) {
        var r :| r in rs && r.date == d;
        var k :| 0 <= k < |rs| && rs[k] == r;
        assert Dates(rs)[k] == d;
      }
    }
  }

  /**
   * `Array.from(rollup)`: one snapshot per distinct date, in the key order of
   * the rollup (first appearance of each date).
   */
  function RollupEntries(rs: seq<Record>): seq<Snapshot> {
    var g := Rollup(rs);
    var keys := FirstAppearance(Dates(rs));
    RollupKeys(rs);
    seq(|keys|, i requires 0 <= i < |keys| => Snapshot(keys[i], g[keys[i]]))
  }

  /** The dates the snapshots carry. */
  function SnapshotDates(s: seq<Snapshot>): set<int> {
    set x | x in s :: x.date
  }

  /** The entries of the rollup: distinct dates, exactly the record dates, each with its rollup. */
  lemma RollupEntriesFacts(rs: seq<Record>)
    ensures var entries := RollupEntries(rs);
      && (forall i, j :: 0 <= i < j < |entries| ==> entries[i].date != entries[j].date)
      && SnapshotDates(entries) == DatesOf(rs)
      && (forall x :: x in entries ==> x.date in Rollup(rs) && x.values == Rollup(rs)[x.date])
  {
    var entries := RollupEntries(rs);
    var keys := FirstAppearance(Dates(rs));
    RollupEntriesKeys(rs);
    RollupKeys(rs);
    forall d | d in DatesOf(rs) ensures d in SnapshotDates(entries) {
      var i :| 0 <= i < |keys| && keys[i] == d;
      assert entries[i] in entries;
    }
  }

  /** Entry `i` of the rollup is the `i`-th date key with its rollup. */
  lemma RollupEntriesKeys(rs: seq<Record>)
    ensures var entries := RollupEntries(rs);
      && |entries| == |FirstAppearance(Dates(rs))|
      && forall i :: 0 <= i < |entries| ==>
           && entries[i].date == FirstAppearance(Dates(rs))[i]
           && entries[i].date in Rollup(rs)
           && entries[i].values == Rollup(rs)[entries[i].date]
  {
    RollupKeys(rs);
  }

  /**
   * `dateValues`: one snapshot per distinct record date, strictly ascending
   * by date, holding the rollup of that date.
   */
  function DateValues(rs: seq<Record>): (snaps: seq<Snapshot>)
    ensures DatesIncreasing(snaps)
    ensures SnapshotDates(snaps) == DatesOf(rs)
    ensures forall x :: x in snaps ==> x.date in Rollup(rs) && x.values == Rollup(rs)[x.date]
  {
    var entries := RollupEntries(rs);
    RollupEntriesFacts(rs);
    SortByDateIncreasing(entries);
    SortKeepsDates(entries);
    SortByDate(entries)
  }

  /** Sorting neither adds nor loses a date. */
  lemma SortKeepsDates(s: seq<Snapshot>)
    ensures SnapshotDates(SortByDate(s)) == SnapshotDates(s)
  {
    var r := SortByDate(s);
    forall d | d in SnapshotDates(s) ensures d in SnapshotDates(r) {
      var x :| x in s && x.date == d;
      assert x in r;
    }
  }
}
