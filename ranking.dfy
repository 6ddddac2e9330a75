/**
 * The ranker of the ranking-race page: every name of the universe is scored
 * with a value function, the scored names are sorted descending by value with
 * a stable sort (equal values keep universe order), and each entry gets the
 * rank `min(N_RANKED_BRANDS, position)`.
 */
module Ranking {
  import opened Aggregation

  /** `N_RANKED_BRANDS`: every entry at this position or later gets exactly this rank. */
  const RankedBrands: nat := 15

  /** A name with its value, before ranking. */
  datatype Scored = Scored(name: string, value: real)

  /** A ranked entry of a keyframe. */
  datatype Entry = Entry(name: string, value: real, rank: nat)

  predicate Descending(s: seq<Scored>) {
    forall i, j :: 0 <= i < j < |s| ==> s[i].value >= s[j].value
  }

  /** The elements of `s` whose value is exactly `v`, in their order in `s`. */
  function Valued(s: seq<Scored>, v: real): seq<Scored> {
    if s == [] then []
    else (if s[0].value == v then [s[0]] else []) + Valued(s[1..], v)
  }

  /** The filter keeps exactly the elements of value `v`. */
  lemma {:induction false} ValuedMembers(s: seq<Scored>, v: real, x: Scored)
    ensures x in Valued(s, v) <==> x in s && x.value == v
  {
    if s != [] {
      assert s == [s[0]] + s[1..];
      ValuedMembers(s[1..], v, x);
    }
  }

  /**
   * Stability as a relation between an input and an output: for every value,
   * the elements carrying it appear in the output in their input order.
   */
  ghost predicate KeepsTieOrder(input: seq<Scored>, output: seq<Scored>) {
    forall v :: Valued(output, v) == Valued(input, v)
  }

  /**
   * Places `x` before the first element of `s` whose value is not larger:
   * the step of a stable sort by `d3.descending` on values, where `x` precedes
   * every element of `s` in the input.
   */
  function InsertDesc(x: Scored, s: seq<Scored>): (r: seq<Scored>)
    ensures |r| == |s| + 1
    ensures multiset(r) == multiset{x} + multiset(s)
    ensures forall y :: y in r <==> y == x || y in s
  {
    if s == [] || s[0].value <= x.value then [x] + s
    else
      assert s == [s[0]] + s[1..];
      [s[0]] + InsertDesc(x, s[1..])
  }

  /** Inserting `x` puts it in front of every element of equal value. */
  lemma {:induction false} InsertDescValued(x: Scored, s: seq<Scored>, v: real)
    ensures Valued(InsertDesc(x, s), v) == (if x.value == v then [x] else []) + Valued(s, v)
  {
    if s == [] || s[0].value <= x.value {
      assert InsertDesc(x, s) == [x] + s;
      ValuedCons(x, s, v);
    } else {
      var rest := InsertDesc(x, s[1..]);
      assert InsertDesc(x, s) == [s[0]] + rest;
      InsertDescValued(x, s[1..], v);
      assert s == [s[0]] + s[1..];
      ValuedPassOver(x, s[0], rest, s[1..], v);
    }
  }

  /**
   * When `x` passes over a larger `y`, the filters agree: `x` can only be in
   * front of `y` in the filter of a value `y` does not have.
   */
  lemma ValuedPassOver(x: Scored, y: Scored, rest: seq<Scored>, tail: seq<Scored>, v: real)
    requires x.value < y.value
    requires Valued(rest, v) == (if x.value == v then [x] else []) + Valued(tail, v)
    ensures Valued([y] + rest, v) == (if x.value == v then [x] else []) + Valued([y] + tail, v)
  {
    ValuedCons(y, rest, v);
    ValuedCons(y, tail, v);
    if y.value == v {
      assert Valued(rest, v) == [] + Valued(tail, v);
    } else if x.value != v {
      assert Valued(rest, v) == [] + Valued(tail, v);
    }
  }

  /** The filter of `[x] + s` is `x`'s own contribution followed by the filter of `s`. */
  lemma ValuedCons(x: Scored, s: seq<Scored>, v: real)
    ensures Valued([x] + s, v) == (if x.value == v then [x] else []) + Valued(s, v)
  {
    assert ([x] + s)[1..] == s;
  }

  lemma {:induction false} InsertDescOrdered(x: Scored, s: seq<Scored>)
    requires Descending(s)
    ensures Descending(InsertDesc(x, s))
  {
    if s != [] && s[0].value <= x.value {
      assert forall j :: 0 <= j < |s| ==> s[j].value <= x.value by {
        forall j | 0 < j < |s| ensures s[0].value >= s[j].value { }
      }
      PrependDescending(x, s);
    } else if s != [] {
      assert s == [s[0]] + s[1..];
      InsertDescOrdered(x, s[1..]);
      var rest := InsertDesc(x, s[1..]);
      assert forall j :: 0 <= j < |rest| ==> rest[j].value <= s[0].value by {
        forall j | 0 <= j < |rest| ensures rest[j].value <= s[0].value {
          assert rest[j] in rest;
          if rest[j] != x {
            var k :| 0 <= k < |s[1..]| && s[1..][k] == rest[j];
            assert s[k + 1] == rest[j];
          }
        }
      }
      PrependDescending(s[0], rest);
    }
  }

  lemma PrependDescending(x: Scored, s: seq<Scored>)
    requires Descending(s)
    requires forall j :: 0 <= j < |s| ==> s[j].value <= x.value
    ensures Descending([x] + s)
  {
    var r := [x] + s;
    forall i, j | 0 <= i < j < |r| ensures r[i].value >= r[j].value {
      assert r[j] == s[j - 1];
      if i > 0 { assert r[i] == s[i - 1]; }
    }
  }

  /** Stable insertion sort, descending by value. */
  function SortDesc(s: seq<Scored>): (r: seq<Scored>)
    ensures |r| == |s|
    ensures multiset(r) == multiset(s)
    ensures forall y :: y in r <==> y in s
  {
    if s == [] then []
    else
      assert s == [s[0]] + s[1..];
      InsertDesc(s[0], SortDesc(s[1..]))
  }

  /** The sort yields a descending sequence that keeps the input order of equal values. */
  lemma {:induction false} SortDescIsStableSort(s: seq<Scored>)
    ensures Descending(SortDesc(s))
    ensures KeepsTieOrder(s, SortDesc(s))
  {
    if s != [] {
      SortDescIsStableSort(s[1..]);
      InsertDescOrdered(s[0], SortDesc(s[1..]));
      forall v ensures Valued(SortDesc(s), v) == Valued(s, v) {
        InsertDescValued(s[0], SortDesc(s[1..]), v);
      }
    }
  }

  /**
   * A stable sort has only one possible result: any descending sequence that
   * keeps the input order of equal values is the insertion sort's result. So
   * the model agrees with whichever stable sort the runtime uses.
   */
  lemma StableSortIsUnique(s: seq<Scored>, t: seq<Scored>)
    requires Descending(t)
    requires KeepsTieOrder(s, t)
    ensures t == SortDesc(s)
  {
    SortDescIsStableSort(s);
    SameTiesSameSequence(t, SortDesc(s));
  }

  lemma {:induction false} SameTiesSameSequence(t: seq<Scored>, u: seq<Scored>)
    requires Descending(t) && Descending(u)
    requires forall v :: Valued(t, v) == Valued(u, v)
    ensures t == u
    decreases |t| + |u|
  {
    if t == [] || u == [] {
      if t != [] {
        ValuedMembers(t, t[0].value, t[0]);
        ValuedMembers(u, t[0].value, t[0]);
      } else if u != [] {
        ValuedMembers(u, u[0].value, u[0]);
        ValuedMembers(t, u[0].value, u[0]);
      }
    } else {
      var a, b := t[0], u[0];
      ValuedMembers(t, a.value, a);
      ValuedMembers(u, a.value, a);
      ValuedMembers(t, b.value, b);
      ValuedMembers(u, b.value, b);
      assert a.value == b.value by {
        var i :| 0 <= i < |u| && u[i] == a;
        var j :| 0 <= j < |t| && t[j] == b;
        assert a.value <= b.value && b.value <= a.value;
      }
      assert t == [a] + t[1..] && u == [b] + u[1..];
      assert Valued(t, a.value)[0] == a && Valued(u, a.value)[0] == b;
      assert a == b;
      forall v ensures Valued(t[1..], v) == Valued(u[1..], v) {
        var front := if a.value == v then [a] else [];
        assert Valued(t, v) == front + Valued(t[1..], v);
        assert Valued(u, v) == front + Valued(u[1..], v);
        assert (front + Valued(t[1..], v))[|front|..] == Valued(t[1..], v);
        assert (front + Valued(u[1..], v))[|front|..] == Valued(u[1..], v);
      }
      SameTiesSameSequence(t[1..], u[1..]);
    }
  }

  /** `Array.from(companyNames, name => ({name, value: value(name)}))`. */
  function Score(names: seq<string>, value: string -> real): seq<Scored>
  {
    seq(|names|, i requires 0 <= i < |names| => Scored(names[i], value(names[i])))
  }

  function Min(a: int, b: int): int {
    if a <= b then a else b
  }

  /** The ranked entries without their ranks. */
  function Unrank(r: seq<Entry>): seq<Scored>
  {
    seq(|r|, i requires 0 <= i < |r| => Scored(r[i].name, r[i].value))
  }

  /**
   * `rank(value)`: the universe scored by `value`, sorted descending by value
   * (stably), with rank `min(N_RANKED_BRANDS, position)`.
   */
  function Rank(names: seq<string>, value: string -> real): seq<Entry> {
    var sorted := SortDesc(Score(names, value));
    seq(|sorted|, i requires 0 <= i < |sorted| => Entry(sorted[i].name, sorted[i].value, Min(RankedBrands, i)))
  }

  /**
   * The ranking holds one entry per name of the universe (a permutation of
   * the scored universe), carrying that name's value; entries are ordered by
   * non-increasing value, so entry 0 holds the maximum; names of equal value
   * keep universe order; positions below 15 are their own rank and every
   * later position has rank exactly 15, so ranks never decrease.
   */
  lemma RankIsClampedStableRanking(names: seq<string>, value: string -> real)
    ensures var r := Rank(names, value);
      && |r| == |names|
      && multiset(Unrank(r)) == multiset(Score(names, value))
      && (forall k :: 0 <= k < |r| ==> r[k].name in names && r[k].value == value(r[k].name))
      && (forall n :: n in names ==> exists k :: 0 <= k < |r| && r[k].name == n)
      && (forall i, j :: 0 <= i < j < |r| ==> r[i].value >= r[j].value)
      && (forall k :: 0 <= k < |r| ==> r[0].value >= r[k].value)
      && (forall v :: Valued(Unrank(r), v) == Valued(Score(names, value), v))
      && (forall k :: 0 <= k < |r| && k < RankedBrands ==> r[k].rank == k)
      && (forall k :: 0 <= k < |r| && k >= RankedBrands ==> r[k].rank == RankedBrands)
      && (forall i, j :: 0 <= i < j < |r| ==> r[i].rank <= r[j].rank)
  {
    var r := Rank(names, value);
    RankUnranksToSort(names, value);
    SortDescIsStableSort(Score(names, value));
    RankMembers(names, value);
    RankPositions(names, value);
  }

  /** Dropping the ranks gives back the sorted scores. */
  lemma RankUnranksToSort(names: seq<string>, value: string -> real)
    ensures |Rank(names, value)| == |names|
    ensures Unrank(Rank(names, value)) == SortDesc(Score(names, value))
  {
    var sorted := SortDesc(Score(names, value));
    assert forall k :: 0 <= k < |sorted| ==> Unrank(Rank(names, value))[k] == sorted[k];
  }

  /** Each entry is a name of the universe with its own value, and every name has an entry. */
  lemma RankMembers(names: seq<string>, value: string -> real)
    ensures var r := Rank(names, value);
      && (forall k :: 0 <= k < |r| ==> r[k].name in names && r[k].value == value(r[k].name))
      && (forall n :: n in names ==> exists k :: 0 <= k < |r| && r[k].name == n)
  {
    var scored := Score(names, value);
    var sorted := SortDesc(scored);
    var r := Rank(names, value);
    RankUnranksToSort(names, value);
    forall k | 0 <= k < |r| ensures r[k].name in names && r[k].value == value(r[k].name) {
      assert Unrank(r)[k] == sorted[k];
      assert sorted[k] in scored;
      var i :| 0 <= i < |scored| && scored[i] == sorted[k];
    }
    forall n | n in names ensures exists k :: 0 <= k < |r| && r[k].name == n {
      var i :| 0 <= i < |names| && names[i] == n;
      assert scored[i] in sorted;
      var k :| 0 <= k < |sorted| && sorted[k] == scored[i];
      assert Unrank(r)[k] == sorted[k];
    }
  }

  /** Positions below 15 are their own rank; later ones have rank 15; ranks never decrease. */
  lemma RankPositions(names: seq<string>, value: string -> real)
    ensures var r := Rank(names, value);
      && (forall k :: 0 <= k < |r| && k < RankedBrands ==> r[k].rank == k)
      && (forall k :: 0 <= k < |r| && k >= RankedBrands ==> r[k].rank == RankedBrands)
      && (forall i, j :: 0 <= i < j < |r| ==> r[i].rank <= r[j].rank)
  {
  }

  /** Over a universe without duplicates, the ranking holds each name exactly once. */
  lemma RankNamesDistinct(names: seq<string>, value: string -> real)
    requires Distinct(names)
    ensures Distinct(Unrank(Rank(names, value)))
    ensures forall i, j :: 0 <= i < j < |Rank(names, value)| ==> Rank(names, value)[i].name != Rank(names, value)[j].name
  {
    var r := Rank(names, value);
    var scored := Score(names, value);
    RankIsClampedStableRanking(names, value);
    assert Distinct(scored);
    DistinctByMultiplicity(scored);
    DistinctByMultiplicity(Unrank(r));
    forall i, j | 0 <= i < j < |r| ensures r[i].name != r[j].name {
      assert Unrank(r)[i] != Unrank(r)[j];
    }
  }

  /** A sequence has no duplicates exactly when no element occurs twice in its multiset. */
  lemma {:induction false} DistinctByMultiplicity<T>(s: seq<T>)
    ensures Distinct(s) <==> forall x :: multiset(s)[x] <= 1
  {
    if s != [] {
      assert s == [s[0]] + s[1..];
      DistinctByMultiplicity(s[1..]);
      if Distinct(s) {
        assert Distinct(s[1..]);
        assert s[0] !in s[1..];
        assert multiset(s) == multiset{s[0]} + multiset(s[1..]);
        assert multiset(s[1..])[s[0]] == 0;
      }
      if !Distinct(s) {
        var i, j :| 0 <= i < j < |s| && s[i] == s[j];
        if i == 0 {
          assert s[j] in s[1..];
          assert multiset(s)[s[0]] >= 2;
        } else {
          assert s[1..][i - 1] == s[1..][j - 1];
          assert !Distinct(s[1..]);
          var x :| multiset(s[1..])[x] > 1;
          assert multiset(s) == multiset{s[0]} + multiset(s[1..]);
          assert multiset(s)[x] > 1;
        }
      }
    }
  }
}
