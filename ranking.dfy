/**
 * `sorted(table.items(), key=lambda x: x[1], reverse=True)`: the (keyword,
 * count) pairs ranked by count, largest first. Python's sort is stable and
 * `reverse=True` keeps pairs with equal counts in their original order, so
 * the model is a stable insertion sort.
 */
module Ranking {

  /** One `(keyword, count)` item of the count table. */
  datatype PatternCount = PatternCount(keyword: string, count: nat)

  /** Counts never increase from left to right. */
  predicate SortedByCountDesc(s: seq<PatternCount>)
  {
    forall i, j :: 0 <= i < j < |s| ==> s[i].count >= s[j].count
  }

  /**
   * Entries with equal counts stand in the order `before` gives them:
   * `before` is how the input was ordered, and stability keeps it among ties.
   */
  ghost predicate TiesOrdered(s: seq<PatternCount>, before: (PatternCount, PatternCount) -> bool)
  {
    forall i, j :: 0 <= i < j < |s| && s[i].count == s[j].count ==> before(s[i], s[j])
  }

  /** Puts x in front of the first entry whose count is not larger than x's. */
  function InsertByCount(x: PatternCount, s: seq<PatternCount>): (r: seq<PatternCount>)
    ensures multiset(r) == multiset(s) + multiset{x}
    ensures SortedByCountDesc(s) ==> SortedByCountDesc(r)
  {
    if s == [] || s[0].count <= x.count then
      [x] + s
    else
      var rest := InsertByCount(x, s[1..]);
      assert s == [s[0]] + s[1..];
      HeadBoundsRest(x, s, rest);
      [s[0]] + rest
  }

  /** The head of a sorted list bounds every entry of its tail with x inserted, when x is smaller. */
  lemma HeadBoundsRest(x: PatternCount, s: seq<PatternCount>, rest: seq<PatternCount>)
    requires s != [] && x.count < s[0].count
    requires multiset(rest) == multiset(s[1..]) + multiset{x}
    ensures SortedByCountDesc(s) ==> forall j :: 0 <= j < |rest| ==> rest[j].count <= s[0].count
  {
    if SortedByCountDesc(s) {
      forall j | 0 <= j < |rest| ensures rest[j].count <= s[0].count {
        assert rest[j] in multiset(rest);
        if rest[j] != x {
          assert rest[j] in multiset(s[1..]);
          var k :| 0 <= k < |s[1..]| && s[1..][k] == rest[j];
          assert s[k + 1] == rest[j];
        }
      }
    }
  }

  /** The ranking: a permutation of the input, sorted by count, largest first. */
  function SortByCountDesc(s: seq<PatternCount>): (r: seq<PatternCount>)
    ensures multiset(r) == multiset(s)
    ensures SortedByCountDesc(r)
  {
    if s == [] then []
    else
      assert s == [s[0]] + s[1..];
      InsertByCount(s[0], SortByCountDesc(s[1..]))
  }

  lemma {:induction false} InsertKeepsTies(x: PatternCount, s: seq<PatternCount>, before: (PatternCount, PatternCount) -> bool)
    requires TiesOrdered(s, before)
    requires forall y :: y in s && y.count == x.count ==> before(x, y)
    ensures TiesOrdered(InsertByCount(x, s), before)
  {
    if !(s == [] || s[0].count <= x.count) {
      var rest := InsertByCount(x, s[1..]);
      assert TiesOrdered(s[1..], before);
      InsertKeepsTies(x, s[1..], before);
      var r := [s[0]] + rest;
      forall i, j | 0 <= i < j < |r| && r[i].count == r[j].count ensures before(r[i], r[j]) {
        if i == 0 {
          assert r[j] in multiset(s[1..]) + multiset{x} by { assert r[j] == rest[j - 1]; }
          assert r[j] != x;
          var k :| 0 <= k < |s[1..]| && s[1..][k] == r[j];
          assert s[k + 1] == r[j];
        } else {
          assert r[i] == rest[i - 1] && r[j] == rest[j - 1];
        }
      }
    }
  }

  /** The ranking is stable: ties keep the order they had in the input. */
  lemma {:induction false} SortKeepsTies(s: seq<PatternCount>, before: (PatternCount, PatternCount) -> bool)
    requires TiesOrdered(s, before)
    ensures TiesOrdered(SortByCountDesc(s), before)
  {
    if s != [] {
      assert TiesOrdered(s[1..], before);
      SortKeepsTies(s[1..], before);
      var sorted := SortByCountDesc(s[1..]);
      forall y | y in sorted && y.count == s[0].count ensures before(s[0], y) {
        assert y in multiset(s[1..]);
        var k :| 0 <= k < |s[1..]| && s[1..][k] == y;
        assert s[k + 1] == y;
      }
      InsertKeepsTies(s[0], sorted, before);
    }
  }

  /** The sum of the counts. */
  function TotalCount(s: seq<PatternCount>): nat
  {
    if s == [] then 0 else s[0].count + TotalCount(s[1..])
  }

  /** With at most len entries, none above the bound, the total is at most len times the bound. */
  lemma {:induction false} TotalCountBound(s: seq<PatternCount>, len: nat, bound: nat)
    requires |s| <= len
    requires forall i :: 0 <= i < |s| ==> s[i].count <= bound
    ensures TotalCount(s) <= len * bound
  {
    if s != [] {
      assert forall i :: 0 <= i < |s[1..]| ==> s[1..][i] == s[i + 1];
      TotalCountBound(s[1..], len - 1, bound);
      assert len * bound == (len - 1) * bound + bound;
    }
  }
}
