/** Small facts about sequences used as lists of distinct keys. */
module Collections {

  /** No element occurs twice. */
  predicate Distinct<T(==)>(s: seq<T>)
  {
    forall i, j :: 0 <= i < j < |s| ==> s[i] != s[j]
  }

  /** Position of the first occurrence of x in s (Python's `list.index`). */
  function IndexOf<T(==)>(s: seq<T>, x: T): (i: nat)
    requires x in s
    ensures i < |s| && s[i] == x
    ensures forall j :: 0 <= j < i ==> s[j] != x
  {
    if s[0] == x then 0 else 1 + IndexOf(s[1..], x)
  }

  /** In a list without repetitions, the element at position m is found at m. */
  lemma IndexOfDistinct<T>(s: seq<T>, m: nat)
    requires Distinct(s) && m < |s|
    ensures IndexOf(s, s[m]) == m
  {
  }

  /** A list without repetitions whose elements all come from t is no longer than t. */
  lemma {:induction false} DistinctSubsetLength<T>(s: seq<T>, t: seq<T>)
    requires Distinct(s)
    requires forall x :: x in s ==> x in t
    ensures |s| <= |t|
  {
    if |s| > 0 {
      var x := s[|s| - 1];
      var j := IndexOf(t, x);
      var s', t' := s[..|s| - 1], t[..j] + t[j + 1..];
      forall y | y in s' ensures y in t' {
        var k :| 0 <= k < |s'| && s'[k] == y;
        assert s[k] == y && y != x && y in t;
        var l :| 0 <= l < |t| && t[l] == y;
        if l < j { assert t'[l] == y; } else { assert t'[l - 1] == y; }
      }
      DistinctSubsetLength(s', t');
    }
  }
}
