/** Sequences without repetition. */
module Sequences {

  predicate Distinct<T(==)>(s: seq<T>) { forall i, j :: 0 <= i < j < |s| ==> s[i] != s[j] }

  /** A sequence without repetition is no longer than one that holds its elements. */
  lemma {:induction false} Pigeonhole<T>(s: seq<T>, t: seq<T>)
    requires Distinct(s) && forall x :: x in s ==> x in t
    ensures |s| <= |t|
    decreases |s|
  {
    if s != [] {
      assert s[0] in t;
      var k :| 0 <= k < |t| && t[k] == s[0];
      var rest := t[..k] + t[k + 1..];
      forall x | x in s[1..] ensures x in rest {
        assert x in s && x in t;
        var i :| 0 <= i < |t| && t[i] == x;
        assert i != k;
        assert rest[if i < k then i else i - 1] == x;
      }
      Pigeonhole(s[1..], rest);
    }
  }
}
