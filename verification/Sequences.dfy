/** Lists: without repetition, the sets of their elements, and their joining. */
module Sequences {

  ghost predicate Distinct<T>(s: seq<T>) {
    forall i, j :: 0 <= i < j < |s| ==> s[i] != s[j]
  }

  ghost function SetOf<T>(s: seq<T>): set<T> {
    set x | x in s
  }

  lemma {:induction false} DistinctBound<T(!new)>(s: seq<T>, within: set<T>)
    requires Distinct(s) && forall x :: x in s ==> x in within
    ensures |s| <= |within|
    decreases |s|
  {
    if s != [] {
      var rest := within - {s[0]};
      assert forall x :: x in s[1..] ==> x in rest;
      DistinctBound(s[1..], rest);
    }
  }

  lemma Regroup<T>(a: seq<T>, b: seq<T>, c: seq<T>)
    ensures a + (b + c) == a + b + c
  {
  }
}
