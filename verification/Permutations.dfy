/** permutations of bindings/python/rad_util.py. */
module Permutations {
  import opened Sequences

  function Factorial(n: nat): nat {
    if n == 0 then 1 else n * Factorial(n - 1)
  }

  /** x inserted at position i. */
  function Inserted<T>(s: seq<T>, i: nat, x: T): seq<T>
    requires i <= |s|
  {
    s[..i] + [x] + s[i..]
  }

  /** x inserted at every position below n. */
  function Insertions<T>(s: seq<T>, x: T, n: nat): (r: seq<seq<T>>)
    requires n <= |s| + 1
    ensures |r| == n && forall i :: 0 <= i < n ==> r[i] == Inserted(s, i, x)
  {
    if n == 0 then [] else Insertions(s, x, n - 1) + [Inserted(s, n - 1, x)]
  }

  ghost predicate AllOfLength<T>(lists: seq<seq<T>>, n: nat) {
    forall k :: 0 <= k < |lists| ==> |lists[k]| == n
  }

  /** x inserted at every position of every list. */
  function Spread<T>(lists: seq<seq<T>>, x: T): seq<seq<T>> {
    if lists == [] then [] else
      var last := lists[|lists| - 1];
      Spread(lists[..|lists| - 1], x) + Insertions(last, x, |last| + 1)
  }

  function Listed<T>(s: seq<T>): seq<seq<T>> {
    if |s| > 1 then Spread(Listed(s[1..]), s[0]) else [s]
  }

  // ---------- how many ----------

  lemma {:induction false} SpreadLengths<T>(lists: seq<seq<T>>, x: T, n: nat)
    requires AllOfLength(lists, n)
    ensures AllOfLength(Spread(lists, x), n + 1)
    decreases |lists|
  {
    if lists != [] {
      SpreadLengths(lists[..|lists| - 1], x, n);
    }
  }

  lemma OneMore(k: nat, n: nat)
    ensures k * n + n == (k + 1) * n
  {
  }

  lemma {:induction false} SpreadCount<T>(lists: seq<seq<T>>, x: T, n: nat)
    requires AllOfLength(lists, n)
    ensures |Spread(lists, x)| == |lists| * (n + 1)
    decreases |lists|
  {
    if lists != [] {
      var front := lists[..|lists| - 1];
      SpreadCount(front, x, n);
      OneMore(|front|, n + 1);
    }
  }

  /** There are n! of them. */
  lemma {:induction false} ListedCount<T>(s: seq<T>)
    ensures |Listed(s)| == Factorial(|s|) && AllOfLength(Listed(s), |s|)
    decreases |s|
  {
    if |s| > 1 {
      ListedCount(s[1..]);
      SpreadCount(Listed(s[1..]), s[0], |s| - 1);
      SpreadLengths(Listed(s[1..]), s[0], |s| - 1);
    } else if |s| == 1 {
      assert Factorial(1) == 1 * Factorial(0);
    }
  }

  // ---------- which ----------

  ghost predicate InsertionOf<T>(lists: seq<seq<T>>, x: T, p: seq<T>, k: int, i: int) {
    0 <= k < |lists| && 0 <= i <= |lists[k]| && p == Inserted(lists[k], i, x)
  }

  lemma {:induction false} SpreadExact<T>(lists: seq<seq<T>>, x: T, p: seq<T>)
    ensures p in Spread(lists, x) <==> exists k, i :: InsertionOf(lists, x, p, k, i)
    decreases |lists|
  {
    if lists != [] {
      var front, last := lists[..|lists| - 1], lists[|lists| - 1];
      SpreadExact(front, x, p);
      if k, i :| InsertionOf(front, x, p, k, i) {
        assert InsertionOf(lists, x, p, k, i);
      }
      var all := Insertions(last, x, |last| + 1);
      if p in all {
        var i :| 0 <= i < |all| && all[i] == p;
        assert InsertionOf(lists, x, p, |lists| - 1, i);
      }
      forall k, i | InsertionOf(lists, x, p, k, i) ensures p in Spread(lists, x) {
        if k < |lists| - 1 {
          assert InsertionOf(front, x, p, k, i);
        } else {
          assert p == all[i];
        }
      }
    }
  }

  lemma InsertedElements<T>(s: seq<T>, i: nat, x: T)
    requires i <= |s|
    ensures multiset(Inserted(s, i, x)) == multiset(s) + multiset{x}
  {
    assert s == s[..i] + s[i..];
  }

  lemma Cancel<T>(a: multiset<T>, b: multiset<T>, x: T)
    requires a + multiset{x} == b + multiset{x}
    ensures a == b
  {
    assert a == (a + multiset{x}) - multiset{x} && b == (b + multiset{x}) - multiset{x};
  }

  lemma FirstElement<T>(s: seq<T>)
    requires s != []
    ensures multiset(s) == multiset(s[1..]) + multiset{s[0]}
  {
    assert s == [s[0]] + s[1..];
  }

  /** Listed are the rearrangements of the input, and nothing else. */
  lemma {:induction false} ListedExact<T>(s: seq<T>, p: seq<T>)
    ensures p in Listed(s) <==> multiset(p) == multiset(s)
    decreases |s|
  {
    if |s| > 1 {
      SpreadExact(Listed(s[1..]), s[0], p);
      FirstElement(s);
      if p in Listed(s) {
        InsertionRearranges(s, p);
      } else if multiset(p) == multiset(s) {
        RearrangementInserts(s, p);
      }
    } else {
      OneRearrangement(s, p);
    }
  }

  lemma InsertionRearranges<T>(s: seq<T>, p: seq<T>)
    requires |s| > 1 && exists k, i :: InsertionOf(Listed(s[1..]), s[0], p, k, i)
    ensures multiset(p) == multiset(s)
    decreases |s|, 0
  {
    var subs := Listed(s[1..]);
    var k, i :| InsertionOf(subs, s[0], p, k, i);
    ListedExact(s[1..], subs[k]);
    InsertedElements(subs[k], i, s[0]);
    FirstElement(s);
  }

  lemma RearrangementInserts<T>(s: seq<T>, p: seq<T>)
    requires |s| > 1 && multiset(p) == multiset(s)
    ensures exists k, i :: InsertionOf(Listed(s[1..]), s[0], p, k, i)
    decreases |s|, 0
  {
    var subs, x := Listed(s[1..]), s[0];
    assert x in multiset(p);
    var i :| 0 <= i < |p| && p[i] == x;
    var rest := p[..i] + p[i + 1..];
    assert p == Inserted(rest, i, x);
    InsertedElements(rest, i, x);
    FirstElement(s);
    Cancel(multiset(rest), multiset(s[1..]), x);
    ListedExact(s[1..], rest);
    var k :| 0 <= k < |subs| && subs[k] == rest;
    assert InsertionOf(subs, x, p, k, i);
  }

  lemma OneRearrangement<T>(s: seq<T>, p: seq<T>)
    requires |s| <= 1
    ensures multiset(p) == multiset(s) <==> p == s
  {
    if multiset(p) == multiset(s) {
      assert |p| == |multiset(p)| == |multiset(s)| == |s|;
      if |s| == 1 {
        assert p[0] in multiset(s);
      }
    }
  }

  // ---------- all different ----------

  /** Where x went in, and what it went into, can be told from the result. */
  lemma InsertedInjective<T(!new)>(s: seq<T>, i: nat, t: seq<T>, j: nat, x: T)
    requires i <= |s| && j <= |t| && x !in s && x !in t
    requires Inserted(s, i, x) == Inserted(t, j, x)
    ensures i == j && s == t
  {
    var p := Inserted(s, i, x);
    assert p[i] == x && p[j] == x;
    assert p[..i] == s[..i] && p[i + 1..] == s[i..];
    assert p[..j] == t[..j] && p[j + 1..] == t[j..];
    assert (forall k :: 0 <= k < i ==> p[k] == s[k] != x) && (forall k :: 0 <= k < j ==> p[k] == t[k] != x);
    assert s == s[..i] + s[i..] && t == t[..j] + t[j..];
  }

  lemma {:induction false} SpreadDistinct<T(!new)>(lists: seq<seq<T>>, x: T)
    requires Distinct(lists) && forall k :: 0 <= k < |lists| ==> x !in lists[k]
    ensures Distinct(Spread(lists, x))
    decreases |lists|
  {
    if lists != [] {
      var front, last := lists[..|lists| - 1], lists[|lists| - 1];
      SpreadDistinct(front, x);
      var before, all := Spread(front, x), Insertions(last, x, |last| + 1);
      forall i, j | 0 <= i < j < |all| ensures all[i] != all[j] {
        if all[i] == all[j] {
          InsertedInjective(last, i, last, j, x);
        }
      }
      forall a, i | 0 <= a < |before| && 0 <= i < |all| ensures before[a] != all[i] {
        if before[a] == all[i] {
          SpreadExact(front, x, before[a]);
          var k, b :| InsertionOf(front, x, before[a], k, b);
          InsertedInjective(lists[k], b, last, i, x);
        }
      }
    }
  }

  /** Of different items all rearrangements are different. */
  lemma {:induction false} ListedDistinct<T(!new)>(s: seq<T>)
    requires Distinct(s)
    ensures Distinct(Listed(s))
    decreases |s|
  {
    if |s| > 1 {
      ListedDistinct(s[1..]);
      var subs := Listed(s[1..]);
      forall k | 0 <= k < |subs| ensures s[0] !in subs[k] {
        ListedExact(s[1..], subs[k]);
        assert s[0] !in s[1..];
        assert s[0] !in multiset(subs[k]);
      }
      SpreadDistinct(subs, s[0]);
    }
  }

  // ---------- the program ----------

  /** The rearrangements of the input, n! of them counted with repetition. */
  method Permutations<T>(inputList: seq<T>) returns (outLists: seq<seq<T>>)
    ensures outLists == Listed(inputList)
    ensures |outLists| == Factorial(|inputList|)
    decreases |inputList|
  {
    ListedCount(inputList);
    if |inputList| > 1 {
      outLists := [];
      var item := inputList[0];
      var subLists := Permutations(inputList[1..]);
      ListedCount(inputList[1..]);
      for k := 0 to |subLists|
        invariant outLists == Spread(subLists[..k], item)
      {
        var subList := subLists[k];
        assert subLists[..k + 1][..k] == subLists[..k];
        ghost var before := outLists;
        for i := 0 to |inputList|
          invariant outLists == before + Insertions(subList, item, i)
        {
          outLists := outLists + [Inserted(subList, i, item)];
        }
      }
      assert subLists[..|subLists|] == subLists;
    } else {
      outLists := [inputList];
    }
  }
}
