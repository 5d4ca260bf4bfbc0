/** Lists of (parent, child) pairs read as a directed multigraph: walks, cycles, levels,
    and the counts and successor lists that the sorting functions tabulate. */
module Precedence {
  import opened Sequences

  type Pairs<T> = seq<(T, T)>

  ghost function Parents<T>(pairs: Pairs<T>): set<T> {
    if pairs == [] then {} else Parents(pairs[..|pairs| - 1]) + {pairs[|pairs| - 1].0}
  }

  ghost function Elements<T>(pairs: Pairs<T>): set<T> {
    if pairs == [] then {} else Elements(pairs[..|pairs| - 1]) + {pairs[|pairs| - 1].0, pairs[|pairs| - 1].1}
  }

  // ---------- walks, cycles and levels ----------

  ghost predicate IsWalk<T>(pairs: Pairs<T>, w: seq<T>) {
    |w| > 0 && forall i :: 0 <= i < |w| - 1 ==> (w[i], w[i + 1]) in pairs
  }

  ghost predicate IsCycle<T>(pairs: Pairs<T>, c: seq<T>) {
    IsWalk(pairs, c) && |c| >= 2 && c[0] == c[|c| - 1]
  }

  ghost predicate Acyclic<T(!new)>(pairs: Pairs<T>) {
    forall c :: !IsCycle(pairs, c)
  }

  /** Some cycle reaches x (an element of a cycle is downstream of it). */
  ghost predicate Downstream<T(!new)>(pairs: Pairs<T>, x: T) {
    exists c, w :: IsCycle(pairs, c) && IsWalk(pairs, w) && w[0] == c[0] && w[|w| - 1] == x
  }

  /** A chain of k pairs ends at x. */
  ghost predicate HasChain<T(!new)>(pairs: Pairs<T>, x: T, k: nat) {
    exists w :: IsWalk(pairs, w) && |w| == k + 1 && w[k] == x
  }

  /** The longest chain of pairs that ends at x has k pairs. */
  ghost predicate IsLevel<T(!new)>(pairs: Pairs<T>, x: T, k: nat) {
    HasChain(pairs, x, k) && !HasChain(pairs, x, k + 1)
  }

  lemma WalkSlice<T(!new)>(pairs: Pairs<T>, w: seq<T>, i: nat, j: nat)
    requires IsWalk(pairs, w) && i < j <= |w|
    ensures IsWalk(pairs, w[i..j]) && w[i..j][0] == w[i] && w[i..j][j - i - 1] == w[j - 1]
  {
    var s := w[i..j];
    forall k | 0 <= k < |s| - 1 ensures (s[k], s[k + 1]) in pairs {
      assert s[k] == w[i + k] && s[k + 1] == w[i + k + 1];
    }
  }

  lemma WalkPrepend<T(!new)>(pairs: Pairs<T>, p: T, w: seq<T>)
    requires IsWalk(pairs, w) && (p, w[0]) in pairs
    ensures IsWalk(pairs, [p] + w)
  {
    var s := [p] + w;
    forall k | 0 <= k < |s| - 1 ensures (s[k], s[k + 1]) in pairs {
      assert k > 0 ==> s[k] == w[k - 1] && s[k + 1] == w[k];
    }
  }

  lemma ChainZero<T(!new)>(pairs: Pairs<T>, x: T)
    ensures HasChain(pairs, x, 0)
  {
    assert IsWalk(pairs, [x]);
  }

  lemma ChainExtend<T(!new)>(pairs: Pairs<T>, p: T, x: T, k: nat)
    requires (p, x) in pairs && HasChain(pairs, p, k)
    ensures HasChain(pairs, x, k + 1)
  {
    var w :| IsWalk(pairs, w) && |w| == k + 1 && w[k] == p;
    assert IsWalk(pairs, w + [x]);
  }

  lemma ChainParent<T(!new)>(pairs: Pairs<T>, x: T, k: nat) returns (p: T)
    requires HasChain(pairs, x, k + 1)
    ensures (p, x) in pairs && HasChain(pairs, p, k)
  {
    var w :| IsWalk(pairs, w) && |w| == k + 2 && w[k + 1] == x;
    p := w[k];
    WalkSlice(pairs, w, 0, k + 1);
  }

  lemma ChainShorter<T(!new)>(pairs: Pairs<T>, x: T, j: nat, k: nat)
    requires j <= k && HasChain(pairs, x, k)
    ensures HasChain(pairs, x, j)
  {
    var w :| IsWalk(pairs, w) && |w| == k + 1 && w[k] == x;
    WalkSlice(pairs, w, k - j, k + 1);
  }

  lemma LevelUnique<T(!new)>(pairs: Pairs<T>, x: T, j: nat, k: nat)
    requires IsLevel(pairs, x, j) && IsLevel(pairs, x, k)
    ensures j == k
  {
    if j < k {
      ChainShorter(pairs, x, j + 1, k);
    } else if k < j {
      ChainShorter(pairs, x, k + 1, j);
    }
  }

  /** x sits one level below its deepest parent. */
  lemma LevelFromParents<T(!new)>(pairs: Pairs<T>, x: T, p: T, k: nat)
    requires (p, x) in pairs && IsLevel(pairs, p, k)
    requires forall q :: (q, x) in pairs ==> !HasChain(pairs, q, k + 1)
    ensures IsLevel(pairs, x, k + 1)
  {
    ChainExtend(pairs, p, x, k);
    if HasChain(pairs, x, k + 2) {
      var q := ChainParent(pairs, x, k + 1);
      assert false;
    }
  }

  lemma RootLevel<T(!new)>(pairs: Pairs<T>, x: T)
    requires forall q :: (q, x) !in pairs
    ensures IsLevel(pairs, x, 0)
  {
    ChainZero(pairs, x);
    if HasChain(pairs, x, 1) {
      var q := ChainParent(pairs, x, 0);
      assert false;
    }
  }

  /** Without a chain of k pairs, x has a level below k. */
  lemma {:induction false} LevelBelow<T(!new)>(pairs: Pairs<T>, x: T, k: nat) returns (j: nat)
    requires !HasChain(pairs, x, k)
    ensures j < k && IsLevel(pairs, x, j)
  {
    if k == 0 {
      ChainZero(pairs, x);
      assert false;
    } else if HasChain(pairs, x, k - 1) {
      j := k - 1;
    } else {
      j := LevelBelow(pairs, x, k - 1);
    }
  }

  lemma ChainAlong<T(!new)>(pairs: Pairs<T>, w: seq<T>, k: nat)
    requires IsWalk(pairs, w) && HasChain(pairs, w[0], k)
    ensures HasChain(pairs, w[|w| - 1], k + |w| - 1)
  {
    var v :| IsWalk(pairs, v) && |v| == k + 1 && v[k] == w[0];
    var u := v + w[1..];
    forall i | 0 <= i < |u| - 1 ensures (u[i], u[i + 1]) in pairs {
      assert i >= k ==> u[i] == w[i - k] && u[i + 1] == w[i + 1 - k];
    }
    assert IsWalk(pairs, u) && |u| == k + |w| && u[k + |w| - 1] == w[|w| - 1];
  }

  /** A cycle upstream gives chains of every length, hence no level. */
  lemma DownstreamChain<T(!new)>(pairs: Pairs<T>, x: T, k: nat)
    requires Downstream(pairs, x)
    ensures HasChain(pairs, x, k)
  {
    var c, w :| IsCycle(pairs, c) && IsWalk(pairs, w) && w[0] == c[0] && w[|w| - 1] == x;
    ChainZero(pairs, c[0]);
    var n := 0;
    while n < k
      invariant HasChain(pairs, c[0], n)
    {
      ChainAlong(pairs, c, n);
      n := n + |c| - 1;
    }
    ChainAlong(pairs, w, n);
    ChainShorter(pairs, x, k, n + |w| - 1);
  }

  lemma CycleDownstream<T(!new)>(pairs: Pairs<T>, c: seq<T>)
    requires IsCycle(pairs, c)
    ensures c[0] in Elements(pairs) && Downstream(pairs, c[0])
  {
    assert (c[0], c[1]) in pairs;
    ElementsOf(pairs, c[0], c[1]);
    assert IsWalk(pairs, [c[0]]);
  }

  // ---------- dependency order against cycles ----------

  /** Every parent of a listed element is listed before it. */
  ghost predicate ParentsFirst<T(!new)>(pairs: Pairs<T>, a: seq<T>) {
    forall i, p :: 0 <= i < |a| && (p, a[i]) in pairs ==> p in a[..i]
  }

  lemma {:induction false} UpstreamEarlier<T(!new)>(pairs: Pairs<T>, a: seq<T>, w: seq<T>, i: nat)
    requires ParentsFirst(pairs, a) && IsWalk(pairs, w)
    requires i < |a| && w[|w| - 1] == a[i] && |w| >= 2
    ensures w[0] in a[..i]
    decreases |w|
  {
    var n := |w| - 2;
    assert (w[n], w[n + 1]) in pairs;
    if n > 0 {
      WalkSlice(pairs, w, 0, n + 1);
      var j :| 0 <= j < i && a[j] == w[n];
      UpstreamEarlier(pairs, a, w[0..n + 1], j);
    }
  }

  /** Nothing listed in dependency order is downstream of a cycle. */
  lemma ListedNotDownstream<T(!new)>(pairs: Pairs<T>, a: seq<T>, x: T)
    requires ParentsFirst(pairs, a) && Distinct(a) && x in a
    ensures !Downstream(pairs, x)
  {
    if Downstream(pairs, x) {
      var c, w :| IsCycle(pairs, c) && IsWalk(pairs, w) && w[0] == c[0] && w[|w| - 1] == x;
      var i :| 0 <= i < |a| && a[i] == x;
      if |w| >= 2 {
        UpstreamEarlier(pairs, a, w, i);
      }
      var j :| 0 <= j < |a| && a[j] == c[0];
      UpstreamEarlier(pairs, a, c, j);
    }
  }

  /** Each member of rest still has a parent in rest. */
  ghost predicate Stuck<T(!new)>(pairs: Pairs<T>, rest: set<T>) {
    forall x {:trigger HasParentIn(pairs, rest, x)} :: x in rest ==> HasParentIn(pairs, rest, x)
  }

  ghost predicate HasParentIn<T(!new)>(pairs: Pairs<T>, rest: set<T>, x: T) {
    exists p :: p in rest && (p, x) in pairs
  }

  lemma WalkBack<T(!new)>(pairs: Pairs<T>, rest: set<T>, x: T, k: nat) returns (w: seq<T>)
    requires Stuck(pairs, rest) && x in rest
    ensures IsWalk(pairs, w) && |w| == k + 1 && w[k] == x
    ensures forall y :: y in w ==> y in rest
  {
    w := [x];
    for i := 0 to k
      invariant IsWalk(pairs, w) && |w| == i + 1 && w[i] == x
      invariant forall y :: y in w ==> y in rest
    {
      assert w[0] in w && HasParentIn(pairs, rest, w[0]);
      var p :| p in rest && (p, w[0]) in pairs;
      WalkPrepend(pairs, p, w);
      w := [p] + w;
    }
  }

  /** A stuck finite set is fed by a cycle: a long enough backward walk repeats an element. */
  lemma StuckDownstream<T(!new)>(pairs: Pairs<T>, rest: set<T>, x: T)
    requires Stuck(pairs, rest) && x in rest
    ensures Downstream(pairs, x)
  {
    var w := WalkBack(pairs, rest, x, |rest|);
    if Distinct(w) {
      DistinctBound(w, rest);
      assert false;
    }
    var i, j :| 0 <= i < j < |w| && w[i] == w[j];
    WalkSlice(pairs, w, i, j + 1);
    WalkSlice(pairs, w, i, |w|);
    assert IsCycle(pairs, w[i..j + 1]);
  }

  // ---------- counts and successor lists ----------

  /** The positions of the pairs that still hold x back once the elements of done are out of
      the way. */
  ghost function PairsInto<T>(pairs: Pairs<T>, done: set<T>, x: T): set<nat> {
    set i: nat | i < |pairs| && pairs[i].1 == x && pairs[i].0 !in done
  }

  ghost function Pending<T>(pairs: Pairs<T>, done: set<T>, x: T): nat {
    |PairsInto(pairs, done, x)|
  }

  /** The children of p, one occurrence per pair, in list order. */
  ghost function Targets<T>(pairs: Pairs<T>, p: T): seq<T> {
    if pairs == [] then [] else
      var n := |pairs| - 1;
      Targets(pairs[..n], p) + if pairs[n].0 == p then [pairs[n].1] else []
  }

  lemma PendingZero<T(!new)>(pairs: Pairs<T>, done: set<T>, x: T)
    ensures Pending(pairs, done, x) == 0 <==> forall p :: (p, x) in pairs ==> p in done
  {
    if Pending(pairs, done, x) == 0 {
      forall p | (p, x) in pairs ensures p in done {
        var i :| 0 <= i < |pairs| && pairs[i] == (p, x);
        assert i !in PairsInto(pairs, done, x);
      }
    } else {
      var i :| i in PairsInto(pairs, done, x);
      assert pairs[i] in pairs;
    }
  }

  lemma PendingAppend<T(!new)>(pairs: Pairs<T>, pair: (T, T), done: set<T>, x: T)
    ensures Pending(pairs + [pair], done, x)
      == Pending(pairs, done, x) + if pair.1 == x && pair.0 !in done then 1 else 0
  {
    assert PairsInto(pairs + [pair], done, x)
      == PairsInto(pairs, done, x) + if pair.1 == x && pair.0 !in done then {|pairs|} else {};
  }

  lemma {:induction false} TargetsExact<T(!new)>(pairs: Pairs<T>, p: T)
    ensures forall c :: c in Targets(pairs, p) <==> (p, c) in pairs
  {
    if pairs != [] {
      var n := |pairs| - 1;
      TargetsExact(pairs[..n], p);
      assert pairs == pairs[..n] + [pairs[n]];
    }
  }

  /** Taking p out of the way releases x once for every pair (p, x). */
  lemma {:induction false} PendingRelease<T(!new)>(pairs: Pairs<T>, done: set<T>, p: T, x: T)
    requires p !in done
    ensures Pending(pairs, done, x) == Pending(pairs, done + {p}, x) + multiset(Targets(pairs, p))[x]
  {
    if pairs == [] {
      assert PairsInto(pairs, done, x) == {} == PairsInto(pairs, done + {p}, x);
    } else {
      var n := |pairs| - 1;
      PendingRelease(pairs[..n], done, p, x);
      assert pairs == pairs[..n] + [pairs[n]];
      PendingAppend(pairs[..n], pairs[n], done, x);
      PendingAppend(pairs[..n], pairs[n], done + {p}, x);
    }
  }

  lemma {:induction false} ElementsOf<T(!new)>(pairs: Pairs<T>, p: T, c: T)
    requires (p, c) in pairs
    ensures p in Parents(pairs) && p in Elements(pairs) && c in Elements(pairs)
  {
    var n := |pairs| - 1;
    if (p, c) in pairs[..n] {
      ElementsOf(pairs[..n], p, c);
    }
    assert pairs == pairs[..n] + [pairs[n]];
  }
}
