/** The two dependency sorts of bindings/python/topsort.py.  A dictionary is walked in an
    arbitrary order, so whatever is proved holds for every order Python might choose. */
module Topsort {
  import opened Precedence
  import opened Sequences

  datatype Outcome<T> =
    | Sorted(answer: seq<T>)
    | CycleError(answer: seq<T>, numParents: map<T, nat>, children: map<T, seq<T>>)

  datatype LevelsOutcome<T> =
    | AllLevels(levels: seq<seq<T>>)
    | LevelsCycleError(levels: seq<seq<T>>, numParents: map<T, nat>, children: map<T, seq<T>>)

  // ---------- the tables ----------

  /** The counts of the nodes outside done, as the pairs with a parent outside done give them. */
  ghost predicate Counts<T(!new)>(pairs: Pairs<T>, nodes: set<T>, done: set<T>, numParents: map<T, nat>) {
    numParents.Keys == nodes - done && forall x :: x in numParents ==> numParents[x] == Pending(pairs, done, x)
  }

  /** The successor lists of the parents outside done; a key without pairs has an empty list. */
  ghost predicate Lists<T(!new)>(pairs: Pairs<T>, done: set<T>, children: map<T, seq<T>>) {
    && Parents(pairs) - done <= children.Keys
    && forall p :: p in children ==> p !in done && children[p] == Targets(pairs, p)
  }

  /** The tables hold what is left of the pair list once the elements of done are removed. */
  ghost predicate Tables<T(!new)>(pairs: Pairs<T>, nodes: set<T>, done: set<T>,
                                  numParents: map<T, nat>, children: map<T, seq<T>>) {
    Counts(pairs, nodes, done, numParents) && Lists(pairs, done, children)
  }

  /** The tables of a whole pair list. */
  ghost predicate Tabulated<T(!new)>(pairs: Pairs<T>, numParents: map<T, nat>, children: map<T, seq<T>>) {
    Tables(pairs, Elements(pairs), {}, numParents, children) && children.Keys == Parents(pairs)
  }

  method BuildTables<T(==,!new)>(pairs: Pairs<T>) returns (numParents: map<T, nat>, children: map<T, seq<T>>)
    ensures Tabulated(pairs, numParents, children)
  {
    numParents, children := map[], map[];
    for i := 0 to |pairs|
      invariant Tabulated(pairs[..i], numParents, children)
    {
      PrefixPair(pairs, i);
      numParents, children := RecordPair(pairs[..i], pairs[i].0, pairs[i].1, numParents, children);
    }
    assert pairs[..|pairs|] == pairs;
  }

  lemma PrefixPair<T>(pairs: Pairs<T>, i: nat)
    requires i < |pairs|
    ensures pairs[..i + 1] == pairs[..i] + [(pairs[i].0, pairs[i].1)]
  {}

  method RecordPair<T(==,!new)>(ghost before: Pairs<T>, parent: T, child: T, counts: map<T, nat>, lists: map<T, seq<T>>)
    returns (numParents: map<T, nat>, children: map<T, seq<T>>)
    requires Tabulated(before, counts, lists)
    ensures Tabulated(before + [(parent, child)], numParents, children)
  {
    numParents, children := counts, lists;
    if parent !in numParents {
      numParents := numParents[parent := 0];
    }
    if child !in numParents {
      numParents := numParents[child := 0];
    }
    numParents := numParents[child := numParents[child] + 1];
    children := children[parent := (if parent in children then children[parent] else []) + [child]];
    Recorded(before, parent, child, counts, lists, numParents, children);
  }

  /** Recording one more pair keeps the tables in step with the pair list. */
  lemma Recorded<T(!new)>(before: Pairs<T>, parent: T, child: T, counts: map<T, nat>, lists: map<T, seq<T>>,
                          counts': map<T, nat>, lists': map<T, seq<T>>)
    requires Tabulated(before, counts, lists)
    requires counts'.Keys == counts.Keys + {parent, child}
    requires forall x :: x in counts' ==>
      counts'[x] == (if x in counts then counts[x] else 0) + (if x == child then 1 else 0)
    requires lists' == lists[parent := (if parent in lists then lists[parent] else []) + [child]]
    ensures Tabulated(before + [(parent, child)], counts', lists')
  {
    ExtendSets(before, parent, child);
    RecordedCounts(before, parent, child, counts, counts');
    RecordedLists(before, parent, child, lists, lists');
  }

  lemma RecordedCounts<T(!new)>(before: Pairs<T>, parent: T, child: T, counts: map<T, nat>, counts': map<T, nat>)
    requires Counts(before, Elements(before), {}, counts)
    requires counts'.Keys == counts.Keys + {parent, child}
    requires forall x :: x in counts' ==>
      counts'[x] == (if x in counts then counts[x] else 0) + (if x == child then 1 else 0)
    ensures Counts(before + [(parent, child)], Elements(before + [(parent, child)]), {}, counts')
  {
    ExtendSets(before, parent, child);
    forall x | x in counts' ensures counts'[x] == Pending(before + [(parent, child)], {}, x) {
      RecordCount(before, parent, child, counts, x);
    }
  }

  lemma RecordedLists<T(!new)>(before: Pairs<T>, parent: T, child: T, lists: map<T, seq<T>>, lists': map<T, seq<T>>)
    requires Lists(before, {}, lists) && lists.Keys == Parents(before)
    requires lists' == lists[parent := (if parent in lists then lists[parent] else []) + [child]]
    ensures Lists(before + [(parent, child)], {}, lists')
    ensures lists'.Keys == Parents(before + [(parent, child)])
  {
    ExtendSets(before, parent, child);
    forall p | p in lists' ensures lists'[p] == Targets(before + [(parent, child)], p) {
      RecordTargets(before, parent, child, lists, p);
    }
  }

  lemma RecordTargets<T(!new)>(before: Pairs<T>, parent: T, child: T, lists: map<T, seq<T>>, p: T)
    requires lists.Keys == Parents(before)
    requires p in lists ==> lists[p] == Targets(before, p)
    ensures Targets(before + [(parent, child)], p)
      == (if p in lists then lists[p] else []) + (if p == parent then [child] else [])
  {
    var all := before + [(parent, child)];
    assert all[..|all| - 1] == before;
    if p !in lists {
      UnseenTargets(before, p);
    }
  }

  lemma RecordCount<T(!new)>(before: Pairs<T>, parent: T, child: T, counts: map<T, nat>, x: T)
    requires counts.Keys == Elements(before)
    requires x in counts ==> counts[x] == Pending(before, {}, x)
    ensures Pending(before + [(parent, child)], {}, x)
      == (if x in counts then counts[x] else 0) + (if x == child then 1 else 0)
  {
    PendingAppend(before, (parent, child), {}, x);
    if x !in counts {
      UnseenPending(before, x);
    }
  }

  lemma ExtendSets<T(!new)>(pairs: Pairs<T>, parent: T, child: T)
    ensures Parents(pairs + [(parent, child)]) == Parents(pairs) + {parent}
    ensures Elements(pairs + [(parent, child)]) == Elements(pairs) + {parent, child}
  {
    var all := pairs + [(parent, child)];
    assert all[..|all| - 1] == pairs && all[|all| - 1] == (parent, child);
  }

  lemma UnseenPending<T(!new)>(pairs: Pairs<T>, x: T)
    requires x !in Elements(pairs)
    ensures Pending(pairs, {}, x) == 0
  {
    PendingZero(pairs, {}, x);
    forall p | (p, x) in pairs ensures false {
      ElementsOf(pairs, p, x);
    }
  }

  lemma UnseenTargets<T(!new)>(pairs: Pairs<T>, p: T)
    requires p !in Parents(pairs)
    ensures Targets(pairs, p) == []
  {
    TargetsExact(pairs, p);
    if Targets(pairs, p) != [] {
      var c := Targets(pairs, p)[0];
      assert c in Targets(pairs, p);
      ElementsOf(pairs, p, c);
    }
  }

  /** The keys whose count is zero, in whatever order the dictionary yields them. */
  method ZeroKeys<T(==)>(numParents: map<T, nat>) returns (zeros: seq<T>)
    ensures Distinct(zeros)
    ensures forall x :: x in zeros <==> x in numParents && numParents[x] == 0
  {
    zeros := [];
    var keys := numParents.Keys;
    while keys != {}
      invariant keys <= numParents.Keys
      invariant Distinct(zeros)
      invariant forall x :: x in zeros <==> x in numParents && x !in keys && numParents[x] == 0
      decreases keys
    {
      var x :| x in keys;
      keys := keys - {x};
      if numParents[x] == 0 {
        zeros := zeros + [x];
      }
    }
  }

  lemma PrefixCount<T>(s: seq<T>, j: nat)
    requires j < |s|
    ensures multiset(s[..j + 1]) == multiset(s[..j]) + multiset{s[j]}
    ensures multiset(s[..j + 1]) <= multiset(s)
  {
    assert s[..j + 1] == s[..j] + [s[j]];
    assert s == s[..j + 1] + s[j + 1..];
  }

  /** Decrements the count of every listed child, collecting those that reach zero. */
  method KnockDown<T(==)>(children: seq<T>, counts: map<T, nat>) returns (left: map<T, nat>, released: seq<T>)
    requires forall c :: c in children ==> c in counts && multiset(children)[c] <= counts[c]
    ensures left.Keys == counts.Keys
    ensures forall x :: x in counts ==> left[x] + multiset(children)[x] == counts[x]
    ensures Distinct(released)
    ensures forall x :: x in released <==> x in counts && counts[x] > 0 && left[x] == 0
  {
    left, released := counts, [];
    for j := 0 to |children|
      invariant left.Keys == counts.Keys
      invariant forall x :: x in counts ==> left[x] + multiset(children[..j])[x] == counts[x]
      invariant Distinct(released)
      invariant forall x :: x in released <==> x in counts && counts[x] > 0 && left[x] == 0
    {
      var child := children[j];
      PrefixCount(children, j);
      assert child in children && left[child] > 0;
      left := left[child := left[child] - 1];
      if left[child] == 0 {
        released := released + [child];
      }
    }
    assert children[..|children|] == children;
  }

  /** When nothing holds p back, its children are still counted, and counted enough. */
  lemma Removable<T(!new)>(pairs: Pairs<T>, nodes: set<T>, done: set<T>, p: T,
                           numParents: map<T, nat>, children: map<T, seq<T>>)
    requires Elements(pairs) <= nodes && Tables(pairs, nodes, done, numParents, children)
    requires p in nodes && p !in done && forall x :: x in done + {p} ==> Pending(pairs, done, x) == 0
    ensures p in numParents && Targets(pairs, p) == if p in children then children[p] else []
    ensures forall c :: c in Targets(pairs, p) ==>
      c in numParents && c != p && multiset(Targets(pairs, p))[c] <= numParents[c]
  {
    if p !in children {
      UnseenTargets(pairs, p);
    }
    TargetsExact(pairs, p);
    forall c | c in Targets(pairs, p)
      ensures c in numParents && c != p && multiset(Targets(pairs, p))[c] <= numParents[c]
    {
      ElementsOf(pairs, p, c);
      PendingZero(pairs, done, c);
      PendingRelease(pairs, done, p, c);
    }
  }

  // ---------- the worklist sort ----------

  ghost predicate NonDecreasing(s: seq<nat>) {
    forall j, k :: 0 <= j < k < |s| ==> s[j] <= s[k]
  }

  /** lv records the level of each listed element; the levels do not decrease, and none is
      more than one above that of entry i. */
  ghost predicate Leveled<T(!new)>(pairs: Pairs<T>, answer: seq<T>, i: nat, lv: seq<nat>) {
    && |answer| == |lv|
    && (forall k :: 0 <= k < |lv| ==> IsLevel(pairs, answer[k], lv[k]))
    && NonDecreasing(lv)
    && (i < |lv| ==> forall k :: 0 <= k < |lv| ==> lv[k] <= lv[i] + 1)
  }

  /** answer lists exactly the nodes that the processed prefix answer[..i] leaves unblocked. */
  ghost predicate Unblocked<T(!new)>(pairs: Pairs<T>, nodes: set<T>, answer: seq<T>, i: nat) {
    && i <= |answer|
    && Distinct(answer)
    && forall x :: x in answer <==> x in nodes && Pending(pairs, SetOf(answer[..i]), x) == 0
  }

  /** The worklist: answer[..i] is processed, answer[i..] is released but waiting. */
  ghost predicate Worklist<T(!new)>(pairs: Pairs<T>, nodes: set<T>, answer: seq<T>, i: nat) {
    && Unblocked(pairs, nodes, answer, i)
    && ParentsFirst(pairs, answer)
    && exists lv :: Leveled(pairs, answer, i, lv)
  }

  /** The state of the sort between two turns: the worklist and the tables agree. */
  ghost predicate Sorting<T(!new)>(pairs: Pairs<T>, answer: seq<T>, i: nat,
                                   numParents: map<T, nat>, children: map<T, seq<T>>) {
    && Worklist(pairs, Elements(pairs), answer, i)
    && Tables(pairs, Elements(pairs), SetOf(answer[..i]), numParents, children)
    && children.Keys == Parents(pairs) - SetOf(answer[..i])
  }

  lemma WorklistStart<T(!new)>(pairs: Pairs<T>, nodes: set<T>, answer: seq<T>)
    requires Distinct(answer)
    requires forall x :: x in answer <==> x in nodes && Pending(pairs, {}, x) == 0
    ensures Worklist(pairs, nodes, answer, 0)
  {
    var lv := seq(|answer|, _ => 0);
    assert SetOf(answer[..0]) == {};
    forall k | 0 <= k < |answer|
      ensures IsLevel(pairs, answer[k], 0) && forall p :: (p, answer[k]) !in pairs
    {
      assert answer[k] in answer;
      PendingZero(pairs, {}, answer[k]);
      RootLevel(pairs, answer[k]);
    }
    assert Leveled(pairs, answer, 0, lv);
  }

  /** released lists, once each, the nodes that removing p sets free. */
  ghost predicate Releases<T(!new)>(pairs: Pairs<T>, nodes: set<T>, done: set<T>, p: T, released: seq<T>) {
    && Distinct(released)
    && forall x :: x in released <==>
        x in nodes && Pending(pairs, done, x) > 0 && Pending(pairs, done + {p}, x) == 0
  }

  lemma ProcessedMore<T(!new)>(answer: seq<T>, i: nat)
    requires i < |answer| && Distinct(answer)
    ensures SetOf(answer[..i + 1]) == SetOf(answer[..i]) + {answer[i]}
    ensures answer[i] !in SetOf(answer[..i])
  {
    assert answer[..i + 1] == answer[..i] + [answer[i]];
  }

  lemma ReleasedParents<T(!new)>(pairs: Pairs<T>, answer: seq<T>, i: nat, x: T)
    requires i < |answer| && Distinct(answer)
    requires Pending(pairs, SetOf(answer[..i]), x) > 0 && Pending(pairs, SetOf(answer[..i + 1]), x) == 0
    ensures (answer[i], x) in pairs
    ensures forall p :: (p, x) in pairs ==> p in answer[..i + 1]
  {
    ProcessedMore(answer, i);
    PendingZero(pairs, SetOf(answer[..i]), x);
    PendingZero(pairs, SetOf(answer[..i + 1]), x);
    forall p | (p, x) in pairs ensures p in answer[..i + 1] {
      assert p in SetOf(answer[..i + 1]);
    }
  }

  lemma ReleasedLevel<T(!new)>(pairs: Pairs<T>, answer: seq<T>, i: nat, lv: seq<nat>, x: T)
    requires i < |answer| && Leveled(pairs, answer, i, lv)
    requires (answer[i], x) in pairs
    requires forall p :: (p, x) in pairs ==> p in answer[..i + 1]
    ensures IsLevel(pairs, x, lv[i] + 1)
  {
    forall q | (q, x) in pairs ensures !HasChain(pairs, q, lv[i] + 1) {
      var k :| 0 <= k <= i && answer[k] == q;
      if HasChain(pairs, q, lv[i] + 1) {
        ChainShorter(pairs, q, lv[k] + 1, lv[i] + 1);
      }
    }
    LevelFromParents(pairs, x, answer[i], lv[i]);
  }

  lemma UnblockedStep<T(!new)>(pairs: Pairs<T>, nodes: set<T>, answer: seq<T>, i: nat, released: seq<T>)
    requires Unblocked(pairs, nodes, answer, i) && i < |answer|
    requires Releases(pairs, nodes, SetOf(answer[..i]), answer[i], released)
    ensures Unblocked(pairs, nodes, answer + released, i + 1)
  {
    var a := answer + released;
    assert a[..i + 1] == answer[..i + 1];
    ProcessedMore(answer, i);
    forall x ensures x in a <==> x in nodes && Pending(pairs, SetOf(a[..i + 1]), x) == 0 {
      PendingRelease(pairs, SetOf(answer[..i]), answer[i], x);
      assert x in a <==> x in answer || x in released;
    }
    forall j, k | 0 <= j < k < |a| ensures a[j] != a[k] {
      if j < |answer| <= k {
        assert answer[j] in answer && a[k] in released;
      }
    }
  }

  lemma ParentsFirstStep<T(!new)>(pairs: Pairs<T>, answer: seq<T>, i: nat, released: seq<T>)
    requires ParentsFirst(pairs, answer) && i < |answer|
    requires forall x, p :: x in released && (p, x) in pairs ==> p in answer[..i + 1]
    ensures ParentsFirst(pairs, answer + released)
  {
    var a := answer + released;
    forall k, p | 0 <= k < |a| && (p, a[k]) in pairs ensures p in a[..k] {
      if k < |answer| {
        assert a[..k] == answer[..k] && a[k] == answer[k];
      } else {
        assert a[k] in released;
        assert a[..k] == answer[..i + 1] + a[i + 1..k];
      }
    }
  }

  lemma LeveledStep<T(!new)>(pairs: Pairs<T>, answer: seq<T>, i: nat, lv: seq<nat>, released: seq<T>)
    requires i < |answer| && Leveled(pairs, answer, i, lv)
    requires forall x :: x in released ==> IsLevel(pairs, x, lv[i] + 1)
    ensures Leveled(pairs, answer + released, i + 1, lv + seq(|released|, _ => lv[i] + 1))
  {
    var a, l := answer + released, lv + seq(|released|, _ => lv[i] + 1);
    forall k | 0 <= k < |a| ensures IsLevel(pairs, a[k], l[k]) && l[k] <= lv[i] + 1 {
      if k >= |answer| {
        assert a[k] in released;
      }
    }
  }

  lemma WorklistStep<T(!new)>(pairs: Pairs<T>, nodes: set<T>, answer: seq<T>, i: nat, released: seq<T>)
    requires Worklist(pairs, nodes, answer, i) && i < |answer|
    requires Releases(pairs, nodes, SetOf(answer[..i]), answer[i], released)
    ensures Worklist(pairs, nodes, answer + released, i + 1)
    ensures (answer + released)[..i + 1] == answer[..i + 1]
  {
    var lv :| Leveled(pairs, answer, i, lv);
    ProcessedMore(answer, i);
    forall x | x in released
      ensures IsLevel(pairs, x, lv[i] + 1) && forall p :: (p, x) in pairs ==> p in answer[..i + 1]
    {
      ReleasedParents(pairs, answer, i, x);
      ReleasedLevel(pairs, answer, i, lv, x);
    }
    UnblockedStep(pairs, nodes, answer, i, released);
    ParentsFirstStep(pairs, answer, i, released);
    LeveledStep(pairs, answer, i, lv, released);
  }

  /** When nothing waits, what is listed is exactly what no cycle reaches. */
  lemma SplitByCycles<T(!new)>(pairs: Pairs<T>, nodes: set<T>, answer: seq<T>)
    requires Elements(pairs) <= nodes
    requires Unblocked(pairs, nodes, answer, |answer|) && ParentsFirst(pairs, answer)
    ensures forall x :: x in answer <==> x in nodes && !Downstream(pairs, x)
    ensures SetOf(answer) == nodes <==> Acyclic(pairs)
  {
    var done, rest := SetOf(answer), nodes - SetOf(answer);
    assert answer[..|answer|] == answer;
    forall x | x in rest ensures HasParentIn(pairs, rest, x) {
      PendingZero(pairs, done, x);
      assert x !in answer;
      var p :| (p, x) in pairs && p !in done;
      ElementsOf(pairs, p, x);
    }
    forall x ensures x in answer <==> x in nodes && !Downstream(pairs, x) {
      if x in answer {
        ListedNotDownstream(pairs, answer, x);
      } else if x in nodes {
        StuckDownstream(pairs, rest, x);
      }
    }
    if SetOf(answer) == nodes {
      forall c ensures !IsCycle(pairs, c) {
        if IsCycle(pairs, c) {
          CycleDownstream(pairs, c);
        }
      }
    } else {
      assert SetOf(answer) <= nodes;
      assert nodes == SetOf(answer) + rest;
      var x :| x in rest;
      StuckDownstream(pairs, rest, x);
    }
  }

  /** The levels of the listed elements never decrease along the list. */
  ghost predicate ListsByLevel<T(!new)>(pairs: Pairs<T>, a: seq<T>) {
    exists lv: seq<nat> :: LevelledBy(pairs, a, lv)
  }

  ghost predicate LevelledBy<T(!new)>(pairs: Pairs<T>, a: seq<T>, lv: seq<nat>) {
    |a| == |lv| && NonDecreasing(lv) && forall k :: 0 <= k < |a| ==> IsLevel(pairs, a[k], lv[k])
  }

  /** What a cycle error reports: the elements left over, each with the number of pairs that
      still hold it back, and the untouched successor lists of the parents among them. */
  ghost predicate Residue<T(!new)>(pairs: Pairs<T>, done: set<T>, numParents: map<T, nat>, children: map<T, seq<T>>) {
    && numParents.Keys == Elements(pairs) - done
    && (forall x :: x in numParents ==> numParents[x] == Pending(pairs, done, x) > 0)
    && children.Keys == Parents(pairs) - done
    && (forall p :: p in children ==> children[p] == Targets(pairs, p))
  }

  /** Deletes a parent that nothing holds back, decrements the counts of its children and
      collects those that reach zero. */
  method ReleaseChildren<T(==,!new)>(ghost pairs: Pairs<T>, ghost nodes: set<T>, ghost done: set<T>, parent: T,
                                     numParents: map<T, nat>, children: map<T, seq<T>>)
    returns (left: map<T, nat>, rest: map<T, seq<T>>, released: seq<T>)
    requires Elements(pairs) <= nodes && Tables(pairs, nodes, done, numParents, children)
    requires parent in nodes && parent !in done && forall x :: x in done + {parent} ==> Pending(pairs, done, x) == 0
    ensures Tables(pairs, nodes, done + {parent}, left, rest)
    ensures rest.Keys == children.Keys - {parent}
    ensures Releases(pairs, nodes, done, parent, released)
    ensures |left| < |numParents|
  {
    Removable(pairs, nodes, done, parent, numParents, children);
    left, rest, released := numParents - {parent}, children, [];
    if parent in children {
      left, released := KnockDown(children[parent], left);
      rest := children - {parent};
    }
    TablesRemove(pairs, nodes, done, parent, numParents, children, left, rest);
    ReleasedExactly(pairs, nodes, done, parent, numParents, left, released);
  }

  lemma ReleasedExactly<T(!new)>(pairs: Pairs<T>, nodes: set<T>, done: set<T>, p: T,
                                 counts: map<T, nat>, left: map<T, nat>, released: seq<T>)
    requires counts.Keys == nodes - done && left.Keys == nodes - (done + {p}) && p in counts
    requires forall x :: x in done + {p} ==> Pending(pairs, done, x) == 0
    requires forall x :: x in counts ==> counts[x] == Pending(pairs, done, x)
    requires forall x :: x in left ==> left[x] == Pending(pairs, done + {p}, x)
    requires Distinct(released) && forall x :: x in released <==> x in left && counts[x] > 0 && left[x] == 0
    ensures Releases(pairs, nodes, done, p, released)
    ensures |left| < |counts|
  {
    SmallerMap(counts, left, p);
  }

  /** One turn of the worklist. */
  method RemoveParent<T(==,!new)>(ghost pairs: Pairs<T>, answer: seq<T>, i: nat,
                                  numParents: map<T, nat>, children: map<T, seq<T>>)
    returns (longer: seq<T>, left: map<T, nat>, rest: map<T, seq<T>>)
    requires i < |answer| && Sorting(pairs, answer, i, numParents, children)
    ensures Sorting(pairs, longer, i + 1, left, rest)
    ensures |left| < |numParents|
  {
    SortingReady(pairs, answer, i, numParents, children);
    var released;
    left, rest, released :=
      ReleaseChildren(pairs, Elements(pairs), SetOf(answer[..i]), answer[i], numParents, children);
    longer := answer + released;
    SortingStep(pairs, answer, i, numParents, children, left, rest, released);
  }

  lemma SortingReady<T(!new)>(pairs: Pairs<T>, answer: seq<T>, i: nat,
                              numParents: map<T, nat>, children: map<T, seq<T>>)
    requires i < |answer| && Sorting(pairs, answer, i, numParents, children)
    ensures answer[i] in Elements(pairs) && answer[i] !in SetOf(answer[..i])
    ensures forall x :: x in SetOf(answer[..i]) + {answer[i]} ==> Pending(pairs, SetOf(answer[..i]), x) == 0
  {
    ProcessedMore(answer, i);
    assert forall x :: x in SetOf(answer[..i]) + {answer[i]} ==> x in answer;
  }

  lemma SortingStep<T(!new)>(pairs: Pairs<T>, answer: seq<T>, i: nat,
                             numParents: map<T, nat>, children: map<T, seq<T>>,
                             left: map<T, nat>, rest: map<T, seq<T>>, released: seq<T>)
    requires i < |answer| && Sorting(pairs, answer, i, numParents, children)
    requires Tables(pairs, Elements(pairs), SetOf(answer[..i]) + {answer[i]}, left, rest)
    requires rest.Keys == children.Keys - {answer[i]}
    requires Releases(pairs, Elements(pairs), SetOf(answer[..i]), answer[i], released)
    ensures Sorting(pairs, answer + released, i + 1, left, rest)
  {
    ProcessedMore(answer, i);
    WorklistStep(pairs, Elements(pairs), answer, i, released);
  }

  method Topsort<T(==,!new)>(pairs: Pairs<T>) returns (r: Outcome<T>)
    ensures DependencyOrder(pairs, r.answer)
    ensures r.Sorted? <==> Acyclic(pairs)
    ensures r.CycleError? ==> Residue(pairs, SetOf(r.answer), r.numParents, r.children)
  {
    var numParents, children := BuildTables(pairs);
    var answer := ZeroKeys(numParents);
    WorklistStart(pairs, Elements(pairs), answer);
    var i := 0;
    while i < |answer|
      invariant Sorting(pairs, answer, i, numParents, children)
      decreases |numParents|
    {
      answer, numParents, children := RemoveParent(pairs, answer, i, numParents, children);
      i := i + 1;
    }
    SortingDone(pairs, answer, numParents, children);
    return if numParents == map[] then Sorted(answer) else CycleError(answer, numParents, children);
  }

  /** What the sort promises about its answer, on cyclic input too. */
  ghost predicate DependencyOrder<T(!new)>(pairs: Pairs<T>, answer: seq<T>) {
    && Distinct(answer)
    && ParentsFirst(pairs, answer)
    && ListsByLevel(pairs, answer)
    && forall x :: x in answer <==> x in Elements(pairs) && !Downstream(pairs, x)
  }

  lemma SortingDone<T(!new)>(pairs: Pairs<T>, answer: seq<T>, numParents: map<T, nat>, children: map<T, seq<T>>)
    requires Sorting(pairs, answer, |answer|, numParents, children)
    ensures DependencyOrder(pairs, answer)
    ensures numParents == map[] <==> Acyclic(pairs)
    ensures numParents != map[] ==> Residue(pairs, SetOf(answer), numParents, children)
  {
    assert answer[..|answer|] == answer;
    SplitByCycles(pairs, Elements(pairs), answer);
    var lv :| Leveled(pairs, answer, |answer|, lv);
    assert LevelledBy(pairs, answer, lv);
    assert SetOf(answer) <= Elements(pairs);
    if numParents == map[] {
      assert numParents.Keys == {};
    } else {
      ResidueOf(pairs, answer, numParents, children);
    }
  }

  lemma ResidueOf<T(!new)>(pairs: Pairs<T>, answer: seq<T>, numParents: map<T, nat>, children: map<T, seq<T>>)
    requires Unblocked(pairs, Elements(pairs), answer, |answer|)
    requires Tables(pairs, Elements(pairs), SetOf(answer), numParents, children)
    requires children.Keys == Parents(pairs) - SetOf(answer) && numParents != map[]
    ensures Residue(pairs, SetOf(answer), numParents, children)
    ensures SetOf(answer) != Elements(pairs)
  {
    assert answer[..|answer|] == answer;
    forall x | x in numParents ensures numParents[x] == Pending(pairs, SetOf(answer), x) > 0 {
      assert x !in answer;
    }
    assert numParents.Keys != {};
  }

  // ---------- the level-by-level sort ----------

  /** levels[k] lists exactly the nodes of level k, each once, and no level is empty. */
  ghost predicate LevelLists<T(!new)>(pairs: Pairs<T>, nodes: set<T>, levels: seq<seq<T>>) {
    forall k :: 0 <= k < |levels| ==> LevelList(pairs, nodes, levels[k], k)
  }

  ghost predicate LevelList<T(!new)>(pairs: Pairs<T>, nodes: set<T>, level: seq<T>, k: nat) {
    level != [] && Distinct(level) && forall x :: x in level <==> x in nodes && IsLevel(pairs, x, k)
  }

  ghost predicate InSome<T>(levels: seq<seq<T>>, x: T) {
    exists k :: 0 <= k < |levels| && x in levels[k]
  }

  /** The nodes of the first k levels. */
  ghost function Below<T(!new)>(pairs: Pairs<T>, nodes: set<T>, k: nat): set<T> {
    set x | x in nodes && !HasChain(pairs, x, k)
  }

  lemma BelowStep<T(!new)>(pairs: Pairs<T>, nodes: set<T>, k: nat, x: T)
    ensures x in Below(pairs, nodes, k + 1) <==> x in Below(pairs, nodes, k) || (x in nodes && IsLevel(pairs, x, k))
  {
    if HasChain(pairs, x, k + 1) {
      ChainShorter(pairs, x, k, k + 1);
    }
  }

  /** Once the levels below k are gone, the nodes without pending pairs are level k. */
  lemma UnblockedIsLevel<T(!new)>(pairs: Pairs<T>, nodes: set<T>, k: nat, x: T)
    requires Elements(pairs) <= nodes && x in nodes
    ensures Pending(pairs, Below(pairs, nodes, k), x) == 0 <==> x in Below(pairs, nodes, k + 1)
  {
    PendingZero(pairs, Below(pairs, nodes, k), x);
    if x in Below(pairs, nodes, k + 1) {
      forall q | (q, x) in pairs ensures q in Below(pairs, nodes, k) {
        ElementsOf(pairs, q, x);
        if HasChain(pairs, q, k) {
          ChainExtend(pairs, q, x, k);
        }
      }
    } else {
      var q := ChainParent(pairs, x, k);
      assert q !in Below(pairs, nodes, k);
    }
  }

  lemma PendingMonotone<T(!new)>(pairs: Pairs<T>, done: set<T>, more: set<T>, x: T)
    requires Pending(pairs, done, x) == 0 && done <= more
    ensures Pending(pairs, more, x) == 0
  {
    PendingZero(pairs, done, x);
    PendingZero(pairs, more, x);
  }

  method DecrementAll<T(==)>(children: seq<T>, counts: map<T, nat>) returns (left: map<T, nat>)
    requires forall c :: c in children ==> c in counts && multiset(children)[c] <= counts[c]
    ensures left.Keys == counts.Keys
    ensures forall x :: x in counts ==> left[x] + multiset(children)[x] == counts[x]
  {
    left := counts;
    for j := 0 to |children|
      invariant left.Keys == counts.Keys
      invariant forall x :: x in counts ==> left[x] + multiset(children[..j])[x] == counts[x]
    {
      var child := children[j];
      PrefixCount(children, j);
      assert child in children && left[child] > 0;
      left := left[child := left[child] - 1];
    }
    assert children[..|children|] == children;
  }

  /** Deletes one parent that nothing holds back and decrements the counts of its children. */
  method RemoveOne<T(==,!new)>(ghost pairs: Pairs<T>, ghost nodes: set<T>, ghost done: set<T>, parent: T,
                               numParents: map<T, nat>, children: map<T, seq<T>>)
    returns (left: map<T, nat>, rest: map<T, seq<T>>)
    requires Elements(pairs) <= nodes && Tables(pairs, nodes, done, numParents, children)
    requires parent in nodes && parent !in done && forall x :: x in done + {parent} ==> Pending(pairs, done, x) == 0
    ensures Tables(pairs, nodes, done + {parent}, left, rest)
    ensures rest.Keys == children.Keys - {parent}
  {
    Removable(pairs, nodes, done, parent, numParents, children);
    left, rest := numParents - {parent}, children;
    if parent in children {
      left := DecrementAll(children[parent], left);
      rest := children - {parent};
    }
    TablesRemove(pairs, nodes, done, parent, numParents, children, left, rest);
  }

  /** Removes one level: its elements and, from the counts of their children, its pairs. */
  method RemoveLevel<T(==,!new)>(ghost pairs: Pairs<T>, ghost nodes: set<T>, ghost done: set<T>, level: seq<T>,
                                 numParents: map<T, nat>, children: map<T, seq<T>>)
    returns (left: map<T, nat>, rest: map<T, seq<T>>)
    requires Elements(pairs) <= nodes && Tables(pairs, nodes, done, numParents, children)
    requires Distinct(level) && forall x :: x in level ==> x in nodes && x !in done
    requires forall x :: x in done || x in level ==> Pending(pairs, done, x) == 0
    ensures Tables(pairs, nodes, done + SetOf(level), left, rest)
    ensures rest.Keys == children.Keys - SetOf(level)
    ensures level != [] ==> |left| < |numParents|
  {
    left, rest := numParents, children;
    assert done + SetOf(level[..0]) == done;
    for m := 0 to |level|
      invariant Tables(pairs, nodes, done + SetOf(level[..m]), left, rest)
      invariant rest.Keys == children.Keys - SetOf(level[..m])
    {
      LevelReady(pairs, done, level, m);
      left, rest := RemoveOne(pairs, nodes, done + SetOf(level[..m]), level[m], left, rest);
    }
    assert level[..|level|] == level;
    if level != [] {
      assert level[0] in level;
      SmallerMap(numParents, left, level[0]);
    }
  }

  lemma LevelReady<T(!new)>(pairs: Pairs<T>, done: set<T>, level: seq<T>, m: nat)
    requires m < |level| && Distinct(level) && forall x :: x in level ==> x !in done
    requires forall x :: x in done || x in level ==> Pending(pairs, done, x) == 0
    ensures level[m] in level && level[m] !in done + SetOf(level[..m])
    ensures done + SetOf(level[..m]) + {level[m]} == done + SetOf(level[..m + 1])
    ensures forall x :: x in done + SetOf(level[..m]) + {level[m]} ==>
      Pending(pairs, done + SetOf(level[..m]), x) == 0
  {
    ProcessedMore(level, m);
    forall x | x in done + SetOf(level[..m]) + {level[m]}
      ensures Pending(pairs, done + SetOf(level[..m]), x) == 0
    {
      PendingMonotone(pairs, done, done + SetOf(level[..m]), x);
    }
  }

  /** level lists, once each, the nodes outside done that nothing outside done holds back. */
  ghost predicate Free<T(!new)>(pairs: Pairs<T>, nodes: set<T>, done: set<T>, level: seq<T>) {
    && Distinct(level)
    && forall x :: x in level <==> x in nodes && x !in done && Pending(pairs, done, x) == 0
  }

  /** Collects the nodes whose count is zero and takes them out of the tables. */
  method TakeLevel<T(==,!new)>(ghost pairs: Pairs<T>, ghost nodes: set<T>, ghost done: set<T>,
                               numParents: map<T, nat>, children: map<T, seq<T>>)
    returns (level: seq<T>, left: map<T, nat>, rest: map<T, seq<T>>)
    requires Elements(pairs) <= nodes && Tables(pairs, nodes, done, numParents, children)
    requires forall x :: x in done ==> Pending(pairs, done, x) == 0
    ensures Free(pairs, nodes, done, level)
    ensures Tables(pairs, nodes, done + SetOf(level), left, rest)
    ensures rest.Keys == children.Keys - SetOf(level)
    ensures level != [] ==> |left| < |numParents|
  {
    level := ZeroKeys(numParents);
    left, rest := RemoveLevel(pairs, nodes, done, level, numParents, children);
  }

  lemma TablesRemove<T(!new)>(pairs: Pairs<T>, nodes: set<T>, done: set<T>, p: T,
                              numParents: map<T, nat>, children: map<T, seq<T>>,
                              left: map<T, nat>, rest: map<T, seq<T>>)
    requires p !in done && Tables(pairs, nodes, done, numParents, children)
    requires left.Keys == numParents.Keys - {p} && rest == children - {p}
    requires forall x :: x in left ==> left[x] + multiset(Targets(pairs, p))[x] == numParents[x]
    ensures Tables(pairs, nodes, done + {p}, left, rest)
  {
    forall x | x in left ensures left[x] == Pending(pairs, done + {p}, x) {
      PendingRelease(pairs, done, p, x);
    }
  }

  /** The nodes that no cycle reaches. */
  ghost function Settled<T(!new)>(pairs: Pairs<T>, nodes: set<T>): set<T> {
    set x | x in nodes && !Downstream(pairs, x)
  }

  /** If no node is at level k, the levels below k hold exactly the settled nodes. */
  lemma SettledBelow<T(!new)>(pairs: Pairs<T>, nodes: set<T>, k: nat)
    requires Elements(pairs) <= nodes
    requires Below(pairs, nodes, k + 1) == Below(pairs, nodes, k)
    ensures Below(pairs, nodes, k) == Settled(pairs, nodes)
  {
    var rest := nodes - Below(pairs, nodes, k);
    forall x | x in rest ensures HasParentIn(pairs, rest, x) {
      UnblockedIsLevel(pairs, nodes, k, x);
      PendingZero(pairs, Below(pairs, nodes, k), x);
      var p :| (p, x) in pairs && p !in Below(pairs, nodes, k);
      ElementsOf(pairs, p, x);
    }
    forall x | x in nodes ensures x in rest <==> Downstream(pairs, x) {
      if x in rest {
        StuckDownstream(pairs, rest, x);
      } else if Downstream(pairs, x) {
        DownstreamChain(pairs, x, k);
      }
    }
  }

  /** Every node is settled exactly when there is no cycle. */
  lemma SettledAcyclic<T(!new)>(pairs: Pairs<T>, nodes: set<T>)
    requires Elements(pairs) <= nodes
    ensures Settled(pairs, nodes) == nodes <==> Acyclic(pairs)
  {
    if Settled(pairs, nodes) == nodes {
      forall c ensures !IsCycle(pairs, c) {
        if IsCycle(pairs, c) {
          CycleDownstream(pairs, c);
        }
      }
    }
  }

  /** The generator between two turns: the levels yielded and what is left in the tables. */
  ghost predicate Levelling<T(!new)>(pairs: Pairs<T>, nodes: set<T>, parents: set<T>, levels: seq<seq<T>>,
                                     left: map<T, nat>, rest: map<T, seq<T>>) {
    && LevelLists(pairs, nodes, levels)
    && Tables(pairs, nodes, Below(pairs, nodes, |levels|), left, rest)
    && rest.Keys == parents - Below(pairs, nodes, |levels|)
  }

  /** One turn of the generator: yields the nodes without pending pairs, if there are any, and
      takes them out of the tables. */
  method NextLevel<T(==,!new)>(ghost pairs: Pairs<T>, ghost nodes: set<T>, ghost parents: set<T>, levels: seq<seq<T>>,
                               numParents: map<T, nat>, children: map<T, seq<T>>)
    returns (more: seq<seq<T>>, left: map<T, nat>, rest: map<T, seq<T>>)
    requires Elements(pairs) <= nodes && Levelling(pairs, nodes, parents, levels, numParents, children)
    ensures Levelling(pairs, nodes, parents, more, left, rest)
    ensures if |more| == |levels|
      then Below(pairs, nodes, |more| + 1) == Below(pairs, nodes, |more|)
      else |left| < |numParents|
  {
    BelowUnblocked(pairs, nodes, |levels|);
    var level;
    level, left, rest := TakeLevel(pairs, nodes, Below(pairs, nodes, |levels|), numParents, children);
    more := if level == [] then levels else levels + [level];
    LevellingStep(pairs, nodes, parents, levels, level, left, rest);
  }

  lemma LevellingStep<T(!new)>(pairs: Pairs<T>, nodes: set<T>, parents: set<T>, levels: seq<seq<T>>,
                               level: seq<T>, left: map<T, nat>, rest: map<T, seq<T>>)
    requires Elements(pairs) <= nodes && LevelLists(pairs, nodes, levels)
    requires Free(pairs, nodes, Below(pairs, nodes, |levels|), level)
    requires Tables(pairs, nodes, Below(pairs, nodes, |levels|) + SetOf(level), left, rest)
    requires rest.Keys == parents - Below(pairs, nodes, |levels|) - SetOf(level)
    ensures level == [] ==> Below(pairs, nodes, |levels| + 1) == Below(pairs, nodes, |levels|)
    ensures Levelling(pairs, nodes, parents, if level == [] then levels else levels + [level], left, rest)
  {
    FreeIsLevel(pairs, nodes, |levels|, level);
    if level == [] {
      assert Below(pairs, nodes, |levels|) + SetOf(level) == Below(pairs, nodes, |levels|);
    } else {
      LevelsAppend(pairs, nodes, levels, level);
      assert |levels + [level]| == |levels| + 1;
    }
  }

  /** The generator as its whole yield.  The tables may mention nodes without any pair and
      empty child lists, as long as they agree with some pair list. */
  method TopsortLevelsCore<T(==,!new)>(ghost pairs: Pairs<T>, numParents: map<T, nat>, children: map<T, seq<T>>)
    returns (r: LevelsOutcome<T>)
    requires Elements(pairs) <= numParents.Keys && Tables(pairs, numParents.Keys, {}, numParents, children)
    ensures LevelLists(pairs, numParents.Keys, r.levels)
    ensures forall x :: InSome(r.levels, x) <==> x in Settled(pairs, numParents.Keys)
    ensures r.AllLevels? <==> Acyclic(pairs)
    ensures r.LevelsCycleError? ==>
      && Tables(pairs, numParents.Keys, Settled(pairs, numParents.Keys), r.numParents, r.children)
      && r.children.Keys == children.Keys - Settled(pairs, numParents.Keys)
  {
    ghost var nodes := numParents.Keys;
    var left, rest, levels := numParents, children, [];
    BelowZero(pairs, nodes);
    while true
      invariant Levelling(pairs, nodes, children.Keys, levels, left, rest)
      decreases |left|
    {
      var n := |levels|;
      levels, left, rest := NextLevel(pairs, nodes, children.Keys, levels, left, rest);
      if |levels| == n {
        break;
      }
    }
    LevelsDone(pairs, nodes, levels, children.Keys, left, rest);
    return if left == map[] then AllLevels(levels) else LevelsCycleError(levels, left, rest);
  }

  lemma LevelsAppend<T(!new)>(pairs: Pairs<T>, nodes: set<T>, levels: seq<seq<T>>, level: seq<T>)
    requires LevelLists(pairs, nodes, levels) && LevelList(pairs, nodes, level, |levels|)
    ensures LevelLists(pairs, nodes, levels + [level])
  {
    var more := levels + [level];
    forall k | 0 <= k < |more| ensures LevelList(pairs, nodes, more[k], k) {
      assert k < |levels| ==> more[k] == levels[k];
    }
  }

  lemma LevelsDone<T(!new)>(pairs: Pairs<T>, nodes: set<T>, levels: seq<seq<T>>, parents: set<T>,
                            left: map<T, nat>, rest: map<T, seq<T>>)
    requires Elements(pairs) <= nodes && Levelling(pairs, nodes, parents, levels, left, rest)
    requires Below(pairs, nodes, |levels| + 1) == Below(pairs, nodes, |levels|)
    ensures forall x :: InSome(levels, x) <==> x in Settled(pairs, nodes)
    ensures left == map[] <==> Acyclic(pairs)
    ensures Tables(pairs, nodes, Settled(pairs, nodes), left, rest)
    ensures rest.Keys == parents - Settled(pairs, nodes)
  {
    SettledBelow(pairs, nodes, |levels|);
    SettledAcyclic(pairs, nodes);
    LevelsCover(pairs, nodes, levels);
    assert left.Keys == nodes - Settled(pairs, nodes) && Settled(pairs, nodes) <= nodes;
    assert left == map[] <==> left.Keys == {};
    assert nodes == left.Keys + Settled(pairs, nodes);
  }

  lemma SmallerMap<K, V>(big: map<K, V>, small: map<K, V>, x: K)
    requires x in big && small.Keys <= big.Keys - {x}
    ensures |small| < |big|
  {
    SmallerSet(small.Keys, big.Keys - {x});
    assert |big.Keys - {x}| == |big.Keys| - 1;
  }

  lemma SmallerSet<K>(small: set<K>, big: set<K>)
    requires small <= big
    ensures |small| <= |big|
  {
    assert big == small + (big - small);
  }

  lemma BelowZero<T(!new)>(pairs: Pairs<T>, nodes: set<T>)
    ensures Below(pairs, nodes, 0) == {}
  {
    forall x | x in nodes ensures HasChain(pairs, x, 0) {
      ChainZero(pairs, x);
    }
  }

  lemma BelowUnblocked<T(!new)>(pairs: Pairs<T>, nodes: set<T>, k: nat)
    requires Elements(pairs) <= nodes
    ensures forall x :: x in Below(pairs, nodes, k) ==> Pending(pairs, Below(pairs, nodes, k), x) == 0
  {
    forall x | x in Below(pairs, nodes, k) ensures Pending(pairs, Below(pairs, nodes, k), x) == 0 {
      UnblockedIsLevel(pairs, nodes, k, x);
      BelowStep(pairs, nodes, k, x);
    }
  }

  /** The nodes that come free once the levels below k are gone are level k. */
  lemma FreeIsLevel<T(!new)>(pairs: Pairs<T>, nodes: set<T>, k: nat, level: seq<T>)
    requires Elements(pairs) <= nodes && Free(pairs, nodes, Below(pairs, nodes, k), level)
    ensures level != [] ==> LevelList(pairs, nodes, level, k)
    ensures Below(pairs, nodes, k + 1) == Below(pairs, nodes, k) + SetOf(level)
  {
    forall x | x in nodes
      ensures x in level <==> IsLevel(pairs, x, k)
      ensures x in Below(pairs, nodes, k + 1) <==> x in Below(pairs, nodes, k) || x in level
    {
      UnblockedIsLevel(pairs, nodes, k, x);
      BelowStep(pairs, nodes, k, x);
    }
  }

  lemma LevelsCover<T(!new)>(pairs: Pairs<T>, nodes: set<T>, levels: seq<seq<T>>)
    requires LevelLists(pairs, nodes, levels)
    ensures forall x :: InSome(levels, x) <==> x in Below(pairs, nodes, |levels|)
  {
    forall x ensures InSome(levels, x) <==> x in Below(pairs, nodes, |levels|) {
      if k :| 0 <= k < |levels| && x in levels[k] {
        assert LevelList(pairs, nodes, levels[k], k);
        if HasChain(pairs, x, |levels|) {
          ChainShorter(pairs, x, k + 1, |levels|);
        }
      }
      if x in Below(pairs, nodes, |levels|) {
        var k := LevelBelow(pairs, x, |levels|);
        assert LevelList(pairs, nodes, levels[k], k);
      }
    }
  }

  method TopsortLevels<T(==,!new)>(pairs: Pairs<T>) returns (r: LevelsOutcome<T>)
    ensures LevelLists(pairs, Elements(pairs), r.levels)
    ensures forall x :: InSome(r.levels, x) <==> x in Elements(pairs) && !Downstream(pairs, x)
    ensures r.AllLevels? <==> Acyclic(pairs)
    ensures r.LevelsCycleError? ==>
      Residue(pairs, Settled(pairs, Elements(pairs)), r.numParents, r.children)
  {
    var numParents, children := BuildTables(pairs);
    assert numParents.Keys == Elements(pairs);
    r := TopsortLevelsCore(pairs, numParents, children);
    if r.LevelsCycleError? {
      LevelsResidue(pairs, r.numParents, r.children);
    }
  }

  lemma LevelsResidue<T(!new)>(pairs: Pairs<T>, numParents: map<T, nat>, children: map<T, seq<T>>)
    requires Tables(pairs, Elements(pairs), Settled(pairs, Elements(pairs)), numParents, children)
    requires children.Keys == Parents(pairs) - Settled(pairs, Elements(pairs))
    ensures Residue(pairs, Settled(pairs, Elements(pairs)), numParents, children)
  {
    var done := Settled(pairs, Elements(pairs));
    forall x | x in numParents ensures numParents[x] == Pending(pairs, done, x) > 0 {
      if Pending(pairs, done, x) == 0 {
        UnsettledParent(pairs, x);
        PendingZero(pairs, done, x);
        assert false;
      }
    }
  }

  /** What a cycle reaches, it reaches through a parent that it reaches as well. */
  lemma UnsettledParent<T(!new)>(pairs: Pairs<T>, x: T)
    requires Downstream(pairs, x)
    ensures exists p :: (p, x) in pairs && Downstream(pairs, p)
  {
    var c, w :| IsCycle(pairs, c) && IsWalk(pairs, w) && w[0] == c[0] && w[|w| - 1] == x;
    var v := if |w| >= 2 then w else c;
    UpstreamWalk(pairs, c, v);
    assert (v[|v| - 2], v[|v| - 1]) in pairs;
  }

  lemma UpstreamWalk<T(!new)>(pairs: Pairs<T>, c: seq<T>, v: seq<T>)
    requires IsCycle(pairs, c) && IsWalk(pairs, v) && v[0] == c[0] && |v| >= 2
    ensures Downstream(pairs, v[|v| - 2])
  {
    WalkSlice(pairs, v, 0, |v| - 1);
  }

  // ---------- the two sorts agree ----------

  /** answer is the levels laid end to end, up to the order inside each level. */
  ghost predicate BlocksMatch<T>(answer: seq<T>, levels: seq<seq<T>>) {
    if levels == [] then answer == [] else
      && |levels[0]| <= |answer|
      && multiset(answer[..|levels[0]|]) == multiset(levels[0])
      && BlocksMatch(answer[|levels[0]|..], levels[1..])
  }

  lemma SortsAgree<T(!new)>(pairs: Pairs<T>, answer: seq<T>, levels: seq<seq<T>>)
    requires DependencyOrder(pairs, answer) && LevelLists(pairs, Elements(pairs), levels)
    requires forall x :: InSome(levels, x) <==> x in Elements(pairs) && !Downstream(pairs, x)
    ensures BlocksMatch(answer, levels)
  {
    var lv :| LevelledBy(pairs, answer, lv);
    forall i | 0 <= i < |answer|
      ensures 0 <= lv[i] < |levels|
      ensures forall k :: 0 <= k < |levels| ==> (answer[i] in levels[k] <==> lv[i] == k)
    {
      EntryLevel(pairs, answer, lv, levels, i);
    }
    forall k | 0 <= k < |levels| ensures Distinct(levels[k]) && forall x :: x in levels[k] ==> x in answer {
      assert LevelList(pairs, Elements(pairs), levels[k], k);
      forall x | x in levels[k] ensures x in answer {
        assert InSome(levels, x);
      }
    }
    BlocksFrom(answer, lv, levels, 0);
  }

  /** The position of an element in the answer and the list it is in tell the same level. */
  lemma EntryLevel<T(!new)>(pairs: Pairs<T>, answer: seq<T>, lv: seq<nat>, levels: seq<seq<T>>, i: nat)
    requires LevelledBy(pairs, answer, lv) && LevelLists(pairs, Elements(pairs), levels) && i < |answer|
    requires answer[i] in Elements(pairs) && InSome(levels, answer[i])
    ensures lv[i] < |levels|
    ensures forall k :: 0 <= k < |levels| ==> (answer[i] in levels[k] <==> lv[i] == k)
  {
    forall k | 0 <= k < |levels| ensures answer[i] in levels[k] <==> lv[i] == k {
      assert LevelList(pairs, Elements(pairs), levels[k], k);
      if answer[i] in levels[k] {
        LevelUnique(pairs, answer[i], lv[i], k);
      }
    }
  }

  /** lv tells, for each entry of a, which of the lists it is in, counting from base. */
  ghost predicate Ranked<T>(a: seq<T>, lv: seq<nat>, levels: seq<seq<T>>, base: nat) {
    && |a| == |lv| && Distinct(a) && NonDecreasing(lv)
    && (forall i :: 0 <= i < |a| ==> base <= lv[i] < base + |levels|)
    && (forall i, k :: 0 <= i < |a| && 0 <= k < |levels| ==> (a[i] in levels[k] <==> lv[i] == base + k))
    && (forall k :: 0 <= k < |levels| ==> Distinct(levels[k]))
    && (forall k :: 0 <= k < |levels| ==> forall x :: x in levels[k] ==> x in a)
  }

  lemma {:induction false} BlocksFrom<T(!new)>(a: seq<T>, lv: seq<nat>, levels: seq<seq<T>>, base: nat)
    requires Ranked(a, lv, levels, base)
    ensures BlocksMatch(a, levels)
    decreases |levels|
  {
    assert |a| > 0 ==> base <= lv[0] < base + |levels|;
    if levels != [] {
      var m := FirstBlock(a, lv, levels, base);
      var tail, tls := a[m..], levels[1..];
      forall k, x | 0 <= k < |tls| && x in tls[k] ensures x in tail {
        assert levels[k + 1] == tls[k] && x in a;
        var i :| 0 <= i < |a| && a[i] == x;
        assert tail[i - m] == x;
      }
      BlocksFrom(tail, lv[m..], tls, base + 1);
    }
  }

  /** The entries of the lowest level are a prefix, and they are the first list. */
  lemma FirstBlock<T(!new)>(a: seq<T>, lv: seq<nat>, levels: seq<seq<T>>, base: nat) returns (m: nat)
    requires Ranked(a, lv, levels, base) && levels != []
    ensures m == |levels[0]| <= |a| && multiset(a[..m]) == multiset(levels[0])
    ensures forall i :: 0 <= i < |a| ==> (i < m <==> lv[i] == base)
  {
    m := 0;
    while m < |a| && lv[m] == base
      invariant m <= |a| && forall i :: 0 <= i < m ==> lv[i] == base
    {
      m := m + 1;
    }
    forall x | x in levels[0] ensures x in a[..m] {
      assert x in a;
      var i :| 0 <= i < |a| && a[i] == x;
      assert lv[i] == base + 0;
      assert a[..m][i] == x;
    }
    SameElements(a[..m], levels[0]);
  }

  lemma {:induction false} OnceEach<T(!new)>(s: seq<T>, x: T)
    requires Distinct(s)
    ensures multiset(s)[x] == if x in s then 1 else 0
    decreases |s|
  {
    if s != [] {
      assert s == [s[0]] + s[1..];
      OnceEach(s[1..], x);
    }
  }

  lemma SameElements<T(!new)>(s: seq<T>, t: seq<T>)
    requires Distinct(s) && Distinct(t) && forall x :: x in s <==> x in t
    ensures multiset(s) == multiset(t) && |s| == |t|
  {
    forall x ensures multiset(s)[x] == multiset(t)[x] {
      OnceEach(s, x);
      OnceEach(t, x);
    }
    assert |multiset(s)| == |s| && |multiset(t)| == |t|;
  }
}
