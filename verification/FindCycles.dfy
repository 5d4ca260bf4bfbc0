/** The cycle enumerator of bindings/python/topsort.py, its generator taken as the sequence
    of all it yields. */
module FindCycles {
  import opened Rotation
  import opened Sequences

  /** parent -> its children; a node may be a child without being a key. */
  type Graph<T> = map<T, seq<T>>

  ghost predicate Edge<T>(g: Graph<T>, a: T, b: T) {
    a in g && b in g[a]
  }

  ghost predicate IsWalk<T>(g: Graph<T>, w: seq<T>) {
    w != [] && forall i :: 0 <= i < |w| - 1 ==> Edge(g, w[i], w[i + 1])
  }

  /** A walk that repeats no node. */
  ghost predicate IsPath<T>(g: Graph<T>, p: seq<T>) {
    IsWalk(g, p) && Distinct(p)
  }

  ghost predicate ElementaryCycle<T>(g: Graph<T>, c: seq<T>) {
    IsPath(g, c) && Edge(g, c[|c| - 1], c[0])
  }

  ghost predicate Reaches<T(!new)>(g: Graph<T>, a: T, b: T) {
    exists w :: IsWalk(g, w) && w[0] == a && w[|w| - 1] == b
  }

  /** c is among the cycles found, up to rotation. */
  ghost predicate Found<T>(cycles: seq<seq<T>>, c: seq<T>) {
    exists i :: 0 <= i < |cycles| && IsRotation(cycles[i], c)
  }

  /** Elementary cycles, no two of them rotations of each other. */
  ghost predicate CycleList<T>(g: Graph<T>, cycles: seq<seq<T>>) {
    && (forall i :: 0 <= i < |cycles| ==> ElementaryCycle(g, cycles[i]))
    && (forall i, j :: 0 <= i < j < |cycles| ==> !IsRotation(cycles[i], cycles[j]))
  }

  // ---------- walks ----------

  lemma WalkJoin<T>(g: Graph<T>, v: seq<T>, w: seq<T>)
    requires IsWalk(g, v) && IsWalk(g, w) && Edge(g, v[|v| - 1], w[0])
    ensures IsWalk(g, v + w)
  {
    var u := v + w;
    forall i | 0 <= i < |u| - 1 ensures Edge(g, u[i], u[i + 1]) {
      assert i >= |v| ==> u[i] == w[i - |v|] && u[i + 1] == w[i + 1 - |v|];
      assert i < |v| - 1 ==> u[i] == v[i] && u[i + 1] == v[i + 1];
    }
  }

  lemma WalkSlice<T>(g: Graph<T>, w: seq<T>, i: nat, j: nat)
    requires IsWalk(g, w) && i < j <= |w|
    ensures IsWalk(g, w[i..j])
  {
    var s := w[i..j];
    forall k | 0 <= k < |s| - 1 ensures Edge(g, s[k], s[k + 1]) {
      assert s[k] == w[i + k] && s[k + 1] == w[i + k + 1];
    }
  }

  lemma CutEnds<T>(w: seq<T>, i: nat, j: nat)
    requires i < j < |w| && w[i] == w[j]
    ensures var v := w[..i] + w[j..];
      v[0] == w[0] && v[|v| - 1] == w[|w| - 1] && forall x :: x in v ==> x in w
  {
  }

  /** A walk that comes back to a node can leave out what lies between. */
  lemma CutLoop<T>(g: Graph<T>, w: seq<T>, i: nat, j: nat)
    requires IsWalk(g, w) && i < j < |w| && w[i] == w[j]
    ensures IsWalk(g, w[..i] + w[j..])
  {
    WalkSlice(g, w, j, |w|);
    assert w[j..|w|] == w[j..];
    if i > 0 {
      WalkSlice(g, w, 0, i);
      assert w[0..i] == w[..i] && Edge(g, w[i - 1], w[i]);
      WalkJoin(g, w[..i], w[j..]);
    } else {
      assert w[..i] + w[j..] == w[j..];
    }
  }

  /** Cutting the loops out of a walk leaves a path with the same ends. */
  lemma {:induction false} CutLoops<T(!new)>(g: Graph<T>, w: seq<T>) returns (p: seq<T>)
    requires IsWalk(g, w)
    ensures IsPath(g, p) && p[0] == w[0] && p[|p| - 1] == w[|w| - 1]
    ensures forall x :: x in p ==> x in w
    decreases |w|
  {
    p := w;
    if !Distinct(w) {
      var i, j :| 0 <= i < j < |w| && w[i] == w[j];
      CutLoop(g, w, i, j);
      CutEnds(w, i, j);
      p := CutLoops(g, w[..i] + w[j..]);
    }
  }

  lemma CycleFrom<T>(g: Graph<T>, c: seq<T>, k: nat)
    requires ElementaryCycle(g, c) && k < |c|
    ensures ElementaryCycle(g, c[k..] + c[..k]) && IsRotation(c, c[k..] + c[..k])
  {
    var r := c[k..] + c[..k];
    WalkSlice(g, c, k, |c|);
    assert c[k..|c|] == c[k..];
    if k > 0 {
      WalkSlice(g, c, 0, k);
      assert c[0..k] == c[..k];
      WalkJoin(g, c[k..], c[..k]);
      assert Edge(g, c[k - 1], c[k]);
    } else {
      assert r == c;
    }
  }

  // ---------- one path ----------

  /** The position of x in s, as Python's list.index gives it. */
  function IndexOf<T(==)>(s: seq<T>, x: T): (i: nat)
    requires x in s
    ensures i < |s| && s[i] == x && x !in s[..i]
  {
    if s[0] == x then 0 else
      var i := 1 + IndexOf(s[1..], x);
      assert s[..i] == [s[0]] + s[1..][..i - 1];
      i
  }

  ghost predicate ClosedFor<T(!new)>(cycles: seq<seq<T>>, p: seq<T>, children: seq<T>) {
    forall x :: x in children && x in p ==> Found(cycles, p[IndexOf(p, x)..])
  }

  /** Every edge from the end of p back into p has been reported. */
  ghost predicate Closed<T(!new)>(g: Graph<T>, cycles: seq<seq<T>>, p: seq<T>)
    requires p != []
  {
    p[|p| - 1] in g ==> ClosedFor(cycles, p, g[p[|p| - 1]])
  }

  lemma ClosingCycle<T>(g: Graph<T>, p: seq<T>, x: T)
    requires IsPath(g, p) && x in p && Edge(g, p[|p| - 1], x)
    ensures ElementaryCycle(g, p[IndexOf(p, x)..])
  {
    WalkSlice(g, p, IndexOf(p, x), |p|);
    assert p[IndexOf(p, x)..] == p[IndexOf(p, x)..|p|];
  }

  /** Keeps a cycle unless it is a rotation of one already kept. */
  method Report<T(==)>(ghost g: Graph<T>, cycles: seq<seq<T>>, cycle: seq<T>) returns (more: seq<seq<T>>)
    requires CycleList(g, cycles) && ElementaryCycle(g, cycle)
    ensures CycleList(g, more) && cycles <= more && Found(more, cycle)
  {
    var dup := false;
    var i := 0;
    while i < |cycles| && !dup
      invariant i <= |cycles|
      invariant dup ==> Found(cycles, cycle)
      invariant !dup ==> forall k :: 0 <= k < i ==> !IsRotation(cycles[k], cycle)
      decreases |cycles| - i, !dup
    {
      dup := IsRotated(cycles[i], cycle);
      i := i + 1;
    }
    more := if dup then cycles else cycles + [cycle];
    if !dup {
      RotationReflexive(cycle);
      assert more[|cycles|] == cycle;
    }
  }

  lemma FoundMore<T(!new)>(cycles: seq<seq<T>>, more: seq<seq<T>>)
    requires cycles <= more
    ensures forall c :: Found(cycles, c) ==> Found(more, c)
  {
    forall c | Found(cycles, c) ensures Found(more, c) {
      var i :| 0 <= i < |cycles| && IsRotation(cycles[i], c);
      assert more[i] == cycles[i];
    }
  }

  /** path extended by each child that is not on it yet. */
  ghost function Extensions<T>(path: seq<T>, children: seq<T>): seq<seq<T>> {
    if children == [] then [] else
      var n := |children| - 1;
      Extensions(path, children[..n]) + if children[n] in path then [] else [path + [children[n]]]
  }

  lemma {:induction false} ExtensionIff<T(!new)>(path: seq<T>, children: seq<T>, q: seq<T>)
    ensures q in Extensions(path, children) <==>
      |q| == |path| + 1 && q[..|path|] == path && q[|path|] in children && q[|path|] !in path
  {
    if children != [] {
      var n := |children| - 1;
      ExtensionIff(path, children[..n], q);
      assert children == children[..n] + [children[n]];
      if |q| == |path| + 1 && q[..|path|] == path && q[|path|] == children[n] {
        assert q == path + [children[n]];
      }
    }
  }

  lemma {:induction false} ExtensionCount<T(!new)>(path: seq<T>, children: seq<T>)
    ensures |Extensions(path, children)| <= |children|
  {
    if children != [] {
      ExtensionCount(path, children[..|children| - 1]);
    }
  }

  lemma ClosedMore<T(!new)>(cycles: seq<seq<T>>, more: seq<seq<T>>, p: seq<T>, children: seq<T>)
    requires ClosedFor(cycles, p, children) && cycles <= more
    ensures ClosedFor(more, p, children)
  {
    FoundMore(cycles, more);
  }

  /** Takes each child of the end of path: reports the cycle it closes, or extends the path. */
  method Expand<T(==,!new)>(ghost g: Graph<T>, path: seq<T>, children: seq<T>, cycles: seq<seq<T>>, visited: set<T>)
    returns (more: seq<seq<T>>, seen: set<T>, pushed: seq<seq<T>>)
    requires CycleList(g, cycles) && IsPath(g, path)
    requires path[|path| - 1] in g && g[path[|path| - 1]] == children
    ensures CycleList(g, more) && cycles <= more && ClosedFor(more, path, children)
    ensures pushed == Extensions(path, children)
    ensures forall x :: x in seen <==> x in visited || (x in children && x !in path)
  {
    more, seen, pushed := cycles, visited, [];
    for j := 0 to |children|
      invariant CycleList(g, more) && cycles <= more
      invariant ClosedFor(more, path, children[..j])
      invariant pushed == Extensions(path, children[..j])
      invariant forall x :: x in seen <==> x in visited || (x in children[..j] && x !in path)
    {
      var child := children[j];
      assert children[..j + 1] == children[..j] + [child] && children[..j + 1][..j] == children[..j];
      if child in path {
        ClosingCycle(g, path, child);
        ghost var before := more;
        more := Report(g, more, path[IndexOf(path, child)..]);
        ClosedMore(before, more, path, children[..j]);
      } else {
        pushed := pushed + [path + [child]];
        seen := seen + {child};
      }
    }
    assert children[..|children|] == children;
  }

  lemma ExtensionPath<T(!new)>(g: Graph<T>, path: seq<T>, q: seq<T>)
    requires IsPath(g, path) && path[|path| - 1] in g
    requires q in Extensions(path, g[path[|path| - 1]])
    ensures IsPath(g, q) && |q| == |path| + 1 && path <= q
  {
    ExtensionIff(path, g[path[|path| - 1]], q);
    assert q == path + [q[|path|]];
    WalkJoin(g, path, [q[|path|]]);
  }

  // ---------- termination: a weight on the stacked paths ----------

  ghost function Nodes<T>(g: Graph<T>): set<T> {
    g.Keys + set a, i | a in g && 0 <= i < |g[a]| :: g[a][i]
  }

  /** A path that has a child is no longer than the number of nodes. */
  lemma PathBound<T(!new)>(g: Graph<T>, p: seq<T>)
    requires IsPath(g, p) && p[|p| - 1] in g
    ensures |p| <= |Nodes(g)|
  {
    forall x | x in p ensures x in Nodes(g) {
      var i :| 0 <= i < |p| && p[i] == x;
      assert i < |p| - 1 ==> Edge(g, p[i], p[i + 1]);
    }
    DistinctBound(p, Nodes(g));
  }

  ghost function Pow(b: nat, e: nat): nat {
    if e == 0 then 1 else b * Pow(b, e - 1)
  }

  lemma {:induction false} PowPositive(b: nat, e: nat)
    requires b > 0
    ensures Pow(b, e) > 0
  {
    if e > 0 {
      PowPositive(b, e - 1);
    }
  }

  /** A path of length k weighs (d + 1)^(n + 1 - k). */
  ghost function Weight<T>(p: seq<T>, n: nat, d: nat): nat {
    Pow(d + 1, if |p| <= n + 1 then n + 1 - |p| else 0)
  }

  ghost function TotalWeight<T>(paths: seq<seq<T>>, n: nat, d: nat): nat {
    if paths == [] then 0 else
      var k := |paths| - 1;
      TotalWeight(paths[..k], n, d) + Weight(paths[k], n, d)
  }

  lemma {:induction false} TotalWeightAppend<T>(paths: seq<seq<T>>, more: seq<seq<T>>, n: nat, d: nat)
    ensures TotalWeight(paths + more, n, d) == TotalWeight(paths, n, d) + TotalWeight(more, n, d)
    decreases |more|
  {
    if more == [] {
      assert paths + more == paths;
    } else {
      var k := |more| - 1;
      assert (paths + more)[..|paths| + k] == paths + more[..k];
      TotalWeightAppend(paths, more[..k], n, d);
    }
  }

  lemma {:induction false} TotalWeightBound<T(!new)>(more: seq<seq<T>>, w: nat, n: nat, d: nat)
    requires forall i :: 0 <= i < |more| ==> Weight(more[i], n, d) == w
    ensures TotalWeight(more, n, d) == |more| * w
  {
    if more != [] {
      TotalWeightBound(more[..|more| - 1], w, n, d);
    }
  }

  lemma Lighter(m: nat, d: nat, w: nat)
    requires m <= d && w > 0
    ensures m * w < (d + 1) * w
  {
    assert (d + 1) * w == m * w + (d + 1 - m) * w;
    assert (d + 1 - m) * w >= w;
  }

  /** The extensions of a path weigh less than the path. */
  lemma ExtensionsLighter<T(!new)>(g: Graph<T>, path: seq<T>, d: nat)
    requires IsPath(g, path) && path[|path| - 1] in g && |g[path[|path| - 1]]| <= d
    ensures TotalWeight(Extensions(path, g[path[|path| - 1]]), |Nodes(g)|, d) < Weight(path, |Nodes(g)|, d)
  {
    var n, pushed := |Nodes(g)|, Extensions(path, g[path[|path| - 1]]);
    PathBound(g, path);
    ExtensionCount(path, g[path[|path| - 1]]);
    var w := Pow(d + 1, n - |path|);
    forall i | 0 <= i < |pushed| ensures Weight(pushed[i], n, d) == w {
      ExtensionIff(path, g[path[|path| - 1]], pushed[i]);
    }
    TotalWeightBound(pushed, w, n, d);
    PowPositive(d + 1, n - |path|);
    Lighter(|pushed|, d, w);
  }

  lemma {:induction false} DegreeBound<T(!new)>(g: Graph<T>, keys: set<T>) returns (d: nat)
    requires keys <= g.Keys
    ensures forall a :: a in keys ==> |g[a]| <= d
    decreases keys
  {
    if keys == {} {
      d := 0;
    } else {
      var a :| a in keys;
      d := DegreeBound(g, keys - {a});
      d := if |g[a]| > d then |g[a]| else d;
    }
  }

  // ---------- all paths from one start ----------

  /** Every path from start is closed or has a prefix waiting on the stack. */
  ghost predicate Covered<T(!new)>(g: Graph<T>, start: T, cycles: seq<seq<T>>, paths: seq<seq<T>>) {
    forall p {:trigger PathFrom(g, start, p)} :: PathFrom(g, start, p) ==> Closed(g, cycles, p) || Waiting(paths, p)
  }

  ghost predicate PathFrom<T>(g: Graph<T>, start: T, p: seq<T>) {
    IsPath(g, p) && p[0] == start
  }

  ghost predicate Waiting<T>(paths: seq<seq<T>>, p: seq<T>) {
    exists i :: 0 <= i < |paths| && paths[i] <= p
  }

  ghost predicate Stack<T(!new)>(g: Graph<T>, start: T, paths: seq<seq<T>>) {
    forall i :: 0 <= i < |paths| ==> PathFrom(g, start, paths[i])
  }

  lemma CoveredStart<T(!new)>(g: Graph<T>, start: T, cycles: seq<seq<T>>)
    ensures Covered(g, start, cycles, [[start]]) && Stack(g, start, [[start]])
  {
    forall p | PathFrom(g, start, p) ensures Waiting([[start]], p) {
      assert [[start]][0] <= p;
    }
  }

  /** A path below the popped one, and longer, goes through one of its extensions. */
  lemma ThroughExtension<T(!new)>(g: Graph<T>, path: seq<T>, p: seq<T>)
    requires IsPath(g, p) && path != [] && path <= p && |p| > |path|
    ensures path[|path| - 1] in g && path + [p[|path|]] in Extensions(path, g[path[|path| - 1]])
    ensures path + [p[|path|]] <= p
  {
    var k := |path|;
    assert path == p[..k] && p[k - 1] == path[k - 1];
    assert Edge(g, p[k - 1], p[k]);
    forall i | 0 <= i < k ensures path[i] != p[k] {
      assert path[i] == p[i];
    }
    ExtensionIff(path, g[path[k - 1]], path + [p[k]]);
  }

  lemma CoveredStep<T(!new)>(g: Graph<T>, start: T, cycles: seq<seq<T>>, more: seq<seq<T>>,
                             paths: seq<seq<T>>, path: seq<T>, pushed: seq<seq<T>>)
    requires Covered(g, start, cycles, paths + [path]) && cycles <= more
    requires path != []
    requires pushed == if path[|path| - 1] in g then Extensions(path, g[path[|path| - 1]]) else []
    requires Closed(g, more, path)
    ensures Covered(g, start, more, paths + pushed)
  {
    forall p | PathFrom(g, start, p) ensures Closed(g, more, p) || Waiting(paths + pushed, p) {
      if Closed(g, cycles, p) {
        ClosedStep(g, cycles, more, p);
      } else {
        WaitingStep(g, more, paths, path, pushed, p);
      }
    }
  }

  lemma WaitingAppend<T(!new)>(paths: seq<seq<T>>, more: seq<seq<T>>, p: seq<T>)
    requires Waiting(paths, p) || Waiting(more, p)
    ensures Waiting(paths + more, p)
  {
    if Waiting(paths, p) {
      var i :| 0 <= i < |paths| && paths[i] <= p;
      assert (paths + more)[i] <= p;
    } else {
      var i :| 0 <= i < |more| && more[i] <= p;
      assert (paths + more)[|paths| + i] <= p;
    }
  }

  lemma WaitingSplit<T(!new)>(paths: seq<seq<T>>, path: seq<T>, p: seq<T>)
    requires Waiting(paths + [path], p)
    ensures Waiting(paths, p) || path <= p
  {
    var i :| 0 <= i <= |paths| && (paths + [path])[i] <= p;
    if i < |paths| {
      assert paths[i] <= p;
    }
  }

  lemma WaitingStep<T(!new)>(g: Graph<T>, more: seq<seq<T>>, paths: seq<seq<T>>,
                             path: seq<T>, pushed: seq<seq<T>>, p: seq<T>)
    requires path != [] && IsPath(g, p) && Waiting(paths + [path], p)
    requires pushed == if path[|path| - 1] in g then Extensions(path, g[path[|path| - 1]]) else []
    ensures p == path || Waiting(paths + pushed, p)
  {
    WaitingSplit(paths, path, p);
    if path <= p && |p| > |path| {
      ThroughExtension(g, path, p);
      var j :| 0 <= j < |pushed| && pushed[j] == path + [p[|path|]];
      assert Waiting(pushed, p);
    }
    if Waiting(paths, p) || Waiting(pushed, p) {
      WaitingAppend(paths, pushed, p);
    }
  }

  lemma ClosedStep<T(!new)>(g: Graph<T>, cycles: seq<seq<T>>, more: seq<seq<T>>, p: seq<T>)
    requires p != [] && Closed(g, cycles, p) && cycles <= more
    ensures Closed(g, more, p)
  {
    if p[|p| - 1] in g {
      ClosedMore(cycles, more, p, g[p[|p| - 1]]);
    }
  }

  lemma ReachStep<T(!new)>(g: Graph<T>, path: seq<T>, x: T)
    requires IsPath(g, path) && Edge(g, path[|path| - 1], x)
    ensures Reaches(g, path[0], x)
  {
    WalkJoin(g, path, [x]);
    assert IsWalk(g, path + [x]);
  }

  /** The search from one start, on a stack of paths. */
  method Explore<T(==,!new)>(g: Graph<T>, start: T, cycles: seq<seq<T>>, visited: set<T>, ghost d: nat)
    returns (more: seq<seq<T>>, seen: set<T>)
    requires CycleList(g, cycles) && forall a :: a in g ==> |g[a]| <= d
    ensures CycleList(g, more) && cycles <= more
    ensures visited <= seen && forall x :: x in seen ==> x in visited || Reaches(g, start, x)
    ensures Covered(g, start, more, [])
  {
    more, seen := cycles, visited;
    var paths := [[start]];
    CoveredStart(g, start, more);
    while paths != []
      invariant CycleList(g, more) && cycles <= more
      invariant visited <= seen && forall x :: x in seen ==> x in visited || Reaches(g, start, x)
      invariant Stack(g, start, paths) && Covered(g, start, more, paths)
      decreases TotalWeight(paths, |Nodes(g)|, d)
    {
      var path := paths[|paths| - 1];
      var below := paths[..|paths| - 1];
      assert paths == below + [path];
      var parent := path[|path| - 1];
      PowPositive(d + 1, if |path| <= |Nodes(g)| + 1 then |Nodes(g)| + 1 - |path| else 0);
      if parent in g {
        var found, reached, pushed := Expand(g, path, g[parent], more, seen);
        StackStep(g, start, below, path, d);
        CoveredStep(g, start, more, found, below, path, pushed);
        forall x | x in reached && x !in seen ensures Reaches(g, start, x) {
          ReachStep(g, path, x);
        }
        paths, more, seen := below + pushed, found, reached;
      } else {
        CoveredStep(g, start, more, more, below, path, []);
        assert below + [] == below;
        paths := below;
      }
    }
  }

  lemma StackStep<T(!new)>(g: Graph<T>, start: T, paths: seq<seq<T>>, path: seq<T>, d: nat)
    requires Stack(g, start, paths + [path]) && path != []
    requires path[|path| - 1] in g && |g[path[|path| - 1]]| <= d
    ensures Stack(g, start, paths + Extensions(path, g[path[|path| - 1]]))
    ensures TotalWeight(paths + Extensions(path, g[path[|path| - 1]]), |Nodes(g)|, d)
      < TotalWeight(paths + [path], |Nodes(g)|, d)
  {
    var pushed := Extensions(path, g[path[|path| - 1]]);
    assert (paths + [path])[|paths|] == path;
    forall i | 0 <= i < |paths + pushed|
      ensures PathFrom(g, start, (paths + pushed)[i])
    {
      if i < |paths| {
        assert (paths + pushed)[i] == (paths + [path])[i];
      } else {
        ExtensionPath(g, path, pushed[i - |paths|]);
      }
    }
    TotalWeightAppend(paths, pushed, |Nodes(g)|, d);
    TotalWeightAppend(paths, [path], |Nodes(g)|, d);
    ExtensionsLighter(g, path, d);
    assert [path][..0] == [];
  }

  // ---------- completeness ----------

  /** The first place where a walk enters c. */
  lemma FirstIn<T(!new)>(w: seq<T>, c: seq<T>) returns (i: nat)
    requires w != [] && w[|w| - 1] in c
    ensures i < |w| && w[i] in c && forall j :: 0 <= j < i ==> w[j] !in c
  {
    i := 0;
    while w[i] !in c
      invariant i < |w| && forall j :: 0 <= j < i ==> w[j] !in c
      decreases |w| - i
    {
      i := i + 1;
    }
  }

  /** Some path from start meets a cycle that start reaches in its last node only. */
  lemma EntryPath<T(!new)>(g: Graph<T>, start: T, c: seq<T>) returns (q: seq<T>)
    requires c != [] && Reaches(g, start, c[0])
    ensures PathFrom(g, start, q) && q[|q| - 1] in c && forall j :: 0 <= j < |q| - 1 ==> q[j] !in c
  {
    var w :| IsWalk(g, w) && w[0] == start && w[|w| - 1] == c[0];
    var i := FirstIn(w, c);
    WalkSlice(g, w, 0, i + 1);
    assert w[0..i + 1] == w[..i + 1];
    q := CutLoops(g, w[..i + 1]);
    MeetsAtEnd(w, c, i, q);
  }

  /** A cycle that start reaches is closed by some path from start. */
  lemma ClosingPath<T(!new)>(g: Graph<T>, start: T, c: seq<T>) returns (p: seq<T>, r: seq<T>)
    requires ElementaryCycle(g, c) && Reaches(g, start, c[0])
    ensures PathFrom(g, start, p) && IsRotation(c, r) && r != []
    ensures r[0] in p && Edge(g, p[|p| - 1], r[0]) && p[IndexOf(p, r[0])..] == r
  {
    var q := EntryPath(g, start, c);
    var k :| 0 <= k < |c| && c[k] == q[|q| - 1];
    r := c[k..] + c[..k];
    CycleFrom(g, c, k);
    p := q[..|q| - 1] + r;
    assert forall x :: x in r ==> x in c;
    JoinAtEnd(g, q, r);
  }

  lemma MeetsAtEnd<T(!new)>(w: seq<T>, c: seq<T>, i: nat, q: seq<T>)
    requires i < |w| && forall j :: 0 <= j < i ==> w[j] !in c
    requires Distinct(q) && q != [] && q[|q| - 1] == w[i] && forall x :: x in q ==> x in w[..i + 1]
    ensures forall j :: 0 <= j < |q| - 1 ==> q[j] !in c
  {
    forall j | 0 <= j < |q| - 1 ensures q[j] !in c {
      assert q[j] in q && q[j] != q[|q| - 1];
    }
  }

  /** A path continued along a cycle that it meets in its last node only. */
  lemma JoinAtEnd<T(!new)>(g: Graph<T>, q: seq<T>, r: seq<T>)
    requires IsPath(g, q) && ElementaryCycle(g, r) && q[|q| - 1] == r[0]
    requires forall j :: 0 <= j < |q| - 1 ==> q[j] !in r
    ensures var p := q[..|q| - 1] + r;
      && IsPath(g, p) && p[0] == q[0] && r[0] in p && Edge(g, p[|p| - 1], r[0])
      && p[IndexOf(p, r[0])..] == r
  {
    var n := |q| - 1;
    var p := q[..n] + r;
    if n > 0 {
      WalkSlice(g, q, 0, n);
      assert q[0..n] == q[..n] && Edge(g, q[n - 1], q[n]);
      WalkJoin(g, q[..n], r);
    } else {
      assert p == r;
    }
    forall i, j | 0 <= i < j < |p| ensures p[i] != p[j] {
      if i < n <= j {
        assert p[j] in r && q[i] !in r;
      }
    }
    assert p[n] == r[0];
    var k := IndexOf(p, r[0]);
    assert k == n;
    assert p[n..] == r;
  }

  /** Once start is covered, every cycle that start reaches has been reported. */
  lemma CoveredComplete<T(!new)>(g: Graph<T>, start: T, cycles: seq<seq<T>>, c: seq<T>)
    requires Covered(g, start, cycles, [])
    requires ElementaryCycle(g, c) && Reaches(g, start, c[0])
    ensures Found(cycles, c)
  {
    var p, r := ClosingPath(g, start, c);
    assert Closed(g, cycles, p);
    assert Found(cycles, p[IndexOf(p, r[0])..]);
    var i :| 0 <= i < |cycles| && IsRotation(cycles[i], r);
    RotationSymmetric(c, r);
    RotationTransitive(cycles[i], r, c);
  }

  /** Every cycle that some start reaches has been reported. */
  ghost predicate Reported<T(!new)>(g: Graph<T>, starts: set<T>, cycles: seq<seq<T>>) {
    forall s, c :: s in starts && ElementaryCycle(g, c) && Reaches(g, s, c[0]) ==> Found(cycles, c)
  }

  ghost predicate FromStarts<T(!new)>(g: Graph<T>, starts: set<T>, visited: set<T>) {
    forall x :: x in visited ==> exists s :: s in starts && Reaches(g, s, x)
  }

  lemma ReportedStep<T(!new)>(g: Graph<T>, starts: set<T>, cycles: seq<seq<T>>, start: T, more: seq<seq<T>>)
    requires Reported(g, starts, cycles) && cycles <= more && Covered(g, start, more, [])
    ensures Reported(g, starts + {start}, more)
  {
    forall s, c | s in starts + {start} && ElementaryCycle(g, c) && Reaches(g, s, c[0]) ensures Found(more, c) {
      if s in starts {
        FoundMore(cycles, more);
      } else {
        CoveredComplete(g, start, more, c);
      }
    }
  }

  lemma ReachesItself<T(!new)>(g: Graph<T>, a: T)
    ensures Reaches(g, a, a)
  {
    assert IsWalk(g, [a]);
  }

  /** All elementary cycles, each once up to rotation, in whatever order the keys come. */
  method FindCycles<T(==,!new)>(g: Graph<T>) returns (cycles: seq<seq<T>>)
    ensures forall i :: 0 <= i < |cycles| ==> ElementaryCycle(g, cycles[i])
    ensures forall i, j :: 0 <= i < j < |cycles| ==> !IsRotation(cycles[i], cycles[j])
    ensures forall c :: ElementaryCycle(g, c) ==> exists i :: 0 <= i < |cycles| && IsRotation(cycles[i], c)
  {
    cycles := [];
    var visited: set<T>, keys := {}, g.Keys;
    ghost var starts: set<T> := {};
    ghost var d := DegreeBound(g, g.Keys);
    while keys != {}
      invariant CycleList(g, cycles)
      invariant keys <= g.Keys && g.Keys - keys <= starts + visited
      invariant Reported(g, starts, cycles) && FromStarts(g, starts, visited)
      decreases keys
    {
      var parent :| parent in keys;
      assert g.Keys - (keys - {parent}) == g.Keys - keys + {parent};
      keys := keys - {parent};
      if parent !in visited {
        ghost var before, seen := cycles, visited;
        cycles, visited := Explore(g, parent, cycles, visited, d);
        ReportedStep(g, starts, before, parent, cycles);
        assert seen <= visited;
        starts := starts + {parent};
      }
    }
    forall c | ElementaryCycle(g, c) ensures Found(cycles, c) {
      AllReported(g, starts, visited, cycles, c);
    }
  }

  lemma AllReported<T(!new)>(g: Graph<T>, starts: set<T>, visited: set<T>, cycles: seq<seq<T>>, c: seq<T>)
    requires g.Keys <= starts + visited && Reported(g, starts, cycles) && FromStarts(g, starts, visited)
    requires ElementaryCycle(g, c)
    ensures Found(cycles, c)
  {
    assert Edge(g, c[0], if |c| > 1 then c[1] else c[0]);
    ReachesItself(g, c[0]);
  }
}
