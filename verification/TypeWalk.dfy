/** The walk over registered types in utils/print-introspected-doxygen.cc that collects a
    configuration path for every way of reaching a type. */
module TypeWalk {
  import opened Sequences

  /** Types are numbered in registration order. */
  type TypeId = nat

  datatype Checker = PointerTo(pointee: TypeId) | ContainerOf(item: TypeId) | OtherValue

  datatype Attribute = Attribute(name: string, checker: Checker)

  /** ancestors are the types that the parent chain goes through, the type itself excluded. */
  datatype TypeInfo = TypeInfo(name: string, attributes: seq<Attribute>, ancestors: set<TypeId>)

  datatype Registry = Registry(types: seq<TypeInfo>, objectType: TypeId, aggregates: seq<(TypeId, TypeId)>)

  datatype Edge = Edge(segment: string, target: TypeId)

  predicate Registered(g: Registry, tid: TypeId) {
    tid < |g.types|
  }

  ghost predicate WellFormed(g: Registry) {
    && (forall t, i :: 0 <= t < |g.types| && 0 <= i < |g.types[t].attributes| ==>
          match g.types[t].attributes[i].checker
          case PointerTo(p) => Registered(g, p)
          case ContainerOf(p) => Registered(g, p)
          case OtherValue => true)
    && (forall k :: 0 <= k < |g.aggregates| ==> Registered(g, g.aggregates[k].0) && Registered(g, g.aggregates[k].1))
  }

  // ---------- the edges out of a type, in the order the walk takes them ----------

  ghost function AttributeEdges(g: Registry, attributes: seq<Attribute>): seq<Edge> {
    if attributes == [] then [] else
      var n := |attributes| - 1;
      AttributeEdges(g, attributes[..n]) +
        match attributes[n].checker
        case PointerTo(p) => if p == g.objectType then [] else [Edge(attributes[n].name, p)]
        case ContainerOf(p) => [Edge(attributes[n].name + "/[i]", p)]
        case OtherValue => []
  }

  ghost function ChildEdges(g: Registry, tid: TypeId, n: nat): seq<Edge>
    requires n <= |g.types|
  {
    if n == 0 then [] else
      ChildEdges(g, tid, n - 1) +
        if tid in g.types[n - 1].ancestors then [Edge("$" + g.types[n - 1].name, n - 1)] else []
  }

  function Other(pair: (TypeId, TypeId), tid: TypeId): TypeId {
    if pair.1 == tid then pair.0 else pair.1
  }

  ghost function AggregateEdges(g: Registry, tid: TypeId, n: nat): seq<Edge>
    requires WellFormed(g) && n <= |g.aggregates|
  {
    if n == 0 then [] else
      var pair := g.aggregates[n - 1];
      AggregateEdges(g, tid, n - 1) +
        if pair.0 == tid || pair.1 == tid
        then [Edge("$" + g.types[Other(pair, tid)].name, Other(pair, tid))] else []
  }

  ghost function Edges(g: Registry, tid: TypeId): seq<Edge>
    requires WellFormed(g) && Registered(g, tid)
  {
    AttributeEdges(g, g.types[tid].attributes) + ChildEdges(g, tid, |g.types|) + AggregateEdges(g, tid, |g.aggregates|)
  }

  lemma {:induction false} AttributeTargets(g: Registry, tid: TypeId, n: nat)
    requires WellFormed(g) && Registered(g, tid) && n <= |g.types[tid].attributes|
    ensures forall e :: e in AttributeEdges(g, g.types[tid].attributes[..n]) ==> Registered(g, e.target)
  {
    if n > 0 {
      AttributeTargets(g, tid, n - 1);
      assert g.types[tid].attributes[..n][..n - 1] == g.types[tid].attributes[..n - 1];
    }
  }

  lemma {:induction false} ChildTargets(g: Registry, tid: TypeId, n: nat)
    requires n <= |g.types|
    ensures forall e :: e in ChildEdges(g, tid, n) ==> Registered(g, e.target)
  {
    if n > 0 {
      ChildTargets(g, tid, n - 1);
    }
  }

  lemma {:induction false} AggregateTargets(g: Registry, tid: TypeId, n: nat)
    requires WellFormed(g) && n <= |g.aggregates|
    ensures forall e :: e in AggregateEdges(g, tid, n) ==> Registered(g, e.target)
  {
    if n > 0 {
      AggregateTargets(g, tid, n - 1);
    }
  }

  lemma EdgeTargets(g: Registry, tid: TypeId)
    requires WellFormed(g) && Registered(g, tid)
    ensures forall k :: 0 <= k < |Edges(g, tid)| ==> Registered(g, Edges(g, tid)[k].target)
  {
    AttributeTargets(g, tid, |g.types[tid].attributes|);
    assert g.types[tid].attributes[..|g.types[tid].attributes|] == g.types[tid].attributes;
    ChildTargets(g, tid, |g.types|);
    AggregateTargets(g, tid, |g.aggregates|);
    forall k | 0 <= k < |Edges(g, tid)| ensures Registered(g, Edges(g, tid)[k].target) {
      assert Edges(g, tid)[k] in Edges(g, tid);
    }
  }

  // ---------- walks that repeat no type ----------

  /** A walk is the list of the edge numbers it takes. */
  type Walk = seq<nat>

  ghost predicate Follows(g: Registry, tid: TypeId, w: Walk)
    requires WellFormed(g) && Registered(g, tid)
    decreases |w|
  {
    w == [] || (EdgeTargets(g, tid);
                w[0] < |Edges(g, tid)| && Follows(g, Edges(g, tid)[w[0]].target, w[1..]))
  }

  /** The types a walk goes through, both ends included. */
  ghost function Stops(g: Registry, tid: TypeId, w: Walk): seq<TypeId>
    requires WellFormed(g) && Registered(g, tid) && Follows(g, tid, w)
    decreases |w|
  {
    [tid] + if w == [] then [] else
      EdgeTargets(g, tid);
      Stops(g, Edges(g, tid)[w[0]].target, w[1..])
  }

  ghost predicate IsSimpleWalk(g: Registry, tid: TypeId, avoid: set<TypeId>, w: Walk)
    requires WellFormed(g) && Registered(g, tid)
  {
    && Follows(g, tid, w)
    && Distinct(Stops(g, tid, w))
    && forall t :: t in Stops(g, tid, w) ==> t !in avoid
  }

  // ---------- all such walks, in the order the recursion finds them ----------

  ghost function Unvisited(g: Registry, avoid: set<TypeId>): set<TypeId> {
    set t | 0 <= t < |g.types| && t !in avoid
  }

  lemma VisitOne(g: Registry, avoid: set<TypeId>, tid: TypeId)
    requires Registered(g, tid) && tid !in avoid
    ensures |Unvisited(g, avoid + {tid})| < |Unvisited(g, avoid)|
  {
    assert Unvisited(g, avoid) == Unvisited(g, avoid + {tid}) + {tid};
  }

  ghost function Prefixed(k: nat, ws: seq<Walk>): seq<Walk> {
    seq(|ws|, i requires 0 <= i < |ws| => [k] + ws[i])
  }

  ghost function Walks(g: Registry, tid: TypeId, avoid: set<TypeId>): seq<Walk>
    requires WellFormed(g) && Registered(g, tid)
    decreases |Unvisited(g, avoid)|, 0, 0
  {
    if tid in avoid then [] else
      VisitOne(g, avoid, tid);
      [[]] + WalksVia(g, tid, |Edges(g, tid)|, avoid + {tid})
  }

  /** The walks that leave tid by one of its first n edges. */
  ghost function WalksVia(g: Registry, tid: TypeId, n: nat, avoid: set<TypeId>): seq<Walk>
    requires WellFormed(g) && Registered(g, tid) && n <= |Edges(g, tid)|
    decreases |Unvisited(g, avoid)|, 1, n
  {
    if n == 0 then [] else
      EdgeTargets(g, tid);
      WalksVia(g, tid, n - 1, avoid) + Prefixed(n - 1, Walks(g, Edges(g, tid)[n - 1].target, avoid))
  }

  lemma PrefixedMember(k: nat, ws: seq<Walk>, w: Walk)
    ensures w in Prefixed(k, ws) <==> w != [] && w[0] == k && w[1..] in ws
  {
    if w in Prefixed(k, ws) {
      var i :| 0 <= i < |ws| && Prefixed(k, ws)[i] == w;
      assert w[1..] == ws[i];
    }
    if w != [] && w[0] == k && w[1..] in ws {
      var i :| 0 <= i < |ws| && ws[i] == w[1..];
      assert Prefixed(k, ws)[i] == w;
    }
  }

  /** Extending a simple walk at the front. */
  lemma SimpleStep(g: Registry, tid: TypeId, avoid: set<TypeId>, w: Walk)
    requires WellFormed(g) && Registered(g, tid) && tid !in avoid && w != [] && w[0] < |Edges(g, tid)|
    ensures Registered(g, Edges(g, tid)[w[0]].target)
    ensures IsSimpleWalk(g, tid, avoid, w)
      <==> IsSimpleWalk(g, Edges(g, tid)[w[0]].target, avoid + {tid}, w[1..])
  {
    EdgeTargets(g, tid);
    var target := Edges(g, tid)[w[0]].target;
    if Follows(g, target, w[1..]) {
      var s, t := Stops(g, tid, w), Stops(g, target, w[1..]);
      assert s == [tid] + t;
      assert forall i :: 0 <= i < |t| ==> t[i] == s[i + 1] && t[i] in t && t[i] in s;
      if IsSimpleWalk(g, tid, avoid, w) {
        forall x | x in t ensures x !in avoid + {tid} {
          var i :| 0 <= i < |t| && t[i] == x;
          assert s[0] != s[i + 1];
        }
      }
    }
  }

  /** w takes one of the first n edges out of tid and is simple from there on. */
  ghost predicate LeavesBy(g: Registry, tid: TypeId, n: nat, avoid: set<TypeId>, w: Walk)
    requires WellFormed(g) && Registered(g, tid) && n <= |Edges(g, tid)|
  {
    EdgeTargets(g, tid);
    w != [] && w[0] < n && IsSimpleWalk(g, Edges(g, tid)[w[0]].target, avoid, w[1..])
  }

  /** The listed walks are exactly the simple ones. */
  lemma {:induction false} WalksExact(g: Registry, tid: TypeId, avoid: set<TypeId>, w: Walk)
    requires WellFormed(g) && Registered(g, tid)
    ensures w in Walks(g, tid, avoid) <==> IsSimpleWalk(g, tid, avoid, w)
    decreases |Unvisited(g, avoid)|, 0, 0
  {
    if tid in avoid {
      if Follows(g, tid, w) {
        assert Stops(g, tid, w)[0] in Stops(g, tid, w);
      }
    } else {
      VisitOne(g, avoid, tid);
      var n := |Edges(g, tid)|;
      WalksViaExact(g, tid, n, avoid + {tid}, w);
      if w == [] {
        assert Stops(g, tid, w) == [tid];
      } else if w[0] < n {
        SimpleStep(g, tid, avoid, w);
      }
    }
  }

  lemma {:induction false} WalksViaExact(g: Registry, tid: TypeId, n: nat, avoid: set<TypeId>, w: Walk)
    requires WellFormed(g) && Registered(g, tid) && n <= |Edges(g, tid)|
    ensures w in WalksVia(g, tid, n, avoid) <==> LeavesBy(g, tid, n, avoid, w)
    decreases |Unvisited(g, avoid)|, 1, n
  {
    if n > 0 {
      EdgeTargets(g, tid);
      var target := Edges(g, tid)[n - 1].target;
      WalksViaExact(g, tid, n - 1, avoid, w);
      PrefixedMember(n - 1, Walks(g, target, avoid), w);
      if w != [] {
        WalksExact(g, target, avoid, w[1..]);
      }
    }
  }

  /** No walk is listed twice. */
  lemma {:induction false} WalksDistinct(g: Registry, tid: TypeId, avoid: set<TypeId>)
    requires WellFormed(g) && Registered(g, tid)
    ensures Distinct(Walks(g, tid, avoid))
    decreases |Unvisited(g, avoid)|, 0, 0
  {
    if tid !in avoid {
      VisitOne(g, avoid, tid);
      var rest := WalksVia(g, tid, |Edges(g, tid)|, avoid + {tid});
      WalksViaDistinct(g, tid, |Edges(g, tid)|, avoid + {tid});
      forall j | 0 <= j < |rest| ensures rest[j] != [] {
        assert rest[j] in rest;
        WalksViaExact(g, tid, |Edges(g, tid)|, avoid + {tid}, rest[j]);
      }
    }
  }

  lemma {:induction false} WalksViaDistinct(g: Registry, tid: TypeId, n: nat, avoid: set<TypeId>)
    requires WellFormed(g) && Registered(g, tid) && n <= |Edges(g, tid)|
    ensures Distinct(WalksVia(g, tid, n, avoid))
    decreases |Unvisited(g, avoid)|, 1, n
  {
    if n > 0 {
      EdgeTargets(g, tid);
      var target := Edges(g, tid)[n - 1].target;
      var before, ws := WalksVia(g, tid, n - 1, avoid), Walks(g, target, avoid);
      WalksViaDistinct(g, tid, n - 1, avoid);
      WalksDistinct(g, target, avoid);
      var more := Prefixed(n - 1, ws);
      forall i, j | 0 <= i < j < |more| ensures more[i] != more[j] {
        assert more[i][1..] == ws[i] && more[j][1..] == ws[j];
      }
      forall i, j | 0 <= i < |before| && 0 <= j < |more| ensures before[i] != more[j] {
        assert before[i] in before;
        WalksViaExact(g, tid, n - 1, avoid, before[i]);
      }
    }
  }

  // ---------- what is recorded for a walk ----------

  ghost function JoinPath(path: seq<string>): string {
    if path == [] then "" else JoinPath(path[..|path| - 1]) + "/" + path[|path| - 1]
  }

  /** The type a walk ends at, with the path that leads there. */
  ghost function Entry(g: Registry, tid: TypeId, path: seq<string>, w: Walk): (TypeId, string)
    requires WellFormed(g) && Registered(g, tid)
    decreases |w|
  {
    EdgeTargets(g, tid);
    if w == [] || w[0] >= |Edges(g, tid)| then (tid, JoinPath(path))
    else Entry(g, Edges(g, tid)[w[0]].target, path + [Edges(g, tid)[w[0]].segment], w[1..])
  }

  ghost function Entries(g: Registry, tid: TypeId, path: seq<string>, ws: seq<Walk>): seq<(TypeId, string)>
    requires WellFormed(g) && Registered(g, tid)
  {
    seq(|ws|, i requires 0 <= i < |ws| => Entry(g, tid, path, ws[i]))
  }

  lemma EntriesPrefixed(g: Registry, tid: TypeId, path: seq<string>, k: nat, ws: seq<Walk>)
    requires WellFormed(g) && Registered(g, tid) && k < |Edges(g, tid)|
    ensures Registered(g, Edges(g, tid)[k].target)
    ensures Entries(g, tid, path, Prefixed(k, ws))
      == Entries(g, Edges(g, tid)[k].target, path + [Edges(g, tid)[k].segment], ws)
  {
    EdgeTargets(g, tid);
    forall i | 0 <= i < |ws|
      ensures Entry(g, tid, path, Prefixed(k, ws)[i])
        == Entry(g, Edges(g, tid)[k].target, path + [Edges(g, tid)[k].segment], ws[i])
    {
      assert Prefixed(k, ws)[i][1..] == ws[i];
    }
  }

  lemma EntriesConcat(g: Registry, tid: TypeId, path: seq<string>, ws: seq<Walk>, vs: seq<Walk>)
    requires WellFormed(g) && Registered(g, tid)
    ensures Entries(g, tid, path, ws + vs) == Entries(g, tid, path, ws) + Entries(g, tid, path, vs)
  {}

  // ---------- what is recorded, by the registry alone ----------

  ghost predicate FromAttribute(g: Registry, a: Attribute, e: Edge) {
    match a.checker
    case PointerTo(p) => p != g.objectType && e == Edge(a.name, p)
    case ContainerOf(p) => e == Edge(a.name + "/[i]", p)
    case OtherValue => false
  }

  ghost predicate ToDescendant(g: Registry, tid: TypeId, e: Edge) {
    Registered(g, e.target) && tid in g.types[e.target].ancestors && e.segment == "$" + g.types[e.target].name
  }

  ghost predicate ToAggregated(g: Registry, tid: TypeId, e: Edge) {
    && ((tid, e.target) in g.aggregates || (e.target, tid) in g.aggregates)
    && Registered(g, e.target) && e.segment == "$" + g.types[e.target].name
  }

  /** An attribute of tid, a type that inherits from it or one aggregated with it leads on. */
  ghost predicate Leads(g: Registry, tid: TypeId, e: Edge)
    requires Registered(g, tid)
  {
    || (exists a :: a in g.types[tid].attributes && FromAttribute(g, a, e))
    || ToDescendant(g, tid, e)
    || ToAggregated(g, tid, e)
  }

  lemma {:induction false} AttributeEdgesExact(g: Registry, attributes: seq<Attribute>, e: Edge)
    ensures e in AttributeEdges(g, attributes) <==> exists a :: a in attributes && FromAttribute(g, a, e)
    decreases |attributes|
  {
    if attributes != [] {
      var n := |attributes| - 1;
      AttributeEdgesExact(g, attributes[..n], e);
      assert forall a :: a in attributes <==> a in attributes[..n] || a == attributes[n];
      var before := AttributeEdges(g, attributes[..n]);
      assert e in AttributeEdges(g, attributes) <==> e in before || FromAttribute(g, attributes[n], e);
    }
  }

  lemma {:induction false} ChildEdgesExact(g: Registry, tid: TypeId, n: nat, e: Edge)
    requires n <= |g.types|
    ensures e in ChildEdges(g, tid, n) <==> e.target < n && ToDescendant(g, tid, e)
  {
    if n > 0 {
      ChildEdgesExact(g, tid, n - 1, e);
    }
  }

  lemma {:induction false} AggregateEdgesExact(g: Registry, tid: TypeId, n: nat, e: Edge)
    requires WellFormed(g) && n <= |g.aggregates|
    ensures e in AggregateEdges(g, tid, n) <==>
      && ((tid, e.target) in g.aggregates[..n] || (e.target, tid) in g.aggregates[..n])
      && Registered(g, e.target) && e.segment == "$" + g.types[e.target].name
  {
    if n > 0 {
      AggregateEdgesExact(g, tid, n - 1, e);
      var pair := g.aggregates[n - 1];
      assert g.aggregates[..n] == g.aggregates[..n - 1] + [pair];
      assert pair == (pair.0, pair.1);
    }
  }

  /** The edges are exactly the ways on that the registry gives. */
  lemma EdgesExact(g: Registry, tid: TypeId, e: Edge)
    requires WellFormed(g) && Registered(g, tid)
    ensures e in Edges(g, tid) <==> Leads(g, tid, e)
  {
    AttributeEdgesExact(g, g.types[tid].attributes, e);
    ChildEdgesExact(g, tid, |g.types|, e);
    AggregateEdgesExact(g, tid, |g.aggregates|, e);
    assert g.aggregates[..|g.aggregates|] == g.aggregates;
  }

  /** A trail is a list of edges, each leading on from where the one before it ends. */
  ghost predicate IsTrail(g: Registry, tid: TypeId, es: seq<Edge>)
    requires Registered(g, tid)
    decreases |es|
  {
    es == [] || (Leads(g, tid, es[0]) && Registered(g, es[0].target) && IsTrail(g, es[0].target, es[1..]))
  }

  ghost function Targets(tid: TypeId, es: seq<Edge>): (ts: seq<TypeId>)
    ensures ts != []
  {
    [tid] + seq(|es|, i requires 0 <= i < |es| => es[i].target)
  }

  ghost function Segments(es: seq<Edge>): seq<string> {
    seq(|es|, i requires 0 <= i < |es| => es[i].segment)
  }

  ghost predicate SimpleTrail(g: Registry, tid: TypeId, avoid: set<TypeId>, es: seq<Edge>)
    requires Registered(g, tid)
  {
    IsTrail(g, tid, es) && Distinct(Targets(tid, es)) && forall t :: t in Targets(tid, es) ==> t !in avoid
  }

  /** Some trail that repeats no type and keeps off those to avoid leads to the type, and the text
      spells it out after the path. */
  ghost predicate Recorded(g: Registry, tid: TypeId, avoid: set<TypeId>, path: seq<string>, entry: (TypeId, string))
    requires Registered(g, tid)
  {
    exists es :: SimpleTrail(g, tid, avoid, es) && entry == TrailEntry(tid, path, es)
  }

  ghost function TrailEntry(tid: TypeId, path: seq<string>, es: seq<Edge>): (TypeId, string) {
    (Targets(tid, es)[|es|], JoinPath(path + Segments(es)))
  }

  /** The edges that a walk takes. */
  ghost function TrailOf(g: Registry, tid: TypeId, w: Walk): seq<Edge>
    requires WellFormed(g) && Registered(g, tid) && Follows(g, tid, w)
    decreases |w|
  {
    if w == [] then [] else
      EdgeTargets(g, tid);
      [Edges(g, tid)[w[0]]] + TrailOf(g, Edges(g, tid)[w[0]].target, w[1..])
  }

  lemma {:induction false} WalkIsTrail(g: Registry, tid: TypeId, path: seq<string>, w: Walk)
    requires WellFormed(g) && Registered(g, tid) && Follows(g, tid, w)
    ensures var es := TrailOf(g, tid, w);
      && IsTrail(g, tid, es) && Targets(tid, es) == Stops(g, tid, w)
      && Entry(g, tid, path, w) == TrailEntry(tid, path, es)
    decreases |w|
  {
    if w != [] {
      EdgeTargets(g, tid);
      var e := Edges(g, tid)[w[0]];
      EdgesExact(g, tid, e);
      var rest := TrailOf(g, e.target, w[1..]);
      WalkIsTrail(g, e.target, path + [e.segment], w[1..]);
      TrailFront(tid, path, e, rest);
      assert TrailOf(g, tid, w) == [e] + rest;
    } else {
      assert path + Segments([]) == path;
    }
  }

  lemma TrailFront(tid: TypeId, path: seq<string>, e: Edge, es: seq<Edge>)
    ensures ([e] + es)[1..] == es
    ensures Targets(tid, [e] + es) == [tid] + Targets(e.target, es)
    ensures TrailEntry(tid, path, [e] + es) == TrailEntry(e.target, path + [e.segment], es)
  {
    assert path + Segments([e] + es) == path + [e.segment] + Segments(es);
  }

  /** Every trail is taken by some walk. */
  lemma {:induction false} TrailIsWalk(g: Registry, tid: TypeId, es: seq<Edge>) returns (w: Walk)
    requires WellFormed(g) && Registered(g, tid) && IsTrail(g, tid, es)
    ensures Follows(g, tid, w) && TrailOf(g, tid, w) == es
    decreases |es|
  {
    w := [];
    if es != [] {
      EdgesExact(g, tid, es[0]);
      var k :| 0 <= k < |Edges(g, tid)| && Edges(g, tid)[k] == es[0];
      var v := TrailIsWalk(g, es[0].target, es[1..]);
      w := [k] + v;
      assert w[1..] == v;
    }
  }

  lemma GatheredIsRecorded(g: Registry, tid: TypeId, avoid: set<TypeId>, path: seq<string>, entry: (TypeId, string))
    requires WellFormed(g) && Registered(g, tid) && entry in Entries(g, tid, path, Walks(g, tid, avoid))
    ensures Recorded(g, tid, avoid, path, entry)
  {
    var ws := Walks(g, tid, avoid);
    var i :| 0 <= i < |ws| && Entries(g, tid, path, ws)[i] == entry;
    WalksExact(g, tid, avoid, ws[i]);
    WalkIsTrail(g, tid, path, ws[i]);
    assert SimpleTrail(g, tid, avoid, TrailOf(g, tid, ws[i]));
  }

  lemma RecordedIsGathered(g: Registry, tid: TypeId, avoid: set<TypeId>, path: seq<string>, es: seq<Edge>)
    requires WellFormed(g) && Registered(g, tid) && SimpleTrail(g, tid, avoid, es)
    ensures TrailEntry(tid, path, es) in Entries(g, tid, path, Walks(g, tid, avoid))
  {
    var ws := Walks(g, tid, avoid);
    var w := TrailIsWalk(g, tid, es);
    WalkIsTrail(g, tid, path, w);
    WalksExact(g, tid, avoid, w);
    var i :| 0 <= i < |ws| && ws[i] == w;
    assert Entries(g, tid, path, ws)[i] == Entry(g, tid, path, w);
  }

  /** What a walk from tid records is exactly what the registry's trails from tid give. */
  lemma GatheredExact(g: Registry, tid: TypeId, avoid: set<TypeId>, path: seq<string>, entry: (TypeId, string))
    requires WellFormed(g) && Registered(g, tid)
    ensures entry in Entries(g, tid, path, Walks(g, tid, avoid)) <==> Recorded(g, tid, avoid, path, entry)
  {
    if entry in Entries(g, tid, path, Walks(g, tid, avoid)) {
      GatheredIsRecorded(g, tid, avoid, path, entry);
    } else if Recorded(g, tid, avoid, path, entry) {
      var es :| SimpleTrail(g, tid, avoid, es) && entry == TrailEntry(tid, path, es);
      RecordedIsGathered(g, tid, avoid, path, es);
    }
  }

  /** A type aggregated with tid, on either side, is recorded right behind it. */
  lemma AggregatedRecorded(g: Registry, tid: TypeId, avoid: set<TypeId>, path: seq<string>, b: TypeId)
    requires WellFormed(g) && Registered(g, tid) && Registered(g, b)
    requires ((tid, b) in g.aggregates || (b, tid) in g.aggregates) && b != tid && tid !in avoid && b !in avoid
    ensures (b, JoinPath(path) + "/$" + g.types[b].name) in Entries(g, tid, path, Walks(g, tid, avoid))
  {
    var e := Edge("$" + g.types[b].name, b);
    assert ToAggregated(g, tid, e) && [e][1..] == [];
    assert IsTrail(g, b, []) && IsTrail(g, tid, [e]);
    assert Targets(tid, [e]) == [tid, b] && Segments([e]) == [e.segment];
    assert (path + [e.segment])[..|path|] == path;
    assert JoinPath(path) + "/" + e.segment == JoinPath(path) + "/$" + g.types[b].name;
    assert SimpleTrail(g, tid, avoid, [e]);
    GatheredExact(g, tid, avoid, path, TrailEntry(tid, path, [e]));
  }

  // ---------- the recursive walk with its two hand-kept stacks ----------

  lemma {:induction false} AttributePrefix(g: Registry, attributes: seq<Attribute>, n: nat)
    requires n <= |attributes|
    ensures AttributeEdges(g, attributes[..n]) <= AttributeEdges(g, attributes)
    decreases |attributes| - n
  {
    if n < |attributes| {
      AttributePrefix(g, attributes, n + 1);
      assert attributes[..n + 1][..n] == attributes[..n];
    } else {
      assert attributes[..n] == attributes;
    }
  }

  lemma {:induction false} ChildPrefix(g: Registry, tid: TypeId, n: nat)
    requires n <= |g.types|
    ensures ChildEdges(g, tid, n) <= ChildEdges(g, tid, |g.types|)
    decreases |g.types| - n
  {
    if n < |g.types| {
      ChildPrefix(g, tid, n + 1);
    }
  }

  lemma {:induction false} AggregatePrefix(g: Registry, tid: TypeId, n: nat)
    requires WellFormed(g) && n <= |g.aggregates|
    ensures AggregateEdges(g, tid, n) <= AggregateEdges(g, tid, |g.aggregates|)
    decreases |g.aggregates| - n
  {
    if n < |g.aggregates| {
      AggregatePrefix(g, tid, n + 1);
    }
  }

  class StaticInformation {
    const registry: Registry
    var output: seq<(TypeId, string)>
    var currentPath: seq<string>
    var alreadyProcessed: seq<TypeId>

    constructor (registry: Registry)
      ensures this.registry == registry && output == [] && currentPath == [] && alreadyProcessed == []
    {
      this.registry := registry;
      output, currentPath, alreadyProcessed := [], [], [];
    }

    method GetCurrentPath() returns (path: string)
      ensures path == JoinPath(currentPath)
    {
      path := "";
      for i := 0 to |currentPath|
        invariant path == JoinPath(currentPath[..i])
      {
        assert currentPath[..i + 1][..i] == currentPath[..i];
        path := path + "/" + currentPath[i];
      }
      assert currentPath[..|currentPath|] == currentPath;
    }

    method RecordOutput(tid: TypeId)
      modifies this`output
      ensures output == old(output) + [(tid, JoinPath(currentPath))]
    {
      var path := GetCurrentPath();
      output := output + [(tid, path)];
    }

    method HasAlreadyBeenProcessed(tid: TypeId) returns (found: bool)
      ensures found <==> tid in alreadyProcessed
    {
      for i := 0 to |alreadyProcessed|
        invariant tid !in alreadyProcessed[..i]
      {
        if alreadyProcessed[i] == tid {
          return true;
        }
      }
      return false;
    }

    /** What the walk from tid adds to the output. */
    ghost function Gathered(tid: TypeId): seq<(TypeId, string)>
      requires WellFormed(registry) && Registered(registry, tid)
      reads this
    {
      Entries(registry, tid, currentPath, Walks(registry, tid, SetOf(alreadyProcessed)))
    }

    /** The walk from tid is under way: the entries of its first k edges follow base. */
    ghost predicate Underway(tid: TypeId, base: seq<(TypeId, string)>, k: nat)
      reads this
    {
      && WellFormed(registry) && Registered(registry, tid) && tid !in alreadyProcessed
      && k <= |Edges(registry, tid)|
      && output == base + Via(registry, tid, currentPath, k, SetOf(alreadyProcessed) + {tid})
    }

    method DoGather(tid: TypeId)
      requires WellFormed(registry) && Registered(registry, tid)
      modifies this
      ensures currentPath == old(currentPath) && alreadyProcessed == old(alreadyProcessed)
      ensures output == old(output) + old(Gathered(tid))
      decreases |Unvisited(registry, SetOf(alreadyProcessed))|, 3
    {
      var found := HasAlreadyBeenProcessed(tid);
      if found {
        return;
      }
      RecordOutput(tid);
      ghost var base := output;
      GatheredParts(registry, tid, currentPath, SetOf(alreadyProcessed));
      GatherAttributes(tid, base);
      GatherChildren(tid, base);
      GatherAggregates(tid, base);
    }

    /** The walk from the first type: each entry of the output is for a trail from it, and each trail
        has its entry. */
    method Gather(tid: TypeId)
      requires WellFormed(registry) && Registered(registry, tid) && currentPath == [] && alreadyProcessed == []
      modifies this
      ensures currentPath == [] && alreadyProcessed == [] && old(output) <= output
      ensures forall entry :: entry in output[|old(output)|..] <==> Recorded(registry, tid, {}, [], entry)
    {
      ghost var added := Gathered(tid);
      forall entry ensures entry in added <==> Recorded(registry, tid, {}, [], entry) {
        assert SetOf(alreadyProcessed) == {};
        GatheredExact(registry, tid, {}, [], entry);
      }
      DoGather(tid);
      assert output[|old(output)|..] == added;
    }

    /** Pointers and containers, other than pointers to the general Object type. */
    method GatherAttributes(tid: TypeId, ghost base: seq<(TypeId, string)>)
      requires Underway(tid, base, 0)
      modifies this
      ensures currentPath == old(currentPath) && alreadyProcessed == old(alreadyProcessed)
      ensures Underway(tid, base, ChildStart(registry, tid))
      decreases |Unvisited(registry, SetOf(alreadyProcessed))|, 2
    {
      var attributes := registry.types[tid].attributes;
      for i := 0 to |attributes|
        invariant currentPath == old(currentPath) && alreadyProcessed == old(alreadyProcessed)
        invariant Underway(tid, base, |AttributeEdges(registry, attributes[..i])|)
      {
        ghost var k := |AttributeEdges(registry, attributes[..i])|;
        AttributeStep(registry, tid, i);
        match attributes[i].checker {
          case PointerTo(pointee) =>
            if pointee != registry.objectType {
              Descend(tid, attributes[i].name, pointee, base, k);
            }
          case ContainerOf(item) =>
            Descend(tid, attributes[i].name + "/[i]", item, base, k);
          case OtherValue =>
        }
      }
      assert attributes[..|attributes|] == attributes;
    }

    /** Registered types that inherit from tid. */
    method GatherChildren(tid: TypeId, ghost base: seq<(TypeId, string)>)
      requires Registered(registry, tid) && Underway(tid, base, ChildStart(registry, tid))
      modifies this
      ensures currentPath == old(currentPath) && alreadyProcessed == old(alreadyProcessed)
      ensures Underway(tid, base, AggregateStart(registry, tid))
      decreases |Unvisited(registry, SetOf(alreadyProcessed))|, 2
    {
      ghost var n := ChildStart(registry, tid);
      for j := 0 to |registry.types|
        invariant currentPath == old(currentPath) && alreadyProcessed == old(alreadyProcessed)
        invariant Underway(tid, base, n + |ChildEdges(registry, tid, j)|)
      {
        ChildStep(registry, tid, j);
        if tid in registry.types[j].ancestors {
          Descend(tid, "$" + registry.types[j].name, j, base, n + |ChildEdges(registry, tid, j)|);
        }
      }
    }

    /** Types aggregated with tid, on either side of the pair. */
    method GatherAggregates(tid: TypeId, ghost base: seq<(TypeId, string)>)
      requires Registered(registry, tid) && Underway(tid, base, AggregateStart(registry, tid))
      modifies this
      ensures currentPath == old(currentPath) && alreadyProcessed == old(alreadyProcessed)
      ensures Underway(tid, base, |Edges(registry, tid)|)
      decreases |Unvisited(registry, SetOf(alreadyProcessed))|, 2
    {
      ghost var n := AggregateStart(registry, tid);
      for m := 0 to |registry.aggregates|
        invariant currentPath == old(currentPath) && alreadyProcessed == old(alreadyProcessed)
        invariant Underway(tid, base, n + |AggregateEdges(registry, tid, m)|)
      {
        AggregateStep(registry, tid, m);
        var pair := registry.aggregates[m];
        if pair.0 == tid || pair.1 == tid {
          var other := Other(pair, tid);
          Descend(tid, "$" + registry.types[other].name, other, base, n + |AggregateEdges(registry, tid, m)|);
        }
      }
    }

    /** The recursion with the stacks pushed before and popped after. */
    method PushAndGather(tid: TypeId, segment: string, target: TypeId)
      requires WellFormed(registry) && Registered(registry, tid) && Registered(registry, target)
      requires tid !in alreadyProcessed
      modifies this
      ensures currentPath == old(currentPath) && alreadyProcessed == old(alreadyProcessed)
      ensures output == old(output) + Entries(registry, target, currentPath + [segment],
                                              Walks(registry, target, SetOf(alreadyProcessed) + {tid}))
      decreases |Unvisited(registry, SetOf(alreadyProcessed))|, 0
    {
      VisitOne(registry, SetOf(alreadyProcessed), tid);
      currentPath := currentPath + [segment];
      alreadyProcessed := alreadyProcessed + [tid];
      assert SetOf(alreadyProcessed) == SetOf(old(alreadyProcessed)) + {tid};
      DoGather(target);
      alreadyProcessed := alreadyProcessed[..|alreadyProcessed| - 1];
      currentPath := currentPath[..|currentPath| - 1];
    }

    /** Follows the k-th edge out of tid. */
    method Descend(tid: TypeId, segment: string, target: TypeId, ghost base: seq<(TypeId, string)>, ghost k: nat)
      requires Underway(tid, base, k)
      requires k < |Edges(registry, tid)| && Edges(registry, tid)[k] == Edge(segment, target)
      modifies this
      ensures currentPath == old(currentPath) && alreadyProcessed == old(alreadyProcessed)
      ensures Underway(tid, base, k + 1)
      decreases |Unvisited(registry, SetOf(alreadyProcessed))|, 1
    {
      EdgeAdds(registry, tid, segment, target, currentPath, k, SetOf(alreadyProcessed) + {tid}, base);
      PushAndGather(tid, segment, target);
    }
  }

  /** What following one edge adds, and what the first n edges add. */
  ghost function ViaEdge(g: Registry, tid: TypeId, path: seq<string>, k: nat, avoid: set<TypeId>): seq<(TypeId, string)>
    requires WellFormed(g) && Registered(g, tid) && k < |Edges(g, tid)|
  {
    EdgeTargets(g, tid);
    Entries(g, tid, path, Prefixed(k, Walks(g, Edges(g, tid)[k].target, avoid)))
  }

  ghost function Via(g: Registry, tid: TypeId, path: seq<string>, n: nat, avoid: set<TypeId>): seq<(TypeId, string)>
    requires WellFormed(g) && Registered(g, tid) && n <= |Edges(g, tid)|
  {
    Entries(g, tid, path, WalksVia(g, tid, n, avoid))
  }

  lemma ViaStep(g: Registry, tid: TypeId, path: seq<string>, k: nat, avoid: set<TypeId>)
    requires WellFormed(g) && Registered(g, tid) && k < |Edges(g, tid)|
    ensures Via(g, tid, path, k + 1, avoid) == Via(g, tid, path, k, avoid) + ViaEdge(g, tid, path, k, avoid)
  {
    EdgeTargets(g, tid);
    EntriesConcat(g, tid, path, WalksVia(g, tid, k, avoid), Prefixed(k, Walks(g, Edges(g, tid)[k].target, avoid)));
  }

  lemma EdgeAdds(g: Registry, tid: TypeId, segment: string, target: TypeId,
                 path: seq<string>, k: nat, avoid: set<TypeId>, base: seq<(TypeId, string)>)
    requires WellFormed(g) && Registered(g, tid) && k < |Edges(g, tid)| && Edges(g, tid)[k] == Edge(segment, target)
    ensures Registered(g, target)
    ensures base + Via(g, tid, path, k + 1, avoid)
      == base + Via(g, tid, path, k, avoid) + Entries(g, target, path + [segment], Walks(g, target, avoid))
  {
    EdgeTargets(g, tid);
    EntriesPrefixed(g, tid, path, k, Walks(g, target, avoid));
    ViaStep(g, tid, path, k, avoid);
  }

  lemma GatheredParts(g: Registry, tid: TypeId, path: seq<string>, avoid: set<TypeId>)
    requires WellFormed(g) && Registered(g, tid) && tid !in avoid
    ensures Entries(g, tid, path, Walks(g, tid, avoid))
      == [(tid, JoinPath(path))] + Via(g, tid, path, |Edges(g, tid)|, avoid + {tid})
  {
    VisitOne(g, avoid, tid);
    EntriesConcat(g, tid, path, [[]], WalksVia(g, tid, |Edges(g, tid)|, avoid + {tid}));
  }

  /** Where the edges to children and to aggregated types start. */
  ghost function ChildStart(g: Registry, tid: TypeId): nat
    requires Registered(g, tid)
  {
    |AttributeEdges(g, g.types[tid].attributes)|
  }

  ghost function AggregateStart(g: Registry, tid: TypeId): nat
    requires Registered(g, tid)
  {
    ChildStart(g, tid) + |ChildEdges(g, tid, |g.types|)|
  }

  /** At most one edge more: e, if present, is the k-th edge out of tid. */
  ghost predicate NextEdge(g: Registry, tid: TypeId, k: nat, k': nat, present: bool, e: Edge)
    requires WellFormed(g) && Registered(g, tid)
  {
    if present then k' == k + 1 && k < |Edges(g, tid)| && Edges(g, tid)[k] == e else k' == k
  }

  /** The i-th attribute contributes the next edge, or none. */
  lemma AttributeStep(g: Registry, tid: TypeId, i: nat)
    requires WellFormed(g) && Registered(g, tid) && i < |g.types[tid].attributes|
    ensures var attributes := g.types[tid].attributes;
      var k, k' := |AttributeEdges(g, attributes[..i])|, |AttributeEdges(g, attributes[..i + 1])|;
      match attributes[i].checker
      case PointerTo(p) => NextEdge(g, tid, k, k', p != g.objectType, Edge(attributes[i].name, p))
      case ContainerOf(p) => NextEdge(g, tid, k, k', true, Edge(attributes[i].name + "/[i]", p))
      case OtherValue => k' == k
  {
    var attributes := g.types[tid].attributes;
    AttributePrefix(g, attributes, i + 1);
    assert attributes[..i + 1][..i] == attributes[..i];
    assert AttributeEdges(g, attributes[..i + 1]) <= Edges(g, tid);
  }

  lemma ChildStep(g: Registry, tid: TypeId, j: nat)
    requires WellFormed(g) && Registered(g, tid) && j < |g.types|
    ensures var k := ChildStart(g, tid);
      NextEdge(g, tid, k + |ChildEdges(g, tid, j)|, k + |ChildEdges(g, tid, j + 1)|,
               tid in g.types[j].ancestors, Edge("$" + g.types[j].name, j))
  {
    ChildPrefix(g, tid, j + 1);
    assert AttributeEdges(g, g.types[tid].attributes) + ChildEdges(g, tid, j + 1) <= Edges(g, tid);
  }

  lemma AggregateStep(g: Registry, tid: TypeId, m: nat)
    requires WellFormed(g) && Registered(g, tid) && m < |g.aggregates|
    ensures var other := Other(g.aggregates[m], tid);
      NextEdge(g, tid, AggregateStart(g, tid) + |AggregateEdges(g, tid, m)|,
        AggregateStart(g, tid) + |AggregateEdges(g, tid, m + 1)|,
        g.aggregates[m].0 == tid || g.aggregates[m].1 == tid, Edge("$" + g.types[other].name, other))
  {
    AggregatePrefix(g, tid, m + 1);
    var before := AttributeEdges(g, g.types[tid].attributes) + ChildEdges(g, tid, |g.types|);
    assert before + AggregateEdges(g, tid, m + 1) <= Edges(g, tid);
  }
}
