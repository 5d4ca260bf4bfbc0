/** Window queries of utils/grid.py over sorted ranges and events. */
module Timeline {

  function Middle(l: int, u: int): (m: int)
    requires 0 <= l <= u
    ensures l <= m <= u
  {
    (l + u) / 2
  }

  /** Python's s[lo:hi]: cut at the end of the list, and empty if the bounds are the wrong way round. */
  function Slice<T>(s: seq<T>, lo: nat, hi: nat): seq<T> {
    var h := UpTo(s, hi);
    if lo <= h then s[lo..h] else []
  }

  /** What is left of an upper bound when the list ends before it. */
  function UpTo<T>(s: seq<T>, hi: int): int {
    if hi <= |s| then hi else |s|
  }

  // ---------- ranges ----------

  datatype Range = Range(start: int, end: int)

  predicate Holds(r: Range, key: int) {
    r.start <= key <= r.end
  }

  /** In order, as the timeline keeps them; a range may start where the one before it ends. */
  ghost predicate Ordered(rs: seq<Range>) {
    && (forall i :: 0 <= i < |rs| ==> rs[i].start <= rs[i].end)
    && (forall i, j :: 0 <= i < j < |rs| ==> rs[i].end <= rs[j].start)
  }

  /** No two ranges touch. */
  ghost predicate Apart(rs: seq<Range>) {
    forall i, j :: 0 <= i < j < |rs| ==> rs[i].end < rs[j].start
  }

  ghost predicate Hit(rs: seq<Range>, key: int) {
    exists i :: 0 <= i < |rs| && Holds(rs[i], key)
  }

  ghost predicate Meets(r: Range, start: int, end: int) {
    r.start <= end && start <= r.end
  }

  /** Bounds that cut out the ranges that meet the window, and no others. */
  ghost predicate ExactRanges(rs: seq<Range>, lo: nat, hi: nat, start: int, end: int) {
    lo <= hi <= |rs| && forall i :: 0 <= i < |rs| ==> (lo <= i < hi <==> Meets(rs[i], start, end))
  }

  predicate WithinLimits(r: Range, fromStart: bool, toEnd: bool, start: int, end: int) {
    (fromStart ==> start <= r.end) && (toEnd ==> r.start <= end)
  }

  predicate InsideLimits(r: Range, fromStart: bool, toEnd: bool, start: int, end: int) {
    (fromStart ==> start < r.end) && (toEnd ==> r.start < end)
  }

  /** What bounds are answered: an end of the window limits them if it falls into a range, and a
      range that only touches such an end may be left out; with both ends in gaps there are none. */
  ghost predicate Bounds(rs: seq<Range>, lo: int, hi: int, start: int, end: int) {
    && 0 <= lo <= hi <= |rs|
    && if !Hit(rs, start) && !Hit(rs, end) then lo == hi else
       forall i :: 0 <= i < |rs| ==>
         && (InsideLimits(rs[i], Hit(rs, start), Hit(rs, end), start, end) ==> lo <= i < hi)
         && (lo <= i < hi ==> WithinLimits(rs[i], Hit(rs, start), Hit(rs, end), start, end))
  }

  /** The ranges that lie within the limits which apply. */
  ghost function Limited(rs: seq<Range>, fromStart: bool, toEnd: bool, start: int, end: int): seq<Range> {
    if rs == [] then [] else
      var last := rs[|rs| - 1];
      Limited(rs[..|rs| - 1], fromStart, toEnd, start, end) +
      if WithinLimits(last, fromStart, toEnd, start, end) then [last] else []
  }

  /** What is answered when no two ranges touch. */
  ghost function RangesAnswered(rs: seq<Range>, start: int, end: int): seq<Range> {
    if !Hit(rs, start) && !Hit(rs, end) then [] else Limited(rs, Hit(rs, start), Hit(rs, end), start, end)
  }

  lemma SliceGrows<T>(s: seq<T>, lo: nat, n: nat)
    requires lo <= n < |s|
    ensures s[lo..n + 1] == s[..n][lo..n] + [s[n]]
  {
  }

  lemma SliceOfFront<T>(s: seq<T>, lo: nat, hi: nat)
    requires lo <= hi < |s|
    ensures s[..|s| - 1][lo..hi] == s[lo..hi]
  {
  }

  ghost predicate CutOut(rs: seq<Range>, lo: nat, hi: nat, fromStart: bool, toEnd: bool, start: int, end: int) {
    && lo <= hi <= |rs|
    && forall i :: 0 <= i < |rs| ==> (lo <= i < hi <==> WithinLimits(rs[i], fromStart, toEnd, start, end))
  }

  lemma {:induction false} LimitedSlice(rs: seq<Range>, lo: nat, hi: nat, fromStart: bool, toEnd: bool,
                                        start: int, end: int)
    requires CutOut(rs, lo, hi, fromStart, toEnd, start, end)
    ensures Limited(rs, fromStart, toEnd, start, end) == rs[lo..hi]
    decreases |rs|
  {
    if rs != [] {
      var n := |rs| - 1;
      assert WithinLimits(rs[n], fromStart, toEnd, start, end) <==> lo <= n < hi;
      if lo <= n < hi {
        LimitedSlice(rs[..n], lo, n, fromStart, toEnd, start, end);
        SliceGrows(rs, lo, n);
      } else if lo <= n {
        LimitedSlice(rs[..n], lo, hi, fromStart, toEnd, start, end);
        SliceOfFront(rs, lo, hi);
      } else {
        LimitedSlice(rs[..n], n, n, fromStart, toEnd, start, end);
      }
    }
  }

  lemma ApartAnswer(rs: seq<Range>, lo: int, hi: int, start: int, end: int)
    requires Ordered(rs) && Apart(rs) && start <= end && Bounds(rs, lo, hi, start, end)
    requires Hit(rs, start) ==> lo < |rs| && Holds(rs[lo], start)
    requires Hit(rs, end) ==> 0 < hi && Holds(rs[hi - 1], end)
    requires !Hit(rs, start) && Hit(rs, end) ==> lo == 0
    requires Hit(rs, start) && !Hit(rs, end) ==> hi == |rs|
    ensures rs[lo..hi] == RangesAnswered(rs, start, end)
  {
    if Hit(rs, start) || Hit(rs, end) {
      assert CutOut(rs, lo, hi, Hit(rs, start), Hit(rs, end), start, end);
      LimitedSlice(rs, lo, hi, Hit(rs, start), Hit(rs, end), start, end);
    }
  }

  /** With both ends in gaps nothing is answered, even if a range lies between them. */
  lemma RangeBetweenGaps()
    ensures Meets(Range(5, 6), 0, 10) && RangesAnswered([Range(5, 6)], 0, 10) == []
  {
  }

  /** With one end in a gap ranges outside the window are answered as well. */
  lemma RangeOutsideWindow()
    ensures !Meets(Range(1, 2), 4, 6) && RangesAnswered([Range(1, 2), Range(5, 7)], 4, 6) == [Range(1, 2), Range(5, 7)]
  {
    var rs := [Range(1, 2), Range(5, 7)];
    assert Holds(rs[1], 6) && !Hit(rs, 4);
    LimitedSlice(rs, 0, 2, false, true, 4, 6);
    assert rs[0..2] == rs;
  }

  /** Which slice of n ranges is answered when the ends are found at s and e, -1 for a gap. */
  function Cut(s: int, e: int, n: nat): (int, int) {
    if s == -1 && e == -1 then (0, 0)
    else if s == -1 then (0, e + 1)
    else if e == -1 then (s, n)
    else (s, e + 1)
  }

  /** Where binary search between l and u comes out. */
  function Sought(rs: seq<Range>, key: int, l: int, u: int): int
    requires 0 <= l <= u + 1 <= |rs|
    decreases u - l
  {
    if l > u then -1 else
      var i := Middle(l, u);
      if Holds(rs[i], key) then i
      else if key < rs[i].start then Sought(rs, key, l, i - 1)
      else Sought(rs, key, i + 1, u)
  }

  /** Where binary search in the whole list comes out. */
  function IndexOf(rs: seq<Range>, key: int): int {
    Sought(rs, key, 0, |rs| - 1)
  }

  /** The index of a range that holds the key; -1 if there is none. */
  ghost predicate FoundAt(rs: seq<Range>, index: int, key: int) {
    if Hit(rs, key) then 0 <= index < |rs| && Holds(rs[index], key) else index == -1
  }

  lemma {:induction false} SoughtExact(rs: seq<Range>, key: int, l: int, u: int)
    requires Ordered(rs) && 0 <= l <= u + 1 <= |rs|
    requires (forall i :: 0 <= i < l ==> rs[i].end < key) && (forall i :: u < i < |rs| ==> key < rs[i].start)
    ensures FoundAt(rs, Sought(rs, key, l, u), key)
    decreases u - l
  {
    if l <= u {
      var i := Middle(l, u);
      if Holds(rs[i], key) {
      } else if key < rs[i].start {
        SoughtExact(rs, key, l, i - 1);
      } else {
        SoughtExact(rs, key, i + 1, u);
      }
    }
  }

  lemma IndexExact(rs: seq<Range>, key: int)
    requires Ordered(rs)
    ensures FoundAt(rs, IndexOf(rs, key), key)
  {
    SoughtExact(rs, key, 0, |rs| - 1);
  }

  class TimelineDataRange {
    var ranges: seq<Range>

    method Search(key: int) returns (index: int)
      requires Ordered(ranges)
      ensures FoundAt(ranges, index, key)
      ensures index == IndexOf(ranges, key)
    {
      var l, u := 0, |ranges| - 1;
      while l <= u
        invariant 0 <= l <= u + 1 <= |ranges|
        invariant Sought(ranges, key, l, u) == IndexOf(ranges, key)
      {
        var i := Middle(l, u);
        if key >= ranges[i].start && key <= ranges[i].end {
          IndexExact(ranges, key);
          return i;
        } else if key < ranges[i].start {
          u := i - 1;
        } else {
          l := i + 1;
        }
      }
      IndexExact(ranges, key);
      return -1;
    }

    method GetRangesBounds(start: int, end: int) returns (lo: int, hi: int)
      requires Ordered(ranges)
      ensures (lo, hi) == RangeBounds(ranges, start, end)
    {
      var s := Search(start);
      var e := Search(end);
      return Cut(s, e, |ranges|).0, Cut(s, e, |ranges|).1;
    }

    /** The slice between those bounds. */
    method GetRanges(start: int, end: int) returns (r: seq<Range>)
      requires Ordered(ranges)
      ensures var (lo, hi) := RangeBounds(ranges, start, end); 0 <= lo && 0 <= hi && r == Slice(ranges, lo, hi)
    {
      var s := Search(start);
      var e := Search(end);
      r := Slice(ranges, Cut(s, e, |ranges|).0, Cut(s, e, |ranges|).1);
    }
  }

  /** The bounds of the answer. */
  function RangeBounds(rs: seq<Range>, start: int, end: int): (int, int) {
    Cut(IndexOf(rs, start), IndexOf(rs, end), |rs|)
  }

  /** The answer is the ranges that meet the window: always if both ends fall into ranges, and
      otherwise if no range lies on the far side of an end in a gap, or none between two gaps. */
  ghost predicate RightAnswer(rs: seq<Range>, start: int, end: int) {
    if Hit(rs, start) && Hit(rs, end) then true
    else if Hit(rs, end) then rs[0].end >= start
    else if Hit(rs, start) then rs[|rs| - 1].start <= end
    else forall i :: 0 <= i < |rs| ==> !Meets(rs[i], start, end)
  }

  /** Both ends inside ranges: the bounds hold what lies between the ranges found there.  Only one:
      from that range to the end of the list on the other side.  None: nothing at all. */
  lemma BoundsExact(rs: seq<Range>, start: int, end: int)
    requires Ordered(rs) && start <= end
    ensures var (lo, hi) := RangeBounds(rs, start, end); Bounds(rs, lo, hi, start, end)
  {
    IndexExact(rs, start);
    IndexExact(rs, end);
    BoundsFound(rs, IndexOf(rs, start), IndexOf(rs, end), start, end);
  }

  lemma BoundsFound(rs: seq<Range>, s: int, e: int, start: int, end: int)
    requires Ordered(rs) && start <= end && FoundAt(rs, s, start) && FoundAt(rs, e, end)
    requires start == end ==> s == e
    ensures var (lo, hi) := Cut(s, e, |rs|); Bounds(rs, lo, hi, start, end)
  {
    assert s != -1 && e != -1 ==> s <= e;
  }

  /** When no two ranges touch, the answer is the ranges within the limits that apply, and it is the
      ranges that meet the window under a stated condition. */
  lemma ApartExact(rs: seq<Range>, start: int, end: int)
    requires Ordered(rs) && Apart(rs) && start <= end
    ensures var (lo, hi) := RangeBounds(rs, start, end);
      && 0 <= lo <= hi <= |rs| && Slice(rs, lo, hi) == RangesAnswered(rs, start, end)
      && (ExactRanges(rs, lo, hi, start, end) <==> RightAnswer(rs, start, end))
  {
    IndexExact(rs, start);
    IndexExact(rs, end);
    BoundsExact(rs, start, end);
    var (lo, hi) := RangeBounds(rs, start, end);
    ApartAnswer(rs, lo, hi, start, end);
    ExactWhen(rs, IndexOf(rs, start), IndexOf(rs, end), start, end);
  }

  lemma ExactWhen(rs: seq<Range>, s: int, e: int, start: int, end: int)
    requires Ordered(rs) && Apart(rs) && start <= end && FoundAt(rs, s, start) && FoundAt(rs, e, end)
    requires var (lo, hi) := Cut(s, e, |rs|); Bounds(rs, lo, hi, start, end)
    ensures var (lo, hi) := Cut(s, e, |rs|);
      ExactRanges(rs, lo, hi, start, end) <==> RightAnswer(rs, start, end)
  {
  }

  /** Nothing that meets the window stands next to the bounds, and on the side of an end in a gap
      nothing lies outside the window. */
  ghost predicate NothingMissed(rs: seq<Range>, s: int, e: int, start: int, end: int)
    requires FoundAt(rs, s, start) && FoundAt(rs, e, end)
  {
    if s == -1 && e == -1 then forall i :: 0 <= i < |rs| ==> !Meets(rs[i], start, end)
    else
      && (if s == -1 then rs[0].end >= start else s == 0 || rs[s - 1].end < start)
      && (if e == -1 then rs[|rs| - 1].start <= end else e == |rs| - 1 || rs[e + 1].start > end)
  }

  /** The bounds are exact under that condition, and only then, for ranges that touch as well. */
  lemma RangesRightIff(rs: seq<Range>, start: int, end: int)
    requires Ordered(rs) && start <= end
    ensures FoundAt(rs, IndexOf(rs, start), start) && FoundAt(rs, IndexOf(rs, end), end)
    ensures var (lo, hi) := RangeBounds(rs, start, end);
      && 0 <= lo <= hi
      && (ExactRanges(rs, lo, hi, start, end)
          <==> NothingMissed(rs, IndexOf(rs, start), IndexOf(rs, end), start, end))
  {
    IndexExact(rs, start);
    IndexExact(rs, end);
    BoundsExact(rs, start, end);
    RightWhenFound(rs, IndexOf(rs, start), IndexOf(rs, end), start, end);
  }

  lemma RightWhenFound(rs: seq<Range>, s: int, e: int, start: int, end: int)
    requires Ordered(rs) && start <= end && FoundAt(rs, s, start) && FoundAt(rs, e, end)
    requires var (lo, hi) := Cut(s, e, |rs|); Bounds(rs, lo, hi, start, end)
    ensures var (lo, hi) := Cut(s, e, |rs|);
      ExactRanges(rs, lo, hi, start, end) <==> NothingMissed(rs, s, e, start, end)
  {
  }

  /** Of two ranges that touch at the window's end point only the one found is answered. */
  lemma TouchingRangeLeftOut()
    ensures
      var rs := [Range(1, 5), Range(5, 9)];
      Ordered(rs) && Meets(rs[1], 5, 5) && RangeBounds(rs, 5, 5) == (0, 1)
  {
    assert Sought([Range(1, 5), Range(5, 9)], 5, 0, 1) == 0;
  }

  // ---------- events ----------

  datatype Event = Event(at: int, value: int)

  /** In order of time; several events may come at one time. */
  ghost predicate InTime(es: seq<Event>) {
    forall i, j :: 0 <= i < j < |es| ==> es[i].at <= es[j].at
  }

  /** No two events come at one time. */
  ghost predicate OneAtATime(es: seq<Event>) {
    forall i, j :: 0 <= i < j < |es| ==> es[i].at < es[j].at
  }

  ghost predicate Struck(es: seq<Event>, key: int) {
    exists i :: 0 <= i < |es| && es[i].at == key
  }

  /** Bounds that cut out the events of the window, and no others. */
  ghost predicate ExactEvents(es: seq<Event>, lo: nat, hi: nat, start: int, end: int) {
    lo <= hi <= |es| && forall i :: 0 <= i < |es| ==> (lo <= i < hi <==> start <= es[i].at <= end)
  }

  /** The events of the window. */
  ghost function Window(es: seq<Event>, start: int, end: int): seq<Event> {
    if es == [] then [] else
      var last := es[|es| - 1];
      Window(es[..|es| - 1], start, end) + if start <= last.at <= end then [last] else []
  }

  lemma {:induction false} WindowSlice(es: seq<Event>, start: int, end: int, lo: nat, hi: nat)
    requires ExactEvents(es, lo, hi, start, end)
    ensures Window(es, start, end) == es[lo..hi]
    decreases |es|
  {
    if es != [] {
      var n := |es| - 1;
      assert start <= es[n].at <= end <==> lo <= n < hi;
      if lo <= n < hi {
        WindowSlice(es[..n], start, end, lo, n);
        SliceGrows(es, lo, n);
      } else if lo <= n {
        WindowSlice(es[..n], start, end, lo, hi);
        SliceOfFront(es, lo, hi);
      } else {
        WindowSlice(es[..n], start, end, n, n);
      }
    }
  }

  /** The first event after the window, if there is one. */
  ghost function NextAfter(es: seq<Event>, end: int): seq<Event> {
    if es == [] then [] else if end < es[0].at then [es[0]] else NextAfter(es[1..], end)
  }

  lemma {:induction false} NextAt(es: seq<Event>, end: int, e: nat)
    requires e <= |es| && (forall i :: 0 <= i < e ==> es[i].at <= end) && (e < |es| ==> end < es[e].at)
    ensures NextAfter(es, end) == if e < |es| then [es[e]] else []
    decreases |es|
  {
    if e > 0 {
      NextAt(es[1..], end, e - 1);
    }
  }

  /** What is answered when no two events come at one time: the events of the window, and the next
      one after it unless an event falls on the window's end. */
  ghost function EventsAnswered(es: seq<Event>, start: int, end: int): seq<Event> {
    Window(es, start, end) + if Struck(es, end) then [] else NextAfter(es, end)
  }

  /** An event after the window is answered. */
  lemma EventAfterWindow()
    ensures EventsAnswered([Event(5, 0)], 0, 3) == [Event(5, 0)]
  {
    WindowSlice([Event(5, 0)], 0, 3, 0, 0);
  }

  /** Where binary search between l and u comes out. */
  function SoughtEvent(es: seq<Event>, key: int, l: int, u: int): (index: int)
    requires 0 <= l <= u + 1 <= |es|
    ensures l <= index <= u + 1
    decreases u - l
  {
    if l > u then l else
      var i := Middle(l, u);
      if key == es[i].at then i
      else if key < es[i].at then SoughtEvent(es, key, l, i - 1)
      else SoughtEvent(es, key, i + 1, u)
  }

  /** An event at the time, or the place where one would be. */
  ghost predicate PlacedAt(es: seq<Event>, index: nat, key: int) {
    && index <= |es| && (Struck(es, key) ==> index < |es| && es[index].at == key)
    && (forall i :: 0 <= i < index ==> es[i].at <= key) && (forall i :: index <= i < |es| ==> key <= es[i].at)
  }

  lemma EventFound(es: seq<Event>, key: int, i: nat)
    requires InTime(es) && i < |es| && es[i].at == key
    ensures PlacedAt(es, i, key)
  {
  }

  /** Only l to u are left to look at: every other event lies on its side of the key. */
  ghost predicate Narrowed(es: seq<Event>, key: int, l: int, u: int) {
    && 0 <= l <= u + 1 <= |es|
    && (forall i :: 0 <= i < l ==> es[i].at < key) && (forall i :: u < i < |es| ==> key < es[i].at)
  }

  lemma EventGap(es: seq<Event>, key: int, l: int)
    requires Narrowed(es, key, l, l - 1)
    ensures PlacedAt(es, l, key)
  {
  }

  lemma NarrowDown(es: seq<Event>, key: int, l: int, u: int, i: int)
    requires InTime(es) && Narrowed(es, key, l, u) && l <= i <= u
    ensures key < es[i].at ==> Narrowed(es, key, l, i - 1)
    ensures es[i].at < key ==> Narrowed(es, key, i + 1, u)
  {
  }

  /** Search stops at an event with the key, or with nothing left to look at. */
  ghost predicate StopsAt(es: seq<Event>, index: int, key: int) {
    (0 <= index < |es| && es[index].at == key) || Narrowed(es, key, index, index - 1)
  }

  lemma StopPlaced(es: seq<Event>, index: int, key: int)
    requires InTime(es) && StopsAt(es, index, key)
    ensures 0 <= index && PlacedAt(es, index, key)
  {
    if Narrowed(es, key, index, index - 1) {
      EventGap(es, key, index);
    } else {
      EventFound(es, key, index);
    }
  }

  lemma {:induction false} SoughtEventStops(es: seq<Event>, key: int, l: int, u: int)
    requires InTime(es) && Narrowed(es, key, l, u)
    ensures StopsAt(es, SoughtEvent(es, key, l, u), key)
    decreases u - l
  {
    if l <= u {
      var i := Middle(l, u);
      NarrowDown(es, key, l, u, i);
      if key < es[i].at {
        SoughtEventStops(es, key, l, i - 1);
      } else if es[i].at < key {
        SoughtEventStops(es, key, i + 1, u);
      }
    }
  }

  /** Where binary search in the whole list comes out. */
  function Place(es: seq<Event>, key: int): (index: nat)
    ensures index <= |es|
  {
    SoughtEvent(es, key, 0, |es| - 1)
  }

  lemma PlaceExact(es: seq<Event>, key: int)
    requires InTime(es)
    ensures PlacedAt(es, Place(es, key), key)
  {
    SoughtEventStops(es, key, 0, |es| - 1);
    StopPlaced(es, Place(es, key), key);
  }

  /** What bounds are answered: every event strictly inside the window, nothing before it, and after
      it at most the first event, where none falls on the end.  Of several events at one end of the
      window some may be left out. */
  ghost predicate EventBounds(es: seq<Event>, lo: int, hi: int, start: int, end: int) {
    && 0 <= lo < hi <= |es| + 1
    && (forall i :: 0 <= i < |es| && start < es[i].at < end ==> lo <= i < hi)
    && (forall i :: lo <= i < hi && i < |es| ==> start <= es[i].at)
    && (forall i :: lo <= i < hi - 1 ==> es[i].at <= end)
    && (hi <= |es| && es[hi - 1].at > end ==> !Struck(es, end))
  }

  lemma PlacesInOrder(es: seq<Event>, s: nat, e: nat, start: int, end: int)
    requires InTime(es) && start <= end && PlacedAt(es, s, start) && PlacedAt(es, e, end)
    requires start == end ==> s == e
    ensures s <= e && EventBounds(es, s, e + 1, start, end)
  {
    assert e < |es| ==> end <= es[e].at;
  }

  lemma AnswerStruck(es: seq<Event>, s: nat, e: nat, start: int, end: int)
    requires OneAtATime(es) && s <= e < |es| && PlacedAt(es, s, start) && es[e].at == end
    ensures es[s..e + 1] == EventsAnswered(es, start, end)
  {
    assert ExactEvents(es, s, e + 1, start, end);
    WindowSlice(es, start, end, s, e + 1);
  }

  lemma AnswerWithNext(es: seq<Event>, s: nat, e: nat, start: int, end: int)
    requires OneAtATime(es) && s <= e && PlacedAt(es, s, start) && PlacedAt(es, e, end) && !Struck(es, end)
    ensures es[s..UpTo(es, e + 1)] == EventsAnswered(es, start, end)
  {
    assert ExactEvents(es, s, e, start, end);
    WindowSlice(es, start, end, s, e);
    NextAt(es, end, e);
    assert e < |es| ==> es[s..e + 1] == es[s..e] + [es[e]];
  }

  lemma AnswerOf(es: seq<Event>, s: nat, e: nat, start: int, end: int)
    requires OneAtATime(es) && s <= e && PlacedAt(es, s, start) && PlacedAt(es, e, end)
    ensures 0 <= s <= UpTo(es, e + 1) <= |es| && es[s..UpTo(es, e + 1)] == EventsAnswered(es, start, end)
  {
    if Struck(es, end) {
      AnswerStruck(es, s, e, start, end);
    } else {
      AnswerWithNext(es, s, e, start, end);
    }
  }

  /** The bounds of the answer. */
  function EventRange(es: seq<Event>, start: int, end: int): (int, int) {
    (Place(es, start), Place(es, end) + 1)
  }

  /** The bounds hold every event strictly inside the window and at most one after it. */
  lemma EventsBounded(es: seq<Event>, start: int, end: int)
    requires InTime(es) && start <= end
    ensures var (lo, hi) := EventRange(es, start, end);
      0 <= lo <= UpTo(es, hi) <= |es| && EventBounds(es, lo, hi, start, end)
  {
    PlaceExact(es, start);
    PlaceExact(es, end);
    PlacesInOrder(es, Place(es, start), Place(es, end), start, end);
  }

  /** When no two events come at one time, the events of the window are answered and at most the
      next one. */
  lemma EventsExact(es: seq<Event>, start: int, end: int)
    requires OneAtATime(es) && start <= end
    ensures var (lo, hi) := EventRange(es, start, end);
      0 <= lo && 0 <= hi && Slice(es, lo, hi) == EventsAnswered(es, start, end)
  {
    EventsBounded(es, start, end);
    PlaceExact(es, start);
    PlaceExact(es, end);
    AnswerOf(es, Place(es, start), Place(es, end), start, end);
  }

  /** The answer is the events of the window exactly when no event just before it comes at its start
      and the last one answered is the last that comes by its end. */
  lemma EventsRightIff(es: seq<Event>, start: int, end: int)
    requires InTime(es) && start <= end
    ensures var (s, e) := (Place(es, start), Place(es, end));
      ExactEvents(es, s, UpTo(es, e + 1), start, end) <==>
        && (s == 0 || es[s - 1].at < start)
        && (e == |es| || (es[e].at == end && (e + 1 == |es| || end < es[e + 1].at)))
  {
    EventsBounded(es, start, end);
    PlaceExact(es, start);
    PlaceExact(es, end);
    RightWhenPlaced(es, Place(es, start), Place(es, end), start, end);
  }

  lemma RightWhenPlaced(es: seq<Event>, s: nat, e: nat, start: int, end: int)
    requires InTime(es) && start <= end && PlacedAt(es, s, start) && PlacedAt(es, e, end)
    requires s <= UpTo(es, e + 1)
    ensures ExactEvents(es, s, UpTo(es, e + 1), start, end) <==>
      && (s == 0 || es[s - 1].at < start)
      && (e == |es| || (es[e].at == end && (e + 1 == |es| || end < es[e + 1].at)))
  {
  }

  /** Of two events at one time, on the ends of the window, only the one found is answered. */
  lemma EventLeftOut()
    ensures
      var es := [Event(5, 0), Event(5, 1)];
      InTime(es) && EventRange(es, 5, 5) == (0, 1)
  {
    assert SoughtEvent([Event(5, 0), Event(5, 1)], 5, 0, 1) == 0;
  }

  class TimelineEvent {
    var events: seq<Event>

    /** Where an event with that time is, or would be. */
    method Search(key: int) returns (index: nat)
      requires InTime(events)
      ensures PlacedAt(events, index, key)
      ensures index == Place(events, key)
    {
      var l, u := 0, |events| - 1;
      while l <= u
        invariant 0 <= l <= u + 1 <= |events|
        invariant SoughtEvent(events, key, l, u) == Place(events, key)
      {
        var i := Middle(l, u);
        if key == events[i].at {
          PlaceExact(events, key);
          return i;
        } else if key < events[i].at {
          u := i - 1;
        } else {
          l := i + 1;
        }
      }
      PlaceExact(events, key);
      return l;
    }

    method GetEventsBounds(start: int, end: int) returns (lo: nat, hi: nat)
      requires InTime(events)
      ensures (lo, hi) == EventRange(events, start, end)
    {
      var s := Search(start);
      var e := Search(end);
      return s, e + 1;
    }

    /** The slice between those bounds. */
    method GetEvents(start: int, end: int) returns (r: seq<Event>)
      requires InTime(events)
      ensures var (lo, hi) := EventRange(events, start, end); 0 <= lo && 0 <= hi && r == Slice(events, lo, hi)
    {
      var s := Search(start);
      var e := Search(end);
      r := Slice(events, s, e + 1);
    }
  }
}
