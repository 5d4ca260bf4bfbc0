/** Rotations of a sequence and the test for them in bindings/python/rad_util.py. */
module Rotation {

  ghost predicate IsRotation<T>(s: seq<T>, t: seq<T>) {
    exists k :: 0 <= k < |s| && t == s[k..] + s[..k]
  }

  lemma RotationReflexive<T>(s: seq<T>)
    requires s != []
    ensures IsRotation(s, s)
  {
    assert s == s[0..] + s[..0];
  }

  lemma RotationSymmetric<T>(s: seq<T>, t: seq<T>)
    requires IsRotation(s, t)
    ensures IsRotation(t, s)
  {
    var k :| 0 <= k < |s| && t == s[k..] + s[..k];
    var j := if k == 0 then 0 else |s| - k;
    assert s == t[j..] + t[..j];
  }

  /** Where the pieces of one sequence, split in two ways, overlap. */
  lemma Overlap<T>(b: seq<T>, a: seq<T>, c: seq<T>, d: seq<T>)
    requires b + a == c + d && |c| <= |b|
    ensures b == c + b[|c|..] && d == b[|c|..] + a
  {
    assert (b + a)[..|c|] == c && (b + a)[|c|..] == d;
  }

  lemma SplitRotation<T>(s: seq<T>, a: seq<T>, b: seq<T>)
    requires s == a + b && s != []
    ensures IsRotation(s, b + a)
  {
    if b == [] {
      assert b + a == s[0..] + s[..0];
    } else {
      assert b + a == s[|a|..] + s[..|a|];
    }
  }

  lemma RotateAgain<T>(a: seq<T>, b: seq<T>, c: seq<T>, d: seq<T>)
    requires b + a == c + d != []
    ensures IsRotation(a + b, d + c)
  {
    if |c| <= |b| {
      Overlap(b, a, c, d);
      var e := b[|c|..];
      SplitRotation(a + c + e, a + c, e);
      assert a + b == a + c + e && d + c == e + (a + c);
    } else {
      Overlap(c, d, b, a);
      var e := c[|b|..];
      SplitRotation(e + (d + b), e, d + b);
      assert a + b == e + (d + b) && d + c == d + b + e;
    }
  }

  lemma RotationTransitive<T>(s: seq<T>, t: seq<T>, u: seq<T>)
    requires IsRotation(s, t) && IsRotation(t, u)
    ensures IsRotation(s, u)
  {
    var k :| 0 <= k < |s| && t == s[k..] + s[..k];
    var j :| 0 <= j < |t| && u == t[j..] + t[..j];
    RotateAgain(s[..k], s[k..], t[..j], t[j..]);
    assert s == s[..k] + s[k..];
  }

  /** Looks for the head of seq2 in seq1 and compares the wrapped sequence at each place.
      Python raises an IndexError when both are empty. */
  method IsRotated<T(==)>(seq1: seq<T>, seq2: seq<T>) returns (rotated: bool)
    requires seq1 != [] || seq2 != []
    ensures rotated <==> IsRotation(seq1, seq2)
  {
    if |seq1| != |seq2| {
      return false;
    }
    var starts: seq<nat>, head := [], seq2[0];
    for i := 0 to |seq1|
      invariant forall k :: k in starts <==> 0 <= k < i && seq1[k] == head
    {
      if seq1[i] == head {
        starts := starts + [i];
      }
    }
    var double := seq1 + seq1;
    for j := 0 to |starts|
      invariant forall m :: 0 <= m < j ==> starts[m] in starts && seq1[starts[m]..] + seq1[..starts[m]] != seq2
    {
      var k := starts[j];
      assert k in starts;
      assert double[k..k + |seq1|] == seq1[k..] + seq1[..k];
      if double[k..k + |seq1|] == seq2 {
        return true;
      }
    }
    forall k | 0 <= k < |seq1| && k in starts ensures seq1[k..] + seq1[..k] != seq2 {
      var m :| 0 <= m < |starts| && starts[m] == k;
    }
    return false;
  }
}
