/** Binary strings and the Gray code of bindings/python/rad_util.py. */
module Binary {
  import opened Options

  function Pow2(n: nat): (r: nat)
    ensures r >= 1
  {
    if n == 0 then 1 else 2 * Pow2(n - 1)
  }

  predicate AllBinary(s: string) {
    forall k :: 0 <= k < |s| ==> s[k] == '0' || s[k] == '1'
  }

  function BitOf(c: char): nat {
    if c == '1' then 1 else 0
  }

  /** The number that a binary string spells, most significant digit first. */
  function Value(s: string): nat {
    if s == "" then 0 else 2 * Value(s[..|s| - 1]) + BitOf(s[|s| - 1])
  }

  // ---------- strings and their values ----------

  lemma Doubled(a: nat, p: nat, v: nat, bit: nat)
    ensures 2 * (a * p + v) + bit == a * (2 * p) + (2 * v + bit)
  {
  }

  lemma {:induction false} ValueConcat(a: string, b: string)
    ensures Value(a + b) == Value(a) * Pow2(|b|) + Value(b)
    decreases |b|
  {
    if b == "" {
      assert a + b == a;
    } else {
      var front := b[..|b| - 1];
      assert (a + b)[..|a + b| - 1] == a + front;
      ValueConcat(a, front);
      Doubled(Value(a), Pow2(|front|), Value(front), BitOf(b[|b| - 1]));
    }
  }

  lemma {:induction false} ValueBound(s: string)
    ensures Value(s) < Pow2(|s|)
  {
    if s != "" {
      ValueBound(s[..|s| - 1]);
    }
  }

  /** The last digit and the number without it, from the value. */
  lemma LastDigit(s: string)
    requires s != ""
    ensures Value(s) / 2 == Value(s[..|s| - 1]) && Value(s) % 2 == BitOf(s[|s| - 1])
  {
  }

  lemma SameDigits(s: string, t: string)
    requires |s| == |t| > 0 && AllBinary(s) && AllBinary(t)
    requires s[..|s| - 1] == t[..|t| - 1] && BitOf(s[|s| - 1]) == BitOf(t[|t| - 1])
    ensures s == t
  {
    assert s == s[..|s| - 1] + [s[|s| - 1]] && t == t[..|t| - 1] + [t[|t| - 1]];
  }

  /** A value has one binary string of each length. */
  lemma {:induction false} ValueInjective(s: string, t: string)
    requires |s| == |t| && AllBinary(s) && AllBinary(t) && Value(s) == Value(t)
    ensures s == t
    decreases |s|
  {
    if s != "" {
      LastDigit(s);
      LastDigit(t);
      ValueInjective(s[..|s| - 1], t[..|t| - 1]);
      SameDigits(s, t);
    }
  }

  lemma {:induction false} ZeroValue(s: string)
    requires AllBinary(s)
    ensures Value(s) == 0 <==> '1' !in s
  {
    if s != "" {
      ZeroValue(s[..|s| - 1]);
      assert s == s[..|s| - 1] + [s[|s| - 1]];
    }
  }

  // ---------- int2bin ----------

  /** The four binary digits of one hexadecimal digit. */
  function Nibble(d: nat): string
    requires d < 16
  {
    [["0000", "0001", "0010", "0011"], ["0100", "0101", "0110", "0111"],
     ["1000", "1001", "1010", "1011"], ["1100", "1101", "1110", "1111"]][d / 4][d % 4]
  }

  lemma NibbleValue(d: nat)
    requires d < 16
    ensures |Nibble(d)| == 4 && AllBinary(Nibble(d)) && Value(Nibble(d)) == d
  {
    var s := Nibble(d);
    assert s[..3][..2][..1][..0] == "" && s[..3][..2][..1] == s[..1] && s[..3][..2] == s[..2];
    assert Value(s[..1]) == BitOf(s[0]) && Value(s[..2]) == 2 * Value(s[..1]) + BitOf(s[1]);
    assert Value(s[..3]) == 2 * Value(s[..2]) + BitOf(s[2]);
  }

  /** The hexadecimal digits of a number, each as four binary ones. */
  function HexToBinary(i: nat): string {
    (if i < 16 then "" else HexToBinary(i / 16)) + Nibble(i % 16)
  }

  lemma AppendNibble(s: string, d: nat)
    requires d < 16
    ensures Value(s + Nibble(d)) == 16 * Value(s) + d
    ensures AllBinary(s) ==> AllBinary(s + Nibble(d))
  {
    NibbleValue(d);
    ValueConcat(s, Nibble(d));
    assert Pow2(1) == 2 && Pow2(2) == 4 && Pow2(3) == 8;
  }

  lemma {:induction false} HexToBinaryValue(i: nat)
    ensures AllBinary(HexToBinary(i)) && Value(HexToBinary(i)) == i
  {
    var front := if i < 16 then "" else HexToBinary(i / 16);
    if i >= 16 {
      HexToBinaryValue(i / 16);
    }
    assert AllBinary(front) && Value(front) == i / 16;
    AppendNibble(front, i % 16);
  }

  function Zeros(n: nat): string {
    seq(n, _ => '0')
  }

  /** How many of len digits stand before the last n, as Python's slices count them: for a width of
      0 none, and for a negative one the first -n. */
  function Surplus(len: nat, n: int): nat {
    if n >= 1 then (if len <= n then 0 else len - n)
    else if -n <= len then -n
    else len
  }

  /** How many digits of a number are kept. */
  function Kept(i: nat, n: int): nat {
    |HexToBinary(i)| - Surplus(|HexToBinary(i)|, n)
  }

  /** Nothing if the function raises: a ValueError for a number that is too large, or a KeyError
      for the sign of a negative one. */
  function Int2Bin(i: int, n: int): Option<string> {
    if i < 0 then None else
      var result := HexToBinary(i);
      var cut := Surplus(|result|, n);
      var kept := |result| - cut;
      if '1' in result[..cut] then None
      else Some(Zeros(if kept <= n then n - kept else 0) + result[cut..])
  }

  lemma ZerosValue(n: nat)
    ensures AllBinary(Zeros(n)) && Value(Zeros(n)) == 0
  {
    ZeroValue(Zeros(n));
  }

  lemma AtLeastOnce(a: nat, b: nat, r: nat)
    requires r < b
    ensures a == 0 ==> a * b + r == r
    ensures a >= 1 ==> a * b + r >= b
  {
  }

  /** Digits in front do not count exactly when the number fits into the rest. */
  lemma FrontDigits(s: string, cut: nat)
    requires cut <= |s| && AllBinary(s)
    ensures '1' !in s[..cut] <==> Value(s) < Pow2(|s| - cut)
    ensures '1' !in s[..cut] ==> Value(s[cut..]) == Value(s)
  {
    assert s == s[..cut] + s[cut..];
    ValueConcat(s[..cut], s[cut..]);
    ZeroValue(s[..cut]);
    ValueBound(s[cut..]);
    AtLeastOnce(Value(s[..cut]), Pow2(|s| - cut), Value(s[cut..]));
  }

  lemma PaddedValue(z: nat, s: string)
    requires AllBinary(s)
    ensures AllBinary(Zeros(z) + s) && Value(Zeros(z) + s) == Value(s)
  {
    ZerosValue(z);
    ValueConcat(Zeros(z), s);
  }

  /** int2bin fails exactly on negative numbers and on those that do not fit into the digits kept;
      otherwise it yields binary digits that spell the number. */
  lemma Int2BinSpells(i: int, n: int)
    ensures Int2Bin(i, n).None? <==> i < 0 || i >= Pow2(Kept(i, n))
    ensures Int2Bin(i, n).Some? ==> AllBinary(Int2Bin(i, n).value) && Value(Int2Bin(i, n).value) == i
  {
    if i >= 0 {
      var result := HexToBinary(i);
      HexToBinaryValue(i);
      var cut := Surplus(|result|, n);
      FrontDigits(result, cut);
      var kept := |result| - cut;
      PaddedValue(if kept <= n then n - kept else 0, result[cut..]);
    }
  }

  /** A number fits into the digits kept exactly when it fits into the width. */
  lemma FitsIff(i: nat, n: nat)
    requires n >= 1
    ensures i < Pow2(Kept(i, n)) <==> i < Pow2(n)
  {
    HexToBinaryValue(i);
    ValueBound(HexToBinary(i));
    if |HexToBinary(i)| <= n {
      PowOrder(|HexToBinary(i)|, n);
    }
  }

  /** With a width of 1 or more it fails exactly on numbers that are negative or need more digits,
      and otherwise yields exactly that many. */
  lemma Int2BinExact(i: int, n: int)
    requires n >= 1
    ensures Int2Bin(i, n).None? <==> i < 0 || i >= Pow2(n)
    ensures Int2Bin(i, n).Some? ==> |Int2Bin(i, n).value| == n
    ensures Int2Bin(i, n).Some? ==> AllBinary(Int2Bin(i, n).value) && Value(Int2Bin(i, n).value) == i
  {
    Int2BinSpells(i, n);
    if i >= 0 {
      FitsIff(i, n);
    }
  }

  lemma {:induction false} PowOrder(a: nat, b: nat)
    requires a <= b
    ensures Pow2(a) <= Pow2(b)
    decreases b
  {
    if a < b {
      PowOrder(a, b - 1);
    }
  }

  /** bin2int, on strings of binary digits; the empty one raises a ValueError. */
  function Bin2Int(s: string): Option<nat>
    requires AllBinary(s)
  {
    if s == "" then None else Some(Value(s))
  }

  /** Each undoes the other. */
  lemma Inverses(i: int, n: nat, s: string)
    requires n >= 1 && AllBinary(s) && s != ""
    ensures 0 <= i < Pow2(n) ==>
      var r := Int2Bin(i, n); r.Some? && AllBinary(r.value) && Bin2Int(r.value) == Some(i)
    ensures Int2Bin(Bin2Int(s).value, |s|) == Some(s)
  {
    Int2BinExact(i, n);
    ValueBound(s);
    Int2BinExact(Value(s), |s|);
    ValueInjective(Int2Bin(Value(s), |s|).value, s);
  }

  // ---------- binary_range ----------

  /** The number that digits spell, least significant digit first. */
  ghost function LowValue(v: string): nat {
    if v == "" then 0 else LowValue(v[..|v| - 1]) + BitOf(v[|v| - 1]) * Pow2(|v| - 1)
  }

  function Reversed(v: string): (r: string)
    ensures |r| == |v|
  {
    if v == "" then "" else [v[|v| - 1]] + Reversed(v[..|v| - 1])
  }

  lemma {:induction false} ReversedValue(v: string)
    requires AllBinary(v)
    ensures AllBinary(Reversed(v)) && Value(Reversed(v)) == LowValue(v)
  {
    if v != "" {
      var front, c := v[..|v| - 1], v[|v| - 1];
      ReversedValue(front);
      ValueConcat([c], Reversed(front));
      assert [c][..0] == "" && Value([c]) == BitOf(c);
    }
  }

  lemma {:induction false} LowValueUpdate(v: string, i: nat, c: char)
    requires i < |v|
    ensures LowValue(v[i := c]) == LowValue(v) + (BitOf(c) - BitOf(v[i])) * Pow2(i)
    decreases |v|
  {
    var w := v[i := c];
    if i == |v| - 1 {
      assert w[..i] == v[..i];
    } else {
      assert w[..|v| - 1] == v[..|v| - 1][i := c];
      LowValueUpdate(v[..|v| - 1], i, c);
    }
  }

  lemma {:induction false} LowValueZero(v: string)
    requires '1' !in v
    ensures LowValue(v) == 0
  {
    if v != "" {
      assert v[|v| - 1] in v;
      LowValueZero(v[..|v| - 1]);
    }
  }

  /** The toggles ahead of position i are down; the one at i tells whether there is a carry. */
  ghost predicate Carrying(v: string, toggle: seq<int>, i: nat, bits: nat, before: nat) {
    && |v| == bits && AllBinary(v) && |toggle| == bits + 1 && i <= bits
    && (toggle[i] == 0 || toggle[i] == 1) && (forall k :: i < k <= bits ==> toggle[k] == 0)
    && LowValue(v) + toggle[i] * Pow2(i) == before + 1
  }

  /** Flips the digit at i and carries on if it was a one. */
  method Flip(v: string, toggle: seq<int>, i: nat, ghost bits: nat, ghost before: nat)
    returns (w: string, toggled: seq<int>)
    requires Carrying(v, toggle, i, bits, before) && i < bits && toggle[i] == 1
    ensures Carrying(w, toggled, i + 1, bits, before)
  {
    if v[i] == '0' {
      LowValueUpdate(v, i, '1');
      w, toggled := v[i := '1'], toggle[i + 1 := 0];
    } else {
      LowValueUpdate(v, i, '0');
      w, toggled := v[i := '0'], toggle[i + 1 := 1];
    }
  }

  /** Adds one to the digits; the last toggle is up exactly if they overflowed to zero. */
  method Increment(v: string, bits: nat) returns (w: string, toggle: seq<int>)
    requires |v| == bits && AllBinary(v) && bits >= 1
    ensures |w| == bits && AllBinary(w) && |toggle| == bits + 1
    ensures if toggle[bits] == 1 then LowValue(v) + 1 == LowValue(w) + Pow2(bits) else LowValue(v) + 1 == LowValue(w)
  {
    w, toggle := v, [1] + seq(bits, _ => 0);
    var i := 0;
    while i < bits && toggle[i] == 1
      invariant Carrying(w, toggle, i, bits, LowValue(v))
    {
      w, toggle := Flip(w, toggle, i, bits, LowValue(v));
      i := i + 1;
    }
  }

  /** Entry k is what int2bin makes of k. */
  ghost predicate Counted(l: seq<string>, bits: nat) {
    forall k :: 0 <= k < |l| ==> bits >= 1 && Int2Bin(k, bits) == Some(l[k])
  }

  /** The binary string of a length is the only one that spells its value. */
  lemma LowString(v: string)
    requires v != "" && AllBinary(v)
    ensures Int2Bin(LowValue(v), |v|) == Some(Reversed(v)) && LowValue(v) < Pow2(|v|)
  {
    ReversedValue(v);
    Inverses(0, 1, Reversed(v));
    ValueBound(Reversed(v));
  }

  /** The digits stand for the next entry. */
  ghost predicate Odometer(l: seq<string>, v: string, bits: nat) {
    |v| == bits >= 1 && AllBinary(v) && LowValue(v) == |l| < Pow2(bits) && Counted(l, bits)
  }

  /** One entry more; with the last toggle up the list is complete. */
  method NextEntry(l: seq<string>, v: string, bits: nat) returns (more: seq<string>, w: string, toggle: seq<int>)
    requires Odometer(l, v, bits)
    ensures |toggle| == bits + 1 && |more| == |l| + 1
    ensures if toggle[bits] != 1 then Odometer(more, w, bits) else |more| == Pow2(bits) && Counted(more, bits)
  {
    LowString(v);
    more := l + [Reversed(v)];
    w, toggle := Increment(v, bits);
    LowString(w);
  }

  /** All binary strings of the given width, in order; none for width 0, although one string has
      that width. */
  method BinaryRange(bits: nat) returns (l: seq<string>)
    ensures |l| == if bits == 0 then 0 else Pow2(bits)
    ensures Counted(l, bits)
  {
    l := [];
    var v, toggle := Zeros(bits), [1] + seq(bits, _ => 0);
    LowValueZero(v);
    while toggle[bits] != 1
      invariant |toggle| == bits + 1
      invariant if toggle[bits] != 1 then Odometer(l, v, bits) else |l| == (if bits == 0 then 0 else Pow2(bits))
      invariant Counted(l, bits)
      decreases Pow2(bits) - |l|
    {
      l, v, toggle := NextEntry(l, v, bits);
    }
  }

  // ---------- the Gray code ----------

  predicate Odd(i: nat) {
    i % 2 == 1
  }

  /** The number with the given higher digits and the exclusive or of two last ones. */
  function Joined(high: nat, a: nat, b: nat): (r: nat)
    ensures r / 2 == high && (Odd(r) <==> Odd(a) != Odd(b))
  {
    2 * high + if Odd(a) != Odd(b) then 1 else 0
  }

  /** Exclusive or of the binary digits. */
  function Xor(a: nat, b: nat): nat
    decreases a + b
  {
    if a == 0 && b == 0 then 0 else Joined(Xor(a / 2, b / 2), a, b)
  }

  function GrayEncode(i: nat): nat {
    Xor(i, i / 2)
  }

  function Bit(i: nat, k: nat): bool {
    if k == 0 then Odd(i) else Bit(i / 2, k - 1)
  }

  /** The two numbers differ in bit k and in no other. */
  ghost predicate DifferOnlyAt(a: nat, b: nat, k: nat) {
    forall j: nat :: Bit(a, j) != Bit(b, j) <==> j == k
  }

  lemma GrayHalves(i: nat)
    ensures GrayEncode(i) / 2 == GrayEncode(i / 2)
    ensures Odd(GrayEncode(i)) <==> Odd(i) != Odd(i / 2)
  {
  }

  /** Which bit a count changes: the lowest clear one. */
  function LowestClear(i: nat): nat {
    if !Odd(i) then 0 else 1 + LowestClear(i / 2)
  }

  lemma SameBits(a: nat, j: nat)
    ensures Bit(a, j + 1) == Bit(a / 2, j)
  {
  }

  /** Neighbours differ in exactly one bit. */
  lemma {:induction false} GrayNeighbours(i: nat)
    ensures DifferOnlyAt(GrayEncode(i), GrayEncode(i + 1), LowestClear(i))
    decreases i
  {
    var g, h := GrayEncode(i), GrayEncode(i + 1);
    GrayHalves(i);
    GrayHalves(i + 1);
    if !Odd(i) {
      assert (i + 1) / 2 == i / 2;
      forall j: nat ensures Bit(g, j) != Bit(h, j) <==> j == 0 {
      }
    } else {
      assert (i + 1) / 2 == i / 2 + 1;
      GrayNeighbours(i / 2);
      forall j: nat ensures Bit(g, j) != Bit(h, j) <==> j == LowestClear(i) {
        if j > 0 {
          SameBits(g, j - 1);
          SameBits(h, j - 1);
          assert Bit(g / 2, j - 1) != Bit(h / 2, j - 1) <==> j - 1 == LowestClear(i / 2);
        }
      }
    }
  }

  /** The number with a given Gray code. */
  function GrayDecode(g: nat): nat {
    if g == 0 then 0 else
      var high := GrayDecode(g / 2);
      Joined(high, g, high)
  }

  lemma DecodeHalves(g: nat)
    ensures GrayDecode(g) / 2 == GrayDecode(g / 2)
    ensures Odd(GrayDecode(g)) <==> Odd(g) != Odd(GrayDecode(g / 2))
  {
  }

  lemma FromHalves(a: nat, b: nat)
    requires a / 2 == b / 2 && (Odd(a) <==> Odd(b))
    ensures a == b
  {
  }

  lemma {:induction false} DecodeEncode(i: nat)
    ensures GrayDecode(GrayEncode(i)) == i
  {
    if i > 0 {
      DecodeEncode(i / 2);
      GrayHalves(i);
      DecodeHalves(GrayEncode(i));
      FromHalves(GrayDecode(GrayEncode(i)), i);
    }
  }

  lemma {:induction false} EncodeDecode(g: nat)
    ensures GrayEncode(GrayDecode(g)) == g
  {
    if g > 0 {
      EncodeDecode(g / 2);
      DecodeHalves(g);
      GrayHalves(GrayDecode(g));
      FromHalves(GrayEncode(GrayDecode(g)), g);
    }
  }

  lemma {:induction false} EncodeBound(i: nat, n: nat)
    ensures GrayEncode(i) < Pow2(n) <==> i < Pow2(n)
    decreases n
  {
    GrayHalves(i);
    if n > 0 {
      EncodeBound(i / 2, n - 1);
    } else if i > 0 && GrayEncode(i) == 0 {
      DecodeEncode(i);
    }
  }

  /** For every n the Gray code maps the numbers below 2^n one to one onto themselves. */
  lemma GrayBijection(n: nat)
    ensures forall i: nat :: i < Pow2(n) ==> GrayEncode(i) < Pow2(n)
    ensures forall i: nat, j: nat :: GrayEncode(i) == GrayEncode(j) ==> i == j
    ensures forall g: nat :: g < Pow2(n) ==> GrayDecode(g) < Pow2(n) && GrayEncode(GrayDecode(g)) == g
  {
    forall i: nat | i < Pow2(n) ensures GrayEncode(i) < Pow2(n) {
      EncodeBound(i, n);
    }
    forall i: nat, j: nat | GrayEncode(i) == GrayEncode(j) ensures i == j {
      DecodeEncode(i);
      DecodeEncode(j);
    }
    forall g: nat | g < Pow2(n) ensures GrayDecode(g) < Pow2(n) && GrayEncode(GrayDecode(g)) == g {
      EncodeDecode(g);
      EncodeBound(GrayDecode(g), n);
    }
  }
}
