/** gcf, lcm and reduce_fraction of bindings/python/rad_util.py on integers of any sign. */
module Euclid {
  import opened Options

  // Python's division rounds down, and its remainder takes the sign of the divisor.

  function FloorDiv(a: int, b: int): int
    requires b != 0
  {
    if b > 0 then a / b else (-a) / (-b)
  }

  function FloorMod(a: int, b: int): int
    requires b != 0
  {
    a - FloorDiv(a, b) * b
  }

  lemma FloorModSign(a: int, b: int)
    requires b != 0
    ensures b > 0 ==> 0 <= FloorMod(a, b) < b
    ensures b < 0 ==> b < FloorMod(a, b) <= 0
  {
    if b > 0 {
      assert a == (a / b) * b + a % b;
    } else {
      assert -a == ((-a) / (-b)) * (-b) + (-a) % (-b);
    }
  }

  function Abs(a: int): nat {
    if a < 0 then -a else a
  }

  // ---------- common divisors ----------

  ghost predicate Times(a: int, d: int, k: int) {
    a == d * k
  }

  ghost predicate Divides(d: int, a: int) {
    exists k :: Times(a, d, k)
  }

  ghost predicate Combines(r: int, a: int, b: int, x: int, y: int) {
    r == a * x + b * y
  }

  /** The greatest common divisor, in the order of divisibility; 0 for 0 and 0. */
  ghost predicate IsGcd(r: int, a: int, b: int) {
    r >= 0 && Divides(r, a) && Divides(r, b) && forall d :: Divides(d, a) && Divides(d, b) ==> Divides(d, r)
  }

  lemma Multiple(d: int, k: int)
    ensures Divides(d, d * k)
  {
    assert Times(d * k, d, k);
  }

  lemma DividesSum(d: int, a: int, b: int, x: int, y: int)
    requires Divides(d, a) && Divides(d, b)
    ensures Divides(d, a * x + b * y)
  {
    var j :| Times(a, d, j);
    var k :| Times(b, d, k);
    assert a * x + b * y == d * (j * x + k * y) by {
      assert d * j * x == d * (j * x) && d * k * y == d * (k * y);
      assert d * (j * x + k * y) == d * (j * x) + d * (k * y);
    }
    Multiple(d, j * x + k * y);
  }

  /** Every number that divides the one pair divides the other. */
  ghost predicate SameDivisors(a: int, b: int, c: int, d: int) {
    forall e :: Divides(e, a) && Divides(e, b) <==> Divides(e, c) && Divides(e, d)
  }

  lemma DividesDifference(d: int, a: int, b: int, q: int)
    requires Divides(d, a) && Divides(d, b)
    ensures Divides(d, a - q * b)
  {
    DividesSum(d, a, b, 1, -q);
  }

  lemma DifferenceKeepsDivisors(a: int, b: int, q: int, m: int)
    requires m == a - q * b
    ensures SameDivisors(a, b, b, m)
  {
    forall d | Divides(d, a) && Divides(d, b) ensures Divides(d, m) {
      DividesDifference(d, a, b, q);
    }
    forall d | Divides(d, b) && Divides(d, m) ensures Divides(d, a) {
      DividesDifference(d, m, b, -q);
    }
  }

  ghost predicate IsCombination(r: int, a: int, b: int) {
    exists x, y :: Combines(r, a, b, x, y)
  }

  lemma ModCombines(a: int, b: int, r: int, s: int)
    requires s != 0 && IsCombination(r, a, b) && IsCombination(s, a, b)
    ensures IsCombination(FloorMod(r, s), a, b)
  {
    var x, y :| Combines(r, a, b, x, y);
    var u, v :| Combines(s, a, b, u, v);
    var q := FloorDiv(r, s);
    assert a * (x - q * u) + b * (y - q * v) == r - q * s by {
      assert a * (x - q * u) == a * x - q * (a * u) && b * (y - q * v) == b * y - q * (b * v);
      assert q * s == q * (a * u) + q * (b * v);
    }
    assert Combines(FloorMod(r, s), a, b, x - q * u, y - q * v);
  }

  lemma NegatedCombines(a: int, b: int, r: int)
    requires IsCombination(r, a, b)
    ensures IsCombination(-r, a, b)
  {
    var x, y :| Combines(r, a, b, x, y);
    assert Combines(-r, a, b, -x, -y);
  }

  lemma Signs(d: int, a: int)
    requires Divides(d, a)
    ensures Divides(-d, a) && Divides(d, -a)
  {
    var k :| Times(a, d, k);
    assert Times(a, -d, -k) && Times(-a, d, -k);
  }

  /** Where the remainder is 0 the other number is the answer, but for its sign. */
  lemma AtZero(a: int, b: int, r: int)
    requires SameDivisors(a, b, r, 0) && IsCombination(r, a, b)
    ensures IsGcd(Abs(r), a, b) && IsCombination(Abs(r), a, b)
  {
    assert Times(r, r, 1) && Times(0, r, 0);
    Signs(r, a);
    Signs(r, b);
    NegatedCombines(a, b, r);
    forall d | Divides(d, a) && Divides(d, b) ensures Divides(d, Abs(r)) {
      Signs(d, r);
    }
  }

  /** The loop ends because the remainder shrinks towards 0, from either side. */
  method Gcf(a: int, b: int) returns (r: int)
    ensures IsGcd(r, a, b) && IsCombination(r, a, b)
  {
    var result, remainder := if a >= b then a else b, if a <= b then a else b;
    assert Combines(a, a, b, 1, 0) && Combines(b, a, b, 0, 1);
    while remainder != 0
      invariant SameDivisors(a, b, result, remainder)
      invariant IsCombination(result, a, b) && IsCombination(remainder, a, b)
      decreases Abs(remainder)
    {
      FloorModSign(result, remainder);
      DifferenceKeepsDivisors(result, remainder, FloorDiv(result, remainder), FloorMod(result, remainder));
      ModCombines(a, b, result, remainder);
      result, remainder := remainder, FloorMod(result, remainder);
    }
    AtZero(a, b, result);
    r := Abs(result);
  }

  // ---------- lcm ----------

  lemma OneQuotient(d: int, q: int, m: int, k: int)
    requires d > 0 && 0 <= m < d && d * q + m == d * k
    ensures q == k && m == 0
  {
    assert k >= q + 1 ==> d * k >= d * (q + 1);
    assert k <= q - 1 ==> d * k <= d * (q - 1);
  }

  lemma ExactQuotient(a: int, d: int)
    requires d > 0 && Divides(d, a)
    ensures FloorDiv(a, d) * d == a
  {
    var k :| Times(a, d, k);
    OneQuotient(d, a / d, a % d, k);
  }

  /** With a combination of the two numbers at hand, a multiple of both is a multiple of l. */
  lemma LeastMultiple(a: int, b: int, g: int, l: int, m: int)
    requires g != 0 && l * g == a * b && IsCombination(g, a, b) && Divides(a, m) && Divides(b, m)
    ensures Divides(l, m)
  {
    var x, y :| Combines(g, a, b, x, y);
    var u :| Times(m, a, u);
    var v :| Times(m, b, v);
    var k := x * v + y * u;
    FourFactors(a, b, v, x);
    FourFactors(b, a, u, y);
    assert m * (a * x + b * y) == m * (a * x) + m * (b * y);
    Regroup(a * b, x * v, y * u, l, g);
    CancelFactor(m, l * k, g);
    assert Times(m, l, k);
  }

  lemma FourFactors(a: int, b: int, v: int, x: int)
    ensures (b * v) * (a * x) == (a * b) * (x * v)
  {
    assert (b * v) * (a * x) == b * (v * (a * x)) == b * (a * (x * v)) by {
      assert v * (a * x) == a * (x * v);
    }
    assert (a * b) * (x * v) == b * (a * (x * v));
  }

  lemma Regroup(p: int, s: int, t: int, l: int, g: int)
    requires p == l * g
    ensures p * s + p * t == (l * (s + t)) * g
  {
    assert (l * (s + t)) * g == (l * g) * (s + t);
  }

  lemma CancelFactor(m: int, n: int, g: int)
    requires g != 0 && m * g == n * g
    ensures m == n
  {
    assert (m - n) * g == 0;
  }

  lemma LcmDivisible(a: int, b: int, g: int, l: int)
    requires g > 0 && Divides(g, a) && Divides(g, b) && l == a * FloorDiv(b, g)
    ensures l * g == a * b && Divides(a, l) && Divides(b, l)
  {
    ExactQuotient(a, g);
    ExactQuotient(b, g);
    var p, q := FloorDiv(a, g), FloorDiv(b, g);
    assert l * g == a * (q * g);
    assert l == b * p by {
      assert (p * g) * q == (q * g) * p;
    }
    assert Times(l, a, q) && Times(l, b, p);
  }

  lemma OnlyZero(a: int, b: int)
    requires IsGcd(0, a, b)
    ensures a == 0 && b == 0
  {
    var j :| Times(a, 0, j);
    var k :| Times(b, 0, k);
  }

  /** The least common multiple: every common multiple is a multiple of it, and times the greatest
      common divisor it makes the product of the numbers.  0 for 0 and 0. */
  ghost predicate IsLcm(l: int, a: int, b: int) {
    Divides(a, l) && Divides(b, l) && forall m :: Divides(a, m) && Divides(b, m) ==> Divides(l, m)
  }

  lemma LcmOf(a: int, b: int, g: int, l: int)
    requires IsGcd(g, a, b) && IsCombination(g, a, b)
    requires l == if g == 0 then 0 else a * FloorDiv(b, g)
    ensures IsLcm(l, a, b) && l * g == a * b
  {
    if g == 0 {
      OnlyZero(a, b);
      assert Times(0, 0, 0);
    } else {
      LcmDivisible(a, b, g, l);
      forall m | Divides(a, m) && Divides(b, m) ensures Divides(l, m) {
        LeastMultiple(a, b, g, l, m);
      }
    }
  }

  lemma GcdUnique(r: int, s: int, a: int, b: int)
    requires IsGcd(r, a, b) && IsGcd(s, a, b)
    ensures r == s
  {
    DividesBoth(r, s);
  }

  lemma DividesBoth(r: int, s: int)
    requires r >= 0 && s >= 0 && Divides(r, s) && Divides(s, r)
    ensures r == s
  {
    var j :| Times(s, r, j);
    var k :| Times(r, s, k);
    if r > 0 && s > 0 {
      assert j > 0 && k > 0;
      assert r * j >= r && s * k >= s;
    }
  }

  method Lcm(a: int, b: int) returns (l: int)
    ensures IsLcm(l, a, b)
    ensures forall g :: IsGcd(g, a, b) ==> l * g == a * b
  {
    var denom := Gcf(a, b);
    l := if denom == 0 then 0 else a * FloorDiv(b, denom);
    LcmOf(a, b, denom, l);
    forall g | IsGcd(g, a, b) ensures l * g == a * b {
      GcdUnique(g, denom, a, b);
    }
  }

  // ---------- reduce_fraction ----------

  lemma Coprime(p: int, q: int, g: int)
    requires g > 0 && IsCombination(g, p * g, q * g)
    ensures IsGcd(1, p, q)
  {
    var x, y :| Combines(g, p * g, q * g, x, y);
    assert p * x + q * y == 1 by {
      assert (p * x + q * y) * g == (p * g) * x + (q * g) * y == 1 * g;
      CancelFactor(p * x + q * y, 1, g);
    }
    assert Times(p, 1, p) && Times(q, 1, q);
    forall d | Divides(d, p) && Divides(d, q) ensures Divides(d, 1) {
      DividesSum(d, p, q, x, y);
    }
  }

  /** The same fraction in lowest terms, the signs of both parts kept; nothing for (0, 0), where
      the division by the common factor raises. */
  method ReduceFraction(numerator: int, denominator: int) returns (result: Option<(int, int)>)
    ensures result.None? <==> numerator == 0 && denominator == 0
    ensures result.Some? ==> var (p, q) := result.value; IsGcd(1, p, q) && p * denominator == numerator * q
    ensures result.Some? ==> var (p, q) := result.value; numerator * p >= 0 && denominator * q >= 0
  {
    var commonFactor := Gcf(numerator, denominator);
    if commonFactor == 0 {
      OnlyZero(numerator, denominator);
      return None;
    }
    var p, q := FloorDiv(numerator, commonFactor), FloorDiv(denominator, commonFactor);
    ExactQuotient(numerator, commonFactor);
    ExactQuotient(denominator, commonFactor);
    Coprime(p, q, commonFactor);
    assert p * (q * commonFactor) == (p * commonFactor) * q;
    assert (p * commonFactor) * p == (p * p) * commonFactor && (q * commonFactor) * q == (q * q) * commonFactor;
    return Some((p, q));
  }
}
