/** Integer facts shared by the scalar and polynomial models: exact powers,
    divisibility and congruences under Dafny's Euclidean `%`. */
module Arith {

  /** Exact power a^n (the source uses floating-point `powl`; the model is exact). */
  function Pow(a: int, n: nat): int
  {
    if n == 0 then 1 else Pow(a, n - 1) * a
  }

  /** n * k, as k-fold sum. */
  function Copies(n: nat, k: nat): (r: nat)
    ensures n > 0 && k > 0 ==> r > 0
  {
    if k == 0 then 0 else n + Copies(n, k - 1)
  }

  lemma {:induction false} CopiesIsProduct(n: nat, k: nat)
    ensures Copies(n, k) == n * k
  {
    if k > 0 {
      CopiesIsProduct(n, k - 1);
    }
  }

  /** a^d as repeated sums, for counts whose definition should unfold
      without products. */
  function PowBySums(a: nat, d: nat): (n: nat)
    requires a > 0
    ensures n > 0
  {
    if d == 0 then 1 else Copies(PowBySums(a, d - 1), a)
  }

  lemma {:induction false} PowBySumsIsPow(a: nat, d: nat)
    requires a > 0
    ensures PowBySums(a, d) == Pow(a, d)
  {
    if d > 0 {
      PowBySumsIsPow(a, d - 1);
      CopiesIsProduct(PowBySums(a, d - 1), a);
    }
  }

  /** `d` divides `n`; zero divides only zero. */
  predicate Divides(d: nat, n: nat)
  {
    if d == 0 then n == 0 else n % d == 0
  }

  /** The defining equation of Euclidean division. */
  lemma DivMod(x: int, m: int)
    requires m > 0
    ensures x == (x / m) * m + x % m && 0 <= x % m < m
  {
  }

  lemma MulSucc(k: int, m: int)
    ensures (k + 1) * m == k * m + m
  {
  }

  lemma MulNonNeg(a: int, b: int)
    requires a >= 0 && b >= 0
    ensures a * b >= 0
  {
  }

  lemma {:induction false} PowPositive(a: int, n: nat)
    requires a > 0
    ensures Pow(a, n) > 0
  {
    if n > 0 {
      PowPositive(a, n - 1);
      MulPositive(Pow(a, n - 1), a);
    }
  }

  lemma ProductCommutes(x: int, y: int)
    ensures x * y == y * x
  {
  }

  lemma MulPositive(a: int, b: int)
    requires a > 0 && b > 0
    ensures a * b > 0
  {
  }

  lemma {:induction false} PowAdd(a: int, m: nat, n: nat)
    ensures Pow(a, m + n) == Pow(a, m) * Pow(a, n)
    decreases n
  {
    if n > 0 {
      PowAdd(a, m, n - 1);
      calc {
        Pow(a, m + n);
        Pow(a, m + n - 1) * a;
        Pow(a, m) * Pow(a, n - 1) * a;
        { MulAssoc(Pow(a, m), Pow(a, n - 1), a); }
        Pow(a, m) * (Pow(a, n - 1) * a);
      }
    }
  }

  lemma MulAssoc(x: int, y: int, z: int)
    ensures x * y * z == x * (y * z)
  {
  }

  /** Euclidean division is unique. */
  lemma DivModUnique(n: int, m: int, q: int, r: int)
    requires m > 0 && 0 <= r < m && n == q * m + r
    ensures n % m == r && n / m == q
  {
    var q', r' := n / m, n % m;
    assert n == q' * m + r';
    assert (q - q') * m == r' - r;
    if q - q' >= 1 {
      MulMono(q - q', 1, m);
    } else if q - q' <= -1 {
      MulMono(q' - q, 1, m);
    }
  }

  lemma MulMono(x: int, y: int, m: int)
    requires x >= y && m >= 0
    ensures x * m >= y * m
  {
    assert x * m - y * m == (x - y) * m;
    MulNonNeg(x - y, m);
  }

  /** Adding a multiple of the modulus does not change the residue. */
  lemma ModMultiple(x: int, k: int, m: int)
    requires m > 0
    ensures (x + k * m) % m == x % m
  {
    var q, r := x / m, x % m;
    assert x + k * m == (q + k) * m + r;
    DivModUnique(x + k * m, m, q + k, r);
  }

  lemma ModOfMultiple(k: int, m: int)
    requires m > 0
    ensures (k * m) % m == 0
  {
    ModMultiple(0, k, m);
  }

  lemma ModSub(x: int, m: int)
    requires m > 0
    ensures (x - x % m) % m == 0
  {
    assert x - x % m == (x / m) * m;
    ModOfMultiple(x / m, m);
  }

  /** Residues of congruent numbers agree: the basic rewriting step. */
  lemma CongruentByDifference(x: int, y: int, m: int)
    requires m > 0 && (x - y) % m == 0
    ensures x % m == y % m
  {
    var k := (x - y) / m;
    assert x - y == k * m;
    ModMultiple(y, k, m);
  }

  lemma DifferenceOfCongruent(x: int, y: int, m: int)
    requires m > 0 && x % m == y % m
    ensures (x - y) % m == 0
  {
    var qx, qy := x / m, y / m;
    assert x - y == (qx - qy) * m;
    ModOfMultiple(qx - qy, m);
  }

  lemma ModIdempotent(x: int, m: int)
    requires m > 0
    ensures (x % m) % m == x % m
  {
    DivModUnique(x % m, m, 0, x % m);
  }

  lemma ModOfSmall(x: int, m: int)
    requires m > 0 && 0 <= x < m
    ensures x % m == x
  {
    DivModUnique(x, m, 0, x);
  }

  lemma ModAddCongruent(x: int, x': int, y: int, y': int, m: int)
    requires m > 0 && x % m == x' % m && y % m == y' % m
    ensures (x + y) % m == (x' + y') % m
  {
    DifferenceOfCongruent(x, x', m);
    DifferenceOfCongruent(y, y', m);
    var k1, k2 := (x - x') / m, (y - y') / m;
    assert (x + y) - (x' + y') == (k1 + k2) * m;
    ModOfMultiple(k1 + k2, m);
    CongruentByDifference(x + y, x' + y', m);
  }

  lemma ModMulCongruent(x: int, x': int, y: int, m: int)
    requires m > 0 && x % m == x' % m
    ensures (x * y) % m == (x' * y) % m
  {
    DifferenceOfCongruent(x, x', m);
    var k := (x - x') / m;
    assert x - x' == k * m;
    assert x * y - x' * y == (x - x') * y;
    assert x * y - x' * y == (k * y) * m;
    ModOfMultiple(k * y, m);
    CongruentByDifference(x * y, x' * y, m);
  }

  lemma ModMulBoth(x: int, x': int, y: int, y': int, m: int)
    requires m > 0 && x % m == x' % m && y % m == y' % m
    ensures (x * y) % m == (x' * y') % m
  {
    ModMulCongruent(x, x', y, m);
    ModMulCongruent(y, y', x', m);
    assert y * x' == x' * y && y' * x' == x' * y';
  }

  /** The residue of a sum only depends on the residues of its terms. */
  lemma ModAdd(x: int, y: int, m: int)
    requires m > 0
    ensures (x + y) % m == (x % m + y % m) % m
  {
    ModIdempotent(x, m);
    ModIdempotent(y, m);
    ModAddCongruent(x, x % m, y, y % m, m);
  }

  lemma ModMul(x: int, y: int, m: int)
    requires m > 0
    ensures (x * y) % m == ((x % m) * (y % m)) % m
  {
    ModIdempotent(x, m);
    ModIdempotent(y, m);
    ModMulBoth(x, x % m, y, y % m, m);
  }

  /** A common factor scales a congruence: x = y (mod m) gives g*x = g*y (mod g*m). */
  lemma ScaleCongruence(x: int, y: int, g: int, m: int)
    requires m > 0 && g > 0 && x % m == y % m
    ensures (g * x) % (g * m) == (g * y) % (g * m)
  {
    MulPositive(g, m);
    DifferenceOfCongruent(x, y, m);
    var k := (x - y) / m;
    assert x - y == k * m;
    assert g * x - g * y == g * (x - y);
    assert g * x - g * y == k * (g * m);
    ModOfMultiple(k, g * m);
    CongruentByDifference(g * x, g * y, g * m);
  }

  /** (a/b)*b == a when b divides a. */
  lemma DivExact(a: int, b: int)
    requires b > 0 && a % b == 0
    ensures (a / b) * b == a
  {
  }

  lemma DividesTransitive(a: nat, b: nat, c: nat)
    requires a > 0 && b > 0 && Divides(a, b) && Divides(b, c)
    ensures Divides(a, c)
  {
    var k1, k2 := b / a, c / b;
    assert b == k1 * a;
    assert c == k2 * b;
    assert c == (k2 * k1) * a;
    ModOfMultiple(k2 * k1, a);
  }

  lemma DividesLe(d: nat, n: nat)
    requires d > 0 && n > 0 && Divides(d, n)
    ensures d <= n
  {
    var k := n / d;
    assert n == k * d;
    if k <= 0 {
      MulMono(0, k, d);
    } else {
      MulMono(k, 1, d);
    }
  }

  /** Divisibility is preserved by sums and differences of multiples. */
  lemma DividesLinear(d: nat, a: nat, b: nat, q: int)
    requires d > 0 && Divides(d, a) && Divides(d, b) && a + q * b >= 0
    ensures Divides(d, a + q * b)
  {
    var ka, kb := a / d, b / d;
    assert a == ka * d && b == kb * d;
    assert a + q * b == (ka + q * kb) * d;
    ModOfMultiple(ka + q * kb, d);
  }

  /** Scaling a divisibility by a positive factor. */
  lemma DividesMulBoth(h: nat, x: nat, g: nat)
    requires h > 0 && g > 0 && Divides(h, x)
    ensures Divides(h * g, x * g)
  {
    var k := x / h;
    assert x == k * h;
    assert x * g == k * (h * g) by { MulAssoc(k, h, g); }
    MulPositive(h, g);
    ModOfMultiple(k, h * g);
  }

  lemma DivPositive(x: int, g: int)
    requires 0 < g <= x
    ensures x / g >= 1
  {
    DivMod(x, g);
    if x / g <= 0 {
      MulMono(0, x / g, g);
    }
  }

  /** Dividing by at least two makes a positive number smaller. */
  lemma DivShrinks(x: int, g: int)
    requires x >= 1 && g >= 2
    ensures x / g < x
  {
    DivMod(x, g);
    if x / g >= x {
      MulMono(x / g, x, g);
      MulMono(g, 2, x);
      assert false;
    }
  }

  // ----- counting -----

  /** A set of naturals below n has at most n members. */
  lemma {:induction false} BoundedSetSize(vs: set<nat>, n: nat)
    requires forall x :: x in vs ==> x < n
    ensures |vs| <= n
    decreases n
  {
    if n == 0 {
      assert vs == {};
    } else {
      BoundedSetSize(vs - {n - 1}, n - 1);
    }
  }

  /** The set of entries of s. */
  function Values(s: seq<nat>): (vs: set<nat>)
    ensures forall x :: x in vs <==> x in s
  {
    if |s| == 0 then {} else Values(s[..|s| - 1]) + {s[|s| - 1]}
  }

  /** The values of pairwise different entries are as many as the entries. */
  lemma {:induction false} DistinctValues(s: seq<nat>)
    requires forall i, j :: 0 <= i < j < |s| ==> s[i] != s[j]
    ensures |Values(s)| == |s|
  {
    if |s| > 0 {
      var t := s[..|s| - 1];
      DistinctValues(t);
      assert s[|s| - 1] !in t;
    }
  }

  /** The pigeonhole principle: more than n naturals below n contain a
      repetition, at positions i < j. */
  lemma Pigeonhole(s: seq<nat>, n: nat) returns (i: nat, j: nat)
    requires |s| > n && forall k :: 0 <= k < |s| ==> s[k] < n
    ensures i < j < |s| && s[i] == s[j]
  {
    if forall a, b :: 0 <= a < b < |s| ==> s[a] != s[b] {
      DistinctValues(s);
      BoundedSetSize(Values(s), n);
    }
    i, j :| 0 <= i < j < |s| && s[i] == s[j];
  }
}
