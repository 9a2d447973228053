/** Scalar arithmetic modulo Zp (src/algebra/Algebra.cc): reduction, power,
    Euclid's gcd and the extended-Euclid solver of a*x = b (mod Zp). */
module Modular {
  import opened Arith

  /** `mod(int a, Zp)`: a non-negative `a` is reduced with `%`; a negative one
      is mapped to `Zp - (-a) % Zp`, which is Zp itself (not 0) when Zp divides a.
      (The `size_t` overload is plain `a % Zp` and appears in the model as `%`.) */
  function Mod(a: int, zp: nat): (r: nat)
    requires zp > 0
    ensures r <= zp
    ensures r % zp == a % zp
    ensures r == zp <==> (a < 0 && a % zp == 0)
    ensures a >= 0 ==> r < zp
  {
    if a < 0 then
      NegativeResidue(a, zp);
      DivMod(-a, zp);
      zp - (-a) % zp
    else
      DivMod(a, zp);
      ModIdempotent(a, zp);
      a % zp
  }

  lemma NegativeResidue(a: int, zp: nat)
    requires zp > 0 && a < 0
    ensures (zp - (-a) % zp) % zp == a % zp
    ensures (-a) % zp == 0 <==> a % zp == 0
  {
    var t := (-a) % zp;
    var k := (-a) / zp;
    DivMod(-a, zp);
    MulSucc(k, zp);
    assert zp - t == a + (k + 1) * zp;
    ModMultiple(a, k + 1, zp);
    if t == 0 {
      ModOfMultiple(1, zp);
    } else {
      ModOfSmall(zp - t, zp);
    }
  }

  /** `normalize`: every entry goes through `Mod`; the length is kept. */
  function Normalize(vec: seq<int>, zp: nat): (r: seq<nat>)
    requires zp > 0
    ensures |r| == |vec|
    ensures forall i :: 0 <= i < |r| ==> r[i] % zp == vec[i] % zp
    ensures forall i :: 0 <= i < |r| ==> (r[i] < zp <==> !(vec[i] < 0 && vec[i] % zp == 0))
  {
    seq(|vec|, i requires 0 <= i < |vec| => Mod(vec[i], zp))
  }

  /** `powmod`: `pow` repeated multiplications, each reduced with `Mod`.
      For pow == 0 the result is 1 whatever Zp is. */
  method PowMod(a: int, pow: nat, zp: nat) returns (res: nat)
    requires zp > 0
    ensures pow == 0 ==> res == 1
    ensures pow > 0 ==> res <= zp && res % zp == Pow(a, pow) % zp
    ensures pow > 0 && a >= 0 ==> res == Pow(a, pow) % zp
  {
    res := 1;
    var k := pow;
    ghost var done := 0;
    while k > 0
      invariant done + k == pow
      invariant done == 0 ==> res == 1
      invariant res % zp == Pow(a, done) % zp
      invariant done > 0 ==> res <= zp
      invariant done > 0 && a >= 0 ==> res == Pow(a, done) % zp
    {
      PowModStep(res, a, done, zp);
      res := Mod(res * a, zp);
      k := k - 1;
      done := done + 1;
    }
  }

  /** One round of `powmod`: multiplying a residue of a^n by a gives a residue of a^(n+1). */
  lemma PowModStep(res: nat, a: int, n: nat, zp: nat)
    requires zp > 0 && res % zp == Pow(a, n) % zp
    ensures Mod(res * a, zp) % zp == Pow(a, n + 1) % zp
    ensures a >= 0 ==> Mod(res * a, zp) == Pow(a, n + 1) % zp
  {
    ModMulCongruent(res, Pow(a, n), a, zp);
    if a >= 0 {
      MulNonNeg(res, a);
    }
  }

  /** Euclid's algorithm: the reference definition of the greatest common divisor. */
  function GcdSpec(a: nat, b: nat): nat
    decreases b
  {
    if b == 0 then a else GcdSpec(b, a % b)
  }

  lemma GcdSymmetric(a: nat, b: nat)
    ensures GcdSpec(a, b) == GcdSpec(b, a)
  {
    if a < b {
      ModOfSmall(a, b);
    } else if a > b {
      ModOfSmall(b, a);
    }
  }

  /** The gcd divides both arguments. */
  lemma {:induction false} GcdDivides(a: nat, b: nat)
    ensures Divides(GcdSpec(a, b), a) && Divides(GcdSpec(a, b), b)
    decreases b
  {
    if b != 0 {
      GcdDivides(b, a % b);
      var g := GcdSpec(b, a % b);
      if g == 0 {
        assert false;
      } else {
        DividesLinear(g, a % b, b, a / b);
        assert a % b + (a / b) * b == a;
      }
    } else if a != 0 {
      ModOfMultiple(1, a);
      ModOfMultiple(0, a);
    }
  }

  /** Every common divisor divides the gcd, so it is the greatest one. */
  lemma {:induction false} GcdGreatest(a: nat, b: nat, d: nat)
    requires d > 0 && Divides(d, a) && Divides(d, b)
    ensures Divides(d, GcdSpec(a, b))
    decreases b
  {
    if b != 0 {
      DividesLinear(d, a, b, -(a / b));
      assert a + -(a / b) * b == a % b;
      GcdGreatest(b, a % b, d);
    }
  }

  lemma GcdPositive(a: nat, b: nat)
    requires a > 0 || b > 0
    ensures GcdSpec(a, b) > 0
  {
    GcdDivides(a, b);
  }

  lemma GcdZeroLeft(b: nat)
    ensures GcdSpec(0, b) == b
  {
    GcdSymmetric(0, b);
  }

  lemma GcdOneLeft(b: nat)
    ensures GcdSpec(1, b) == 1
  {
    GcdSymmetric(1, b);
    if b > 1 {
      ModOfSmall(1, b);
    }
  }

  /** Dividing both arguments by their (non-zero) gcd leaves coprime numbers. */
  lemma GcdOfQuotients(a: nat, b: nat, g: nat, a1: nat, b1: nat)
    requires g == GcdSpec(a, b) && g > 0 && a1 == a / g && b1 == b / g
    ensures GcdSpec(a1, b1) == 1
  {
    GcdDivides(a, b);
    QuotientsNotBothZero(a, b, g);
    var h := GcdSpec(a1, b1);
    GcdPositive(a1, b1);
    GcdDivides(a1, b1);
    CommonFactorOfQuotients(a, b, g, h);
    GcdGreatest(a, b, h * g);
    NoLargerCommonFactor(g, h);
  }

  lemma QuotientsNotBothZero(a: nat, b: nat, g: nat)
    requires g > 0 && g == GcdSpec(a, b) && Divides(g, a) && Divides(g, b)
    ensures a / g > 0 || b / g > 0
  {
    DivExact(a, g);
    DivExact(b, g);
  }

  lemma CommonFactorOfQuotients(a: nat, b: nat, g: nat, h: nat)
    requires g > 0 && h > 0 && Divides(g, a) && Divides(g, b)
    requires Divides(h, a / g) && Divides(h, b / g)
    ensures h * g > 0 && Divides(h * g, a) && Divides(h * g, b)
  {
    DivExact(a, g);
    DivExact(b, g);
    DividesMulBoth(h, a / g, g);
    DividesMulBoth(h, b / g, g);
    MulPositive(h, g);
  }

  lemma NoLargerCommonFactor(g: nat, h: nat)
    requires g > 0 && h > 0 && Divides(h * g, g)
    ensures h == 1
  {
    MulPositive(h, g);
    DividesLe(h * g, g);
    if h > 1 {
      MulMono(h, 2, g);
    }
  }

  /** `gcd`: swap so that a >= b, three short-cuts, then the remainder loop. */
  method Gcd(a: nat, b: nat) returns (r: nat)
    ensures r == GcdSpec(a, b)
  {
    var x, y := a, b;
    if x < y {
      x, y := y, x;
    }
    GcdSymmetric(a, b);
    if y == 0 {
      return x;
    }
    if y == 1 {
      return 1;
    }
    if x == y {
      return x;
    }
    while y != 0
      invariant GcdSpec(x, y) == GcdSpec(a, b)
      decreases y
    {
      var t := x % y;
      x := y;
      y := t;
    }
    r := x;
  }

  /** The result of `expanded_gcd`: a solution x, or the all-ones `size_t`
      sentinel that signals "no solution". */
  datatype Solution = Solved(x: nat) | NoSolution

  /** One row of the two-row extended-Euclid matrix: quotient, remainder and
      the two Bezout coefficients. */
  datatype Row = Row(q: int, r: nat, x: int, y: int)

  /** The row-shifting loop of `expanded_gcd`, run until the remainder is 1. */
  function EuclidRows(row0: Row, row1: Row): Row
    requires row1.r >= 1 && GcdSpec(row0.r, row1.r) == 1
    decreases row1.r
  {
    if row1.r == 1 then row1
    else
      var q := row0.r / row1.r;
      assert GcdSpec(row0.r, row1.r) == GcdSpec(row1.r, row0.r % row1.r);
      assert row0.r % row1.r != 0;
      EuclidRows(row1, Row(q, row0.r % row1.r, row0.x - q * row1.x, row0.y - q * row1.y))
  }

  /** Both rows keep the Bezout identity x*M + y*A == r, so the last row ends
      with remainder 1 and y*A = 1 (mod M). */
  lemma {:induction false} EuclidBezout(row0: Row, row1: Row, m: int, a: int)
    requires row1.r >= 1 && GcdSpec(row0.r, row1.r) == 1
    requires row0.x * m + row0.y * a == row0.r
    requires row1.x * m + row1.y * a == row1.r
    ensures EuclidRows(row0, row1).r == 1
    ensures EuclidRows(row0, row1).x * m + EuclidRows(row0, row1).y * a == 1
    decreases row1.r
  {
    if row1.r != 1 {
      var q := row0.r / row1.r;
      var next := Row(q, row0.r % row1.r, row0.x - q * row1.x, row0.y - q * row1.y);
      assert row0.r % row1.r == row0.r - q * row1.r;
      assert next.x * m + next.y * a == (row0.x * m + row0.y * a) - q * (row1.x * m + row1.y * a);
      EuclidBezout(row1, next, m, a);
    }
  }

  /** The reference definition of `expanded_gcd`: reduce a and b, answer b
      at once when a = 1, give up when g = gcd(a, Zp) does not divide b,
      otherwise divide a, b and Zp by g (the identity when g = 1) and run the
      extended-Euclid rows; the result is y*b reduced into [0, Zp/g). */
  function Solve(a: nat, b: nat, zp: nat): Solution
    requires zp > 0 && (a % zp != 0 || b % zp != 0)
  {
    var a0, b0 := a % zp, b % zp;
    if a0 == 1 then Solved(b0)
    else
      var g := GcdSpec(a0, zp);
      GcdPositive(a0, zp);
      if g != 1 && b0 % g != 0 then NoSolution
      else
        SolveRowsWellFormed(a0, b0, zp);
        var last := EuclidRows(Row(0, zp / g, 1, 0), Row(0, a0 / g, 0, 1));
        Solved((last.y * (b0 / g)) % (zp / g))
  }

  /** Once the sentinel case is excluded, the scaled rows start the Euclid
      loop legally: both remainders are positive and coprime. */
  lemma SolveRowsWellFormed(a0: nat, b0: nat, zp: nat)
    requires zp > 0 && a0 < zp && b0 < zp && (a0 != 0 || b0 != 0)
    requires GcdSpec(a0, zp) > 0
    requires !(GcdSpec(a0, zp) != 1 && b0 % GcdSpec(a0, zp) != 0)
    ensures a0 / GcdSpec(a0, zp) >= 1 && zp / GcdSpec(a0, zp) >= 1
    ensures GcdSpec(zp / GcdSpec(a0, zp), a0 / GcdSpec(a0, zp)) == 1
  {
    var g := GcdSpec(a0, zp);
    GcdDivides(a0, zp);
    if a0 == 0 {
      ZeroCoefficientUnsolvable(b0, zp);
      assert false;
    }
    GcdOfQuotients(a0, zp, g, a0 / g, zp / g);
    GcdSymmetric(a0 / g, zp / g);
    DividesLe(g, zp);
    DividesLe(g, a0);
    DivPositive(a0, g);
    DivPositive(zp, g);
  }

  /** 0*x = b (mod Zp) with b a non-zero residue is the sentinel case. */
  lemma ZeroCoefficientUnsolvable(b0: nat, zp: nat)
    requires 0 < b0 < zp
    ensures GcdSpec(0, zp) == zp && zp != 1 && b0 % zp != 0
  {
    GcdZeroLeft(zp);
    ModOfSmall(b0, zp);
  }

  /** The rows' Bezout identity makes y an inverse of a1, so (y*b1 mod m1) solves a1*x = b1. */
  lemma InverseTimes(a1: int, y: int, c: int, b1: int, m1: int)
    requires m1 > 0 && c * m1 + y * a1 == 1
    ensures (a1 * ((y * b1) % m1)) % m1 == b1 % m1
  {
    var x := (y * b1) % m1;
    assert a1 * y == 1 + (-c) * m1;
    ModMultiple(1, -c, m1);
    ModIdempotent(y * b1, m1);
    ModMulCongruent(x, y * b1, a1, m1);
    assert x * a1 == a1 * x;
    assert y * b1 * a1 == (a1 * y) * b1;
    ModMulCongruent(a1 * y, 1, b1, m1);
  }

  /** A solution of the equation divided by g solves the original one. */
  lemma ScaledSolution(a: nat, b: nat, zp: nat, g: nat, x: int)
    requires zp > 0 && g > 0
    requires Divides(g, a % zp) && Divides(g, b % zp) && Divides(g, zp) && zp / g > 0
    requires ((a % zp) / g * x) % (zp / g) == ((b % zp) / g) % (zp / g)
    ensures (a * x) % zp == b % zp
  {
    var a0, b0, m1 := a % zp, b % zp, zp / g;
    DivExact(a0, g);
    DivExact(b0, g);
    DivExact(zp, g);
    ScaleCongruence(a0 / g * x, b0 / g, g, m1);
    assert g * (a0 / g * x) == a0 * x by { MulAssoc(g, a0 / g, x); }
    assert g * (b0 / g) == b0;
    assert g * m1 == zp;
    ModIdempotent(a, zp);
    ModMulCongruent(a, a0, x, zp);
    ModOfSmall(b0, zp);
  }

  lemma SolveUnitCoefficient(a: nat, b: nat, zp: nat)
    requires zp > 0 && a % zp == 1
    ensures (a * (b % zp)) % zp == b % zp
  {
    ModMul(a, b % zp, zp);
    ModIdempotent(b, zp);
  }

  /** `expanded_gcd` returns the sentinel exactly when gcd(a mod Zp, Zp) does
      not divide b mod Zp; otherwise its result x solves a*x = b (mod Zp) and
      lies below Zp / gcd(a mod Zp, Zp). */
  lemma SolveCorrect(a: nat, b: nat, zp: nat)
    requires zp > 0 && (a % zp != 0 || b % zp != 0)
    ensures GcdSpec(a % zp, zp) > 0
    ensures Solve(a, b, zp) == NoSolution <==> (b % zp) % GcdSpec(a % zp, zp) != 0
    ensures Solve(a, b, zp).Solved? ==>
              (a * Solve(a, b, zp).x) % zp == b % zp && Solve(a, b, zp).x < zp / GcdSpec(a % zp, zp)
  {
    var a0, b0 := a % zp, b % zp;
    GcdPositive(a0, zp);
    var g := GcdSpec(a0, zp);
    if a0 == 1 {
      GcdOneLeft(zp);
      SolveUnitCoefficient(a, b, zp);
    } else if g != 1 && b0 % g != 0 {
    } else {
      SolveRowsWellFormed(a0, b0, zp);
      GcdDivides(a0, zp);
      var m1, a1, b1 := zp / g, a0 / g, b0 / g;
      var last := EuclidRows(Row(0, m1, 1, 0), Row(0, a1, 0, 1));
      EuclidBezout(Row(0, m1, 1, 0), Row(0, a1, 0, 1), m1, a1);
      InverseTimes(a1, last.y, last.x, b1, m1);
      ScaledSolution(a, b, zp, g, (last.y * b1) % m1);
    }
  }

  /** `expanded_gcd(a, b, Zp)`, with its two-row matrix loop. When a and b are
      both multiples of Zp the source divides by zero, hence the precondition. */
  method ExpandedGcd(a: nat, b: nat, zp: nat) returns (s: Solution)
    requires zp > 0 && (a % zp != 0 || b % zp != 0)
    ensures s == Solve(a, b, zp)
  {
    var a0, b0 := a % zp, b % zp;
    if a0 == 1 {
      return Solved(b0);
    }
    var g := Gcd(a0, zp);
    GcdPositive(a0, zp);
    var a1, b1, m1 := a0, b0, zp;
    if g != 1 {
      if b0 % g != 0 {
        return NoSolution;
      }
      a1, b1, m1 := a0 / g, b0 / g, zp / g;
    }
    SolveRowsWellFormed(a0, b0, zp);
    var row0, row1 := Row(0, m1, 1, 0), Row(0, a1, 0, 1);
    while row1.r != 1
      invariant row1.r >= 1 && GcdSpec(row0.r, row1.r) == 1
      invariant EuclidRows(row0, row1) == EuclidRows(Row(0, m1, 1, 0), Row(0, a1, 0, 1))
      decreases row1.r
    {
      var q := row0.r / row1.r;
      var next := Row(q, row0.r % row1.r, row0.x - q * row1.x, row0.y - q * row1.y);
      row0 := row1;
      row1 := next;
    }
    s := Solved((row1.y * b1) % m1);
  }

  /** `inverse_mod(a, Zp) = expanded_gcd(a, 1, Zp)`. */
  method InverseMod(a: nat, zp: nat) returns (s: Solution)
    requires zp > 1
    ensures s == Solve(a, 1, zp)
  {
    ModOfSmall(1, zp);
    s := ExpandedGcd(a, 1, zp);
  }

  /** The inverse exists exactly when a is coprime to Zp, and then a*x = 1 (mod Zp). */
  lemma InverseCorrect(a: nat, zp: nat)
    requires zp > 1
    ensures 1 % zp == 1
    ensures Solve(a, 1, zp).Solved? <==> GcdSpec(a % zp, zp) == 1
    ensures Solve(a, 1, zp).Solved? ==> (a * Solve(a, 1, zp).x) % zp == 1
  {
    ModOfSmall(1, zp);
    SolveCorrect(a, 1, zp);
    var g := GcdSpec(a % zp, zp);
    if g > 1 {
      ModOfSmall(1, g);
    }
  }

  /** For a prime modulus every non-zero residue is invertible, so every
      equation with a non-zero coefficient is solvable. */
  lemma SolvableModPrime(a: nat, b: nat, zp: nat)
    requires IsPrime(zp) && a % zp != 0
    ensures Solve(a, b, zp).Solved?
    ensures (a * Solve(a, b, zp).x) % zp == b % zp
  {
    SolveCorrect(a, b, zp);
    var a0 := a % zp;
    GcdDivides(a0, zp);
    var g := GcdSpec(a0, zp);
    DividesLe(g, a0);
    assert g == 1;
  }

  /** Primality, stated by divisors. */
  predicate IsPrime(n: nat)
  {
    n >= 2 && forall d :: 2 <= d < n ==> n % d != 0
  }
}
