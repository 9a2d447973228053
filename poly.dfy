/** Dense polynomials over Z_p (src/algebra/Polynomial.h). A polynomial is the
    vector of its coefficients, the coefficient of x^i at index i. The prime
    Zp is the template parameter of the source; here it is the parameter
    `zp` (at least 2, as the source's static assertion demands). */
module Polynomials {
  import opened Arith
  import opened Modular

  type Poly = seq<nat>

  const Zero: Poly := [0]
  const One: Poly := [1]
  const X: Poly := [0, 1]

  /** Coefficient of x^i; indices past the stored vector read as 0. */
  function Coef(p: Poly, i: nat): nat
  {
    if i < |p| then p[i] else 0
  }

  /** Two vectors denote the same polynomial: trailing zeros do not count. */
  ghost predicate Same(p: Poly, q: Poly)
  {
    forall i: nat :: Coef(p, i) == Coef(q, i)
  }

  lemma SameTrans(a: Poly, b: Poly, c: Poly)
    requires Same(a, b) && Same(b, c)
    ensures Same(a, c)
  {
  }

  /** Every stored coefficient is a residue in [0, Zp). */
  predicate Reduced(p: Poly, zp: nat)
  {
    forall i :: 0 <= i < |p| ==> p[i] < zp
  }

  function Max(a: nat, b: nat): nat
  {
    if a < b then b else a
  }

  /** `compute_deg`, scanning the first `n` entries from the top down. */
  function DegBelow(p: Poly, n: nat): (d: nat)
    requires n <= |p|
    ensures n > 0 ==> d < n
    ensures forall i :: d < i < n ==> p[i] == 0
    ensures d > 0 ==> d < n && p[d] != 0
  {
    if n == 0 then 0
    else if p[n - 1] != 0 then n - 1
    else DegBelow(p, n - 1)
  }

  /** `deg()`: the highest index holding a non-zero coefficient, or 0 for the
      zero polynomial (and for the empty vector, where the scan starts at
      size() - 1, the largest size_t, and stops at once). */
  function Deg(p: Poly): (d: nat)
    ensures |p| > 0 ==> d < |p|
    ensures forall i: nat :: i > d ==> Coef(p, i) == 0
    ensures d > 0 ==> Coef(p, d) != 0
  {
    DegBelow(p, |p|)
  }

  /** The degree is determined by the coefficients alone. */
  lemma DegUnique(p: Poly, d: nat)
    requires forall i: nat :: i > d ==> Coef(p, i) == 0
    requires d > 0 ==> Coef(p, d) != 0
    ensures Deg(p) == d
  {
  }

  lemma SameDeg(p: Poly, q: Poly)
    requires Same(p, q)
    ensures Deg(p) == Deg(q)
  {
    DegUnique(q, Deg(p));
  }

  /** `operator==`: equal degrees, then equal coefficients from deg down to 0. */
  predicate Equals(p: Poly, q: Poly)
  {
    Deg(p) == Deg(q) && forall i: nat :: i <= Deg(p) ==> Coef(p, i) == Coef(q, i)
  }

  /** `==` ignores trailing zeros: it is exactly coefficient-wise equality. */
  lemma EqualsIffSame(p: Poly, q: Poly)
    ensures Equals(p, q) <==> Same(p, q)
  {
    if Equals(p, q) {
      forall i: nat
        ensures Coef(p, i) == Coef(q, i)
      {
        if i > Deg(p) {
          assert Coef(q, i) == 0;
        }
      }
    }
    if Same(p, q) {
      SameDeg(p, q);
    }
  }

  /** Equality with Zero: every coefficient vanishes. */
  lemma EqualsZero(p: Poly)
    ensures Equals(p, Zero) <==> forall i: nat :: Coef(p, i) == 0
  {
    EqualsIffSame(p, Zero);
    if forall i: nat :: Coef(p, i) == 0 {
      assert forall i: nat :: Coef(Zero, i) == 0;
    }
  }

  /** Equality with One: constant term 1, nothing else. */
  lemma EqualsOne(p: Poly)
    ensures Equals(p, One) <==> Coef(p, 0) == 1 && forall i: nat :: i > 0 ==> Coef(p, i) == 0
  {
    EqualsIffSame(p, One);
    if Coef(p, 0) == 1 && forall i: nat :: i > 0 ==> Coef(p, i) == 0 {
      forall i: nat
        ensures Coef(p, i) == Coef(One, i)
      {
        if i > 0 {
          assert Coef(One, i) == 0;
        }
      }
    }
  }

  // ----- order (declared but not defined in the source) -----

  /** Coefficients compared from index i downwards: the first difference decides. */
  predicate LessFrom(p: Poly, q: Poly, i: nat)
  {
    if Coef(p, i) != Coef(q, i) then Coef(p, i) < Coef(q, i)
    else i > 0 && LessFrom(p, q, i - 1)
  }

  /** The strict order used by `Gcd`: a lower degree is smaller; equal degrees
      compare coefficients from the top down. */
  predicate Less(p: Poly, q: Poly)
  {
    Deg(p) < Deg(q) || (Deg(p) == Deg(q) && LessFrom(p, q, Deg(p)))
  }

  lemma {:induction false} LessFromTrichotomy(p: Poly, q: Poly, i: nat)
    ensures !(LessFrom(p, q, i) && LessFrom(q, p, i))
    ensures !LessFrom(p, q, i) && !LessFrom(q, p, i) <==> forall j: nat :: j <= i ==> Coef(p, j) == Coef(q, j)
  {
    if i > 0 && Coef(p, i) == Coef(q, i) {
      LessFromTrichotomy(p, q, i - 1);
      if forall j: nat :: j <= i - 1 ==> Coef(p, j) == Coef(q, j) {
        forall j: nat | j <= i
          ensures Coef(p, j) == Coef(q, j)
        {
          if j < i {
            assert j <= i - 1;
          }
        }
      }
    }
  }

  lemma {:induction false} LessFromTransitive(p: Poly, q: Poly, r: Poly, i: nat)
    requires LessFrom(p, q, i) && LessFrom(q, r, i)
    ensures LessFrom(p, r, i)
  {
    if Coef(p, i) == Coef(q, i) && Coef(q, i) == Coef(r, i) {
      LessFromTransitive(p, q, r, i - 1);
    }
  }

  /** The order is strict and total, and its equivalence is `==`. */
  lemma LessTrichotomy(p: Poly, q: Poly)
    ensures !(Less(p, q) && Less(q, p))
    ensures !Less(p, q) && !Less(q, p) <==> Equals(p, q)
  {
    LessFromTrichotomy(p, q, Deg(p));
  }

  lemma LessTransitive(p: Poly, q: Poly, r: Poly)
    requires Less(p, q) && Less(q, r)
    ensures Less(p, r)
  {
    if Deg(p) == Deg(q) == Deg(r) {
      LessFromTransitive(p, q, r, Deg(p));
    }
  }

  // ----- construction -----

  /** `Polynomial(int)`: the single coefficient `mod(constant, Zp)`. */
  function FromConstant(c: int, zp: nat): (r: Poly)
    requires zp > 1
    ensures Deg(r) == 0 && Coef(r, 0) % zp == c % zp
    ensures Equals(r, Zero) <==> c >= 0 && c % zp == 0
  {
    [Mod(c, zp)]
  }

  /** A vector of n zero coefficients (`vec(n)`). */
  function Zeros(n: nat): (r: Poly)
    ensures |r| == n && forall i: nat :: Coef(r, i) == 0
  {
    seq(n, i => 0)
  }

  // ----- additive structure -----

  /** `operator+=`: over the shorter operand's length, `(a_i + b_i) % Zp`; the
      rest of the longer operand is copied unchanged. */
  function Add(a: Poly, b: Poly, zp: nat): (r: Poly)
    requires zp > 0
    ensures |r| == Max(|a|, |b|)
    ensures Reduced(a, zp) && Reduced(b, zp) ==> Reduced(r, zp)
  {
    seq(Max(|a|, |b|), i requires 0 <= i < Max(|a|, |b|) =>
      if i < |a| && i < |b| then (a[i] + b[i]) % zp
      else if i < |a| then a[i]
      else b[i])
  }

  lemma AddCoef(a: Poly, b: Poly, zp: nat, i: nat)
    requires zp > 0 && Reduced(a, zp) && Reduced(b, zp)
    ensures Coef(Add(a, b, zp), i) == (Coef(a, i) + Coef(b, i)) % zp
  {
    if i < |a| && !(i < |b|) {
      ModOfSmall(a[i], zp);
    } else if i < |b| && !(i < |a|) {
      ModOfSmall(b[i], zp);
    }
  }

  /** `operator*(int)`: k is reduced with `mod`; k = 0 gives Zero, k = 1 the
      polynomial itself, any other k multiplies each coefficient mod Zp. */
  function Scale(a: Poly, k: int, zp: nat): (r: Poly)
    requires zp > 1
    ensures Reduced(a, zp) ==> Reduced(r, zp)
  {
    var m := Mod(k, zp);
    if m == 0 then Zero
    else if m == 1 then a
    else seq(|a|, i requires 0 <= i < |a| => (a[i] * m) % zp)
  }

  lemma ScaleCoef(a: Poly, k: int, zp: nat, i: nat)
    requires zp > 1 && Reduced(a, zp)
    ensures Coef(Scale(a, k, zp), i) == (Coef(a, i) * k) % zp
  {
    var m := Mod(k, zp);
    var c := Coef(a, i);
    ModMulCongruent(m, k, c, zp);
    assert (m * c) % zp == (k * c) % zp;
    if m == 0 {
      assert Coef(Scale(a, k, zp), i) == 0;
    } else if m == 1 {
      ModOfSmall(c, zp);
    }
  }

  /** `negate()`: multiplication by -1, i.e. by Zp - 1. */
  function Negate(a: Poly, zp: nat): (r: Poly)
    requires zp > 1
    ensures Reduced(a, zp) ==> Reduced(r, zp)
  {
    Scale(a, -1, zp)
  }

  /** `operator-`: `a += b.negate()`. */
  function Sub(a: Poly, b: Poly, zp: nat): (r: Poly)
    requires zp > 1
    ensures Reduced(a, zp) && Reduced(b, zp) ==> Reduced(r, zp)
  {
    Add(a, Negate(b, zp), zp)
  }

  lemma SubCoef(a: Poly, b: Poly, zp: nat, i: nat)
    requires zp > 1 && Reduced(a, zp) && Reduced(b, zp)
    ensures Coef(Sub(a, b, zp), i) == (Coef(a, i) - Coef(b, i)) % zp
  {
    ScaleCoef(b, -1, zp, i);
    AddCoef(a, Negate(b, zp), zp, i);
    var x, y := Coef(a, i), Coef(b, i);
    ModIdempotent(y * -1, zp);
    ModAddCongruent(x, x, (y * -1) % zp, y * -1, zp);
  }

  // ----- shifts and single coefficients -----

  /** `shift(k)`: multiplication by x^k, k zeros put in front (no reduction). */
  function Shift(a: Poly, k: nat): (r: Poly)
    ensures k > 0 ==> |r| == |a| + k
    ensures forall zp :: zp > 0 && Reduced(a, zp) ==> Reduced(r, zp)
  {
    if k == 0 then a
    else seq(|a| + k, i requires 0 <= i < |a| + k => if i < k then 0 else a[i - k])
  }

  lemma ShiftCoef(a: Poly, k: nat, i: nat)
    ensures Coef(Shift(a, k), i) == if i < k then 0 else Coef(a, i - k)
  {
  }

  /** `shift_back(k)`: drops the k lowest coefficients; Zero when k > deg. */
  function ShiftBack(a: Poly, k: nat): (r: Poly)
    ensures forall zp :: Reduced(a, zp) && zp > 0 ==> Reduced(r, zp)
  {
    if k == 0 then a
    else if k > Deg(a) then Zero
    else seq(Deg(a) + 1 - k, i requires 0 <= i < Deg(a) + 1 - k => a[i + k])
  }

  lemma ShiftBackCoef(a: Poly, k: nat, i: nat)
    ensures Coef(ShiftBack(a, k), i) == Coef(a, i + k)
  {
    if k > 0 && k > Deg(a) {
      assert Coef(a, i + k) == 0;
    }
  }

  /** Shifting back undoes a shift. */
  lemma ShiftBackShift(a: Poly, k: nat)
    ensures Equals(ShiftBack(Shift(a, k), k), a)
  {
    forall i: nat
      ensures Coef(ShiftBack(Shift(a, k), k), i) == Coef(a, i)
    {
      ShiftBackCoef(Shift(a, k), k, i);
      ShiftCoef(a, k, i + k);
    }
    EqualsIffSame(ShiftBack(Shift(a, k), k), a);
  }

  /** `set(idx, value)`: coefficient idx becomes `mod(value, Zp)`. */
  function Set(a: Poly, idx: nat, value: int, zp: nat): (r: Poly)
    requires zp > 1 && idx < |a|
    ensures |r| == |a|
    ensures Coef(r, idx) % zp == value % zp
    ensures value >= 0 ==> Coef(r, idx) == value % zp
    ensures forall i: nat :: i != idx ==> Coef(r, i) == Coef(a, i)
    ensures Reduced(a, zp) && value >= 0 ==> Reduced(r, zp)
  {
    a[idx := Mod(value, zp)]
  }

  // ----- multiplication -----

  /** The loop of `operator*=`: starting from {0}, add `(a * b[idx]).shift(idx)`
      for every non-zero b[idx] with idx < n, in increasing idx. */
  function MulLoop(a: Poly, b: Poly, n: nat, zp: nat): (r: Poly)
    requires zp > 1 && n <= |b|
    ensures Reduced(a, zp) ==> Reduced(r, zp)
  {
    if n == 0 then Zero
    else
      var acc := MulLoop(a, b, n - 1, zp);
      if b[n - 1] != 0 then Add(acc, Shift(Scale(a, b[n - 1], zp), n - 1), zp) else acc
  }

  /** `operator*`: One on either side is a short-cut returning the other operand. */
  function Mul(a: Poly, b: Poly, zp: nat): (r: Poly)
    requires zp > 1
    ensures Reduced(a, zp) && Reduced(b, zp) ==> Reduced(r, zp)
  {
    if Equals(a, One) then b
    else if Equals(b, One) then a
    else MulLoop(a, b, |b|, zp)
  }

  /** `rpow`: the n-fold product, One for n = 0. */
  function Power(a: Poly, n: nat, zp: nat): (r: Poly)
    requires zp > 1
    ensures Reduced(a, zp) ==> Reduced(r, zp)
  {
    if n == 0 then One else Mul(Power(a, n - 1, zp), a, zp)
  }
}
