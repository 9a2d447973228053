/** Evaluation at a point and the formal derivative (`eval` and `derivative`
    in src/algebra/Polynomial.h). */
module PolyEval {
  import opened Arith
  import opened Modular
  import opened Polynomials
  import opened Sums

  /** The term c_i * x^i of the evaluation sum. */
  ghost function EvalTerm(p: Poly, x: int): nat -> int
  {
    (i: nat) => Coef(p, i) * Pow(x, i)
  }

  /** The value of p at x in Z_p: the sum of c_i * x^i over the stored
      coefficients, reduced mod Zp. */
  ghost function EvalSpec(p: Poly, x: int, zp: nat): int
    requires zp > 0
  {
    Sum(|p|, EvalTerm(p, x)) % zp
  }

  /** Stored trailing zeros add nothing to the sum. */
  lemma EvalLength(p: Poly, x: int, n: nat)
    requires n >= |p|
    ensures Sum(n, EvalTerm(p, x)) == Sum(|p|, EvalTerm(p, x))
  {
    var f := EvalTerm(p, x);
    forall i: nat | |p| <= i < n
      ensures f(i) == 0
    {
    }
    SumZeroTail(|p|, n, f);
  }

  /** `eval(x)`: x is first reduced with `mod`; each non-zero coefficient adds
      `powmod(x, i) * c_i` to the running residue. */
  method Eval(p: Poly, x: int, zp: nat) returns (res: nat)
    requires zp > 1
    ensures res < zp && res == EvalSpec(p, Mod(x, zp), zp)
  {
    var xv := Mod(x, zp);
    res := 0;
    var i := 0;
    while i < |p|
      invariant i <= |p| && res < zp
      invariant res == Sum(i, EvalTerm(p, xv)) % zp
    {
      var c := p[i];
      if c != 0 {
        var pm := PowMod(xv, i, zp);
        EvalStep(Sum(i, EvalTerm(p, xv)), pm, Pow(xv, i), c, zp);
        res := (res + pm * c) % zp;
      } else {
        MulZero(Pow(xv, i));
      }
      i := i + 1;
    }
  }

  lemma MulZero(y: int)
    ensures 0 * y == 0
  {
  }

  /** Adding c * powmod to the residue of S adds c * x^i to S. */
  lemma EvalStep(S: int, pm: int, P: int, c: int, zp: nat)
    requires zp > 0 && pm % zp == P % zp
    ensures (S % zp + pm * c) % zp == (S + c * P) % zp
  {
    ModMulCongruent(pm, P, c, zp);
    ModIdempotent(S, zp);
    ModAddCongruent(S % zp, S, pm * c, P * c, zp);
    assert P * c == c * P;
  }

  /** Evaluation is additive: (a + b)(x) = a(x) + b(x). */
  lemma EvalAdd(a: Poly, b: Poly, x: int, zp: nat)
    requires zp > 1 && Reduced(a, zp) && Reduced(b, zp)
    ensures EvalSpec(Add(a, b, zp), x, zp) == (EvalSpec(a, x, zp) + EvalSpec(b, x, zp)) % zp
  {
    var s := Add(a, b, zp);
    var n := |s|;
    var fa, fb, fs := EvalTerm(a, x), EvalTerm(b, x), EvalTerm(s, x);
    var g := (i: nat) => fa(i) + fb(i);
    forall i: nat | i < n
      ensures fs(i) % zp == g(i) % zp
    {
      EvalAddAt(a, b, x, zp, i);
    }
    SumCongruent(n, fs, g, zp);
    SumAdd(n, fa, fb, g);
    EvalLength(a, x, n);
    EvalLength(b, x, n);
    ModAdd(Sum(|a|, fa), Sum(|b|, fb), zp);
  }

  lemma EvalAddAt(a: Poly, b: Poly, x: int, zp: nat, i: nat)
    requires zp > 1 && Reduced(a, zp) && Reduced(b, zp)
    ensures EvalTerm(Add(a, b, zp), x)(i) % zp == (EvalTerm(a, x)(i) + EvalTerm(b, x)(i)) % zp
  {
    var ca, cb, cs, p := Coef(a, i), Coef(b, i), Coef(Add(a, b, zp), i), Pow(x, i);
    AddCoef(a, b, zp, i);
    ModIdempotent(ca + cb, zp);
    ModMulCongruent(cs, ca + cb, p, zp);
    assert (ca + cb) * p == ca * p + cb * p;
  }

  /** Equal polynomials take equal values, whatever their stored lengths. */
  lemma EvalSame(a: Poly, b: Poly, x: int, zp: nat)
    requires zp > 1 && Same(a, b)
    ensures EvalSpec(a, x, zp) == EvalSpec(b, x, zp)
  {
    var n := Max(|a|, |b|);
    EvalLength(a, x, n);
    EvalLength(b, x, n);
    SumExt(n, EvalTerm(a, x), EvalTerm(b, x));
  }

  /** Shifting by k multiplies the value by x^k. */
  lemma EvalShift(a: Poly, k: nat, x: int, zp: nat)
    requires zp > 1
    ensures EvalSpec(Shift(a, k), x, zp) == (Pow(x, k) * Sum(|a|, EvalTerm(a, x))) % zp
  {
    var s := Shift(a, k);
    var fa, fs := EvalTerm(a, x), EvalTerm(s, x);
    var h := ScaledTerm(a, k, x);
    var g := ShiftedTerm(a, k, x);
    forall i: nat | i < k
      ensures fs(i) == 0
    {
      ShiftCoef(a, k, i);
    }
    forall d: nat
      ensures g(d) == h(d)
    {
      EvalShiftAt(a, k, x, d);
    }
    SumSkip(k, |a|, fs, g);
    SumExt(|a|, g, h);
    SumScale(|a|, fa, Pow(x, k), h);
    EvalLength(s, x, |a| + k);
  }

  /** The terms of Shift(a, k) from index k on. */
  ghost function ShiftedTerm(a: Poly, k: nat, x: int): (g: nat -> int)
    ensures forall d: nat :: g(d) == EvalTerm(Shift(a, k), x)(d + k)
  {
    (d: nat) => EvalTerm(Shift(a, k), x)(d + k)
  }

  /** The terms of a scaled by x^k. */
  ghost function ScaledTerm(a: Poly, k: nat, x: int): (h: nat -> int)
    ensures forall i: nat :: h(i) == Pow(x, k) * EvalTerm(a, x)(i)
  {
    (i: nat) => Pow(x, k) * EvalTerm(a, x)(i)
  }

  lemma EvalShiftAt(a: Poly, k: nat, x: int, d: nat)
    ensures ShiftedTerm(a, k, x)(d) == ScaledTerm(a, k, x)(d)
  {
    ShiftCoef(a, k, d + k);
    PowAdd(x, d, k);
    Rearrange(Coef(a, d), Pow(x, d), Pow(x, k));
  }

  lemma Rearrange(c: int, pd: int, pk: int)
    ensures c * (pd * pk) == pk * (c * pd)
  {
  }

  /** A sum whose first k terms vanish is the sum of the rest. */
  lemma {:induction false} SumSkip(k: nat, m: nat, f: nat -> int, g: nat -> int)
    requires forall i: nat :: i < k ==> f(i) == 0
    requires forall d: nat :: g(d) == f(d + k)
    ensures Sum(k + m, f) == Sum(m, g)
  {
    if m == 0 {
      SumZeroTail(0, k, f);
    } else {
      SumSkip(k, m - 1, f, g);
    }
  }

  // ----- derivative -----

  /** Coefficient i of the derivative: (i + 1) * c_(i+1) mod Zp. */
  function DerivCoef(a: Poly, i: nat, zp: nat): nat
    requires zp > 1
  {
    (Coef(a, i + 1) * (i + 1)) % zp
  }

  /** The formal derivative, stored over the length of `shift_back(1)`. */
  function Derivative(a: Poly, zp: nat): (r: Poly)
    requires zp > 1
    ensures |r| == |ShiftBack(a, 1)| && |r| > 0 && Reduced(r, zp)
    ensures forall i: nat :: Coef(r, i) == DerivCoef(a, i, zp)
  {
    ShiftBackLength(a);
    var n := |ShiftBack(a, 1)|;
    var r := seq(n, i requires 0 <= i < n => DerivCoef(a, i, zp));
    assert forall i: nat :: Coef(r, i) == DerivCoef(a, i, zp) by {
      forall i: nat
        ensures Coef(r, i) == DerivCoef(a, i, zp)
      {
        if i >= n {
          DerivCoefBeyond(a, i, zp);
        }
      }
    }
    r
  }

  lemma ShiftBackLength(a: Poly)
    ensures |ShiftBack(a, 1)| > 0 && |ShiftBack(a, 1)| >= Deg(a)
  {
  }

  lemma DerivCoefBeyond(a: Poly, i: nat, zp: nat)
    requires zp > 1 && i >= |ShiftBack(a, 1)|
    ensures DerivCoef(a, i, zp) == 0
  {
    ShiftBackLength(a);
    var c := Coef(a, i + 1);
    assert c == 0;
    assert c * (i + 1) == 0;
  }

  /** `derivative()`: starts from `shift_back(1)` and, from its degree down to
      0, sets coefficient i to `res[i] * (i + 1)`. */
  method DerivativeLoop(a: Poly, zp: nat) returns (res: Poly)
    requires zp > 1 && Reduced(a, zp)
    ensures res == Derivative(a, zp)
  {
    var sb := ShiftBack(a, 1);
    ShiftBackLength(a);
    res := sb;
    var i := Deg(res) + 1;
    while i > 0
      invariant i <= Deg(sb) + 1 && |res| == |sb|
      invariant forall j: nat :: j < i ==> Coef(res, j) == Coef(sb, j)
      invariant forall j: nat :: j >= i ==> Coef(res, j) == DerivCoef(a, j, zp)
    {
      i := i - 1;
      ShiftBackCoef(a, 1, i);
      res := Set(res, i, res[i] * (i + 1), zp);
    }
    DerivativeAbove(a, sb, zp);
    SameDerivative(res, a, zp);
  }

  /** Above the degree of shift_back(1) the stored coefficients already are the derivative's. */
  lemma DerivativeAbove(a: Poly, sb: Poly, zp: nat)
    requires zp > 1 && sb == ShiftBack(a, 1)
    ensures forall j: nat :: j > Deg(sb) ==> Coef(sb, j) == DerivCoef(a, j, zp)
  {
    forall j: nat | j > Deg(sb)
      ensures Coef(sb, j) == DerivCoef(a, j, zp)
    {
      ShiftBackCoef(a, 1, j);
      var c := Coef(a, j + 1);
      assert c == 0;
      assert c * (j + 1) == 0;
    }
  }

  lemma SameDerivative(res: Poly, a: Poly, zp: nat)
    requires zp > 1 && |res| == |ShiftBack(a, 1)|
    requires forall j: nat :: Coef(res, j) == DerivCoef(a, j, zp)
    ensures res == Derivative(a, zp)
  {
    var d := Derivative(a, zp);
    forall j | 0 <= j < |res|
      ensures res[j] == d[j]
    {
      assert Coef(res, j) == Coef(d, j);
    }
  }

  /** The derivative is additive. */
  lemma DerivativeAdd(a: Poly, b: Poly, zp: nat)
    requires zp > 1 && Reduced(a, zp) && Reduced(b, zp)
    ensures Same(Derivative(Add(a, b, zp), zp), Add(Derivative(a, zp), Derivative(b, zp), zp))
  {
    forall i: nat
      ensures Coef(Derivative(Add(a, b, zp), zp), i) == Coef(Add(Derivative(a, zp), Derivative(b, zp), zp), i)
    {
      AddCoef(Derivative(a, zp), Derivative(b, zp), zp, i);
      DerivCoefAdd(a, b, zp, i);
    }
  }

  lemma DerivCoefAdd(a: Poly, b: Poly, zp: nat, i: nat)
    requires zp > 1 && Reduced(a, zp) && Reduced(b, zp)
    ensures DerivCoef(Add(a, b, zp), i, zp) == (DerivCoef(a, i, zp) + DerivCoef(b, i, zp)) % zp
  {
    var x, y, m := Coef(a, i + 1), Coef(b, i + 1), i + 1;
    AddCoef(a, b, zp, i + 1);
    ModIdempotent(x + y, zp);
    ModMulCongruent((x + y) % zp, x + y, m, zp);
    assert (x + y) * m == x * m + y * m;
    ModAdd(x * m, y * m, zp);
  }

  /** (x^n)' = n * x^(n-1): the derivative of a monomial. */
  lemma DerivativeMonomial(n: nat, zp: nat)
    requires zp > 1 && n > 0
    ensures Same(Derivative(Shift(One, n), zp), Shift([n % zp], n - 1))
  {
    forall i: nat
      ensures Coef(Derivative(Shift(One, n), zp), i) == Coef(Shift([n % zp], n - 1), i)
    {
      DerivMonomialAt(n, zp, i);
    }
  }

  lemma DerivMonomialAt(n: nat, zp: nat, i: nat)
    requires zp > 1 && n > 0
    ensures DerivCoef(Shift(One, n), i, zp) == Coef(Shift([n % zp], n - 1), i)
  {
    ShiftCoef(One, n, i + 1);
    ShiftCoef([n % zp], n - 1, i);
    var c := Coef(Shift(One, n), i + 1);
    if i + 1 == n {
      assert c == 1;
    } else {
      assert c == 0;
      assert c * (i + 1) == 0;
    }
  }
}
