/** `SpecialPolyMod(n, f)` of src/algebra/Polynomial.h: the polynomial
    x^(Zp^n) - x built from an int vector, reduced modulo f. Rabin's
    irreducibility test uses it. */
module PolySpecial {
  import opened Arith
  import opened Modular
  import opened Wrappers
  import opened Polynomials
  import opened PolyDivision

  /** The int vector: deg + 1 entries, 1 at index deg, then -1 written at
      index 1 (which overwrites the 1 when deg = 1). */
  function SpecialVector(deg: nat): (v: seq<int>)
    requires deg >= 1
    ensures |v| == deg + 1
  {
    seq(deg + 1, i requires 0 <= i <= deg => if i == 1 then -1 else if i == deg then 1 else 0)
  }

  /** x^d - x. */
  function XPowMinusX(d: nat, zp: nat): (r: Poly)
    requires zp > 1
    ensures Reduced(r, zp)
  {
    assert Reduced(One, zp) && Reduced(X, zp);
    Sub(Shift(One, d), X, zp)
  }

  /** r is n modulo p: n = q * p + r for some q, and r is Zero or of lower
      degree than p. */
  ghost predicate RemainderOf(r: Poly, n: Poly, p: Poly, zp: nat)
    requires zp > 1
  {
    (exists q: Poly :: Congruent(q, r, n, p, zp)) &&
    (Equals(r, Zero) || Deg(r) < Deg(p))
  }

  /** q * p + r = n: r is n minus the multiple q * p of p. */
  ghost predicate Congruent(q: Poly, r: Poly, n: Poly, p: Poly, zp: nat)
    requires zp > 1
  {
    Reduced(q, zp) && Same(Add(Mul(q, p, zp), r, zp), n)
  }

  /** The coefficients of the normalised vector: Zp - 1 at 1, 1 at deg > 1. */
  function SpecialCoef(d: nat, i: nat, zp: nat): nat
    requires zp > 1
  {
    if i == 1 then zp - 1 else if i == d then 1 else 0
  }

  lemma MinusOne(zp: nat)
    requires zp > 1
    ensures Mod(-1, zp) == zp - 1 && (0 - 1) % zp == zp - 1 && (1 * -1) % zp == zp - 1
  {
    NegativeResidue(-1, zp);
    ModOfSmall(1, zp);
    ModOfSmall(zp - 1, zp);
  }

  lemma NormalizedCoefAt(d: nat, zp: nat, i: nat)
    requires zp > 1 && d >= 1
    ensures Coef(Normalize(SpecialVector(d), zp), i) == SpecialCoef(d, i, zp)
  {
    if i <= d {
      var e := SpecialVector(d)[i];
      assert Coef(Normalize(SpecialVector(d), zp), i) == Mod(e, zp);
      if i == 1 {
        MinusOne(zp);
      } else if i == d {
        assert e == 1;
        ModOfSmall(1, zp);
      } else {
        assert e == 0;
      }
    }
  }

  lemma XPowCoefAt(d: nat, zp: nat, i: nat)
    requires zp > 1 && d > 1
    ensures Coef(XPowMinusX(d, zp), i) == SpecialCoef(d, i, zp)
  {
    assert Reduced(One, zp) && Reduced(X, zp);
    SubCoef(Shift(One, d), X, zp, i);
    ShiftCoef(One, d, i);
    MinusOne(zp);
    ModOfSmall(1, zp);
    ModOfSmall(0, zp);
  }

  lemma NegXCoefAt(zp: nat, i: nat)
    requires zp > 1
    ensures Coef(Negate(X, zp), i) == SpecialCoef(1, i, zp)
  {
    assert Reduced(X, zp);
    ScaleCoef(X, -1, zp, i);
    MinusOne(zp);
  }

  /** The normalised vector is reduced and denotes x^deg - x for deg > 1,
      and -x for deg = 1. */
  lemma SpecialVectorValue(d: nat, zp: nat)
    requires zp > 1 && d >= 1
    ensures Reduced(Normalize(SpecialVector(d), zp), zp)
    ensures d > 1 ==> Same(Normalize(SpecialVector(d), zp), XPowMinusX(d, zp))
    ensures d == 1 ==> Same(Normalize(SpecialVector(d), zp), Negate(X, zp))
  {
    var v := Normalize(SpecialVector(d), zp);
    forall i | 0 <= i < |v|
      ensures v[i] < zp
    {
      NormalizedCoefAt(d, zp, i);
    }
    if d > 1 {
      forall i: nat
        ensures Coef(v, i) == Coef(XPowMinusX(d, zp), i)
      {
        NormalizedCoefAt(d, zp, i);
        XPowCoefAt(d, zp, i);
      }
    } else {
      forall i: nat
        ensures Coef(v, i) == Coef(Negate(X, zp), i)
      {
        NormalizedCoefAt(d, zp, i);
        NegXCoefAt(zp, i);
      }
    }
  }

  /** `Polynomial(polynomial)` for the special vector of length deg + 1. */
  function SpecialPoly(d: nat, zp: nat): (v: Poly)
    requires zp > 1 && d >= 1
    ensures Reduced(v, zp)
    ensures d > 1 ==> Same(v, XPowMinusX(d, zp))
    ensures d == 1 ==> Same(v, Negate(X, zp))
  {
    SpecialVectorValue(d, zp);
    Normalize(SpecialVector(d), zp)
  }

  /** `SpecialPolyMod(n, modpoly)`: deg = Zp^n, and the remainder of the
      special polynomial on division by modpoly. */
  function SpecialPolyMod(n: nat, modpoly: Poly, zp: nat): (res: Result<Poly>)
    requires zp > 1 && Reduced(modpoly, zp)
    ensures res.Ok? ==> Reduced(res.value, zp)
  {
    PowPositive(zp, n);
    Rem(SpecialPoly(Pow(zp, n), zp), modpoly, zp)
  }

  lemma PowAboveOne(zp: nat, n: nat)
    requires zp > 1 && n > 0
    ensures Pow(zp, n) > 1
  {
    PowPositive(zp, n - 1);
    MulMono(Pow(zp, n - 1), 1, zp);
  }

  /** A remainder of v is one of every polynomial equal to v. */
  lemma RemainderOfSame(v: Poly, t: Poly, p: Poly, zp: nat)
    requires zp > 1 && Reduced(v, zp) && Reduced(p, zp) && Division(v, p, zp).Ok? && Same(v, t)
    ensures RemainderOf(Division(v, p, zp).value.1, t, p, zp)
  {
    DivisionCorrect(v, p, zp);
    var qr := Division(v, p, zp).value;
    SameTrans(Add(Mul(qr.0, p, zp), qr.1, zp), v, t);
    assert Congruent(qr.0, qr.1, t, p, zp);
  }

  /** DivisionByZero exactly for a Zero modulus; a division step with no
      solution gives Unsolvable, which over a prime Zp never happens, so
      there the result exists for every non-zero modulus. The result is
      (x^(Zp^n) - x) mod modpoly for n > 0, and (-x) mod modpoly for n = 0. */
  lemma SpecialPolyModCorrect(n: nat, modpoly: Poly, zp: nat)
    requires zp > 1 && Reduced(modpoly, zp)
    ensures SpecialPolyMod(n, modpoly, zp) == Err(DivisionByZero) <==> Equals(modpoly, Zero)
    ensures SpecialPolyMod(n, modpoly, zp).Err? ==> SpecialPolyMod(n, modpoly, zp).error in {DivisionByZero, Unsolvable}
    ensures IsPrime(zp) && !Equals(modpoly, Zero) ==> SpecialPolyMod(n, modpoly, zp).Ok?
    ensures SpecialPolyMod(n, modpoly, zp).Ok? && n > 0 ==>
              RemainderOf(SpecialPolyMod(n, modpoly, zp).value, XPowMinusX(Pow(zp, n), zp), modpoly, zp)
    ensures SpecialPolyMod(n, modpoly, zp).Ok? && n == 0 ==>
              RemainderOf(SpecialPolyMod(n, modpoly, zp).value, Negate(X, zp), modpoly, zp)
  {
    PowPositive(zp, n);
    var d := Pow(zp, n);
    var v := SpecialPoly(d, zp);
    var r := SpecialPolyMod(n, modpoly, zp);
    assert r == Rem(v, modpoly, zp);
    DivisionCorrect(v, modpoly, zp);
    if Division(v, modpoly, zp).Ok? {
      assert r == Ok(Division(v, modpoly, zp).value.1);
      if n > 0 {
        PowAboveOne(zp, n);
        RemainderOfSame(v, XPowMinusX(d, zp), modpoly, zp);
      } else {
        RemainderOfSame(v, Negate(X, zp), modpoly, zp);
      }
    } else {
      assert r == Err(Division(v, modpoly, zp).error);
      if IsPrime(zp) && !Equals(modpoly, Zero) {
        DivisionTotalModPrime(v, modpoly, zp);
      }
    }
  }
}
