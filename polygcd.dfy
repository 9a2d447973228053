/** Euclid's algorithm on polynomials (`Gcd` in src/algebra/Polynomial.h) and
    the divisibility facts that make its result a common divisor. */
module PolyGcd {
  import opened Arith
  import opened Modular
  import opened Wrappers
  import opened Polynomials
  import opened PolyRing
  import opened PolyDivision

  /** d divides p: some reduced q has q * d = p. */
  ghost predicate DividesPoly(d: Poly, p: Poly, zp: nat)
    requires zp > 1
  {
    exists q: Poly :: Reduced(q, zp) && Same(Mul(q, d, zp), p)
  }

  // ----- ring facts used by the divisibility proofs -----

  lemma AddCongruent(a: Poly, a': Poly, b: Poly, b': Poly, zp: nat)
    requires zp > 1 && Reduced(a, zp) && Reduced(a', zp) && Reduced(b, zp) && Reduced(b', zp)
    requires Same(a, a') && Same(b, b')
    ensures Same(Add(a, b, zp), Add(a', b', zp))
  {
    forall i: nat
      ensures Coef(Add(a, b, zp), i) == Coef(Add(a', b', zp), i)
    {
      AddCoef(a, b, zp, i);
      AddCoef(a', b', zp, i);
    }
  }

  lemma MulZeroLeft(d: Poly, zp: nat)
    requires zp > 1 && Reduced(d, zp)
    ensures Same(Mul(Zero, d, zp), Zero)
  {
    assert Reduced(Zero, zp);
    assert forall i: nat :: Coef(Zero, i) == 0;
    forall k: nat
      ensures Coef(Mul(Zero, d, zp), k) == Coef(Zero, k)
    {
      CoefMul(Zero, d, zp, k);
      ConvZeros(Zero, d, k);
      assert Coef(Mul(Zero, d, zp), k) == 0 % zp;
    }
  }

  /** (x + y) * g = x * g + y * g. */
  lemma MulDistributesRight(x: Poly, y: Poly, g: Poly, zp: nat)
    requires zp > 1 && Reduced(x, zp) && Reduced(y, zp) && Reduced(g, zp)
    ensures Same(Mul(Add(x, y, zp), g, zp), Add(Mul(x, g, zp), Mul(y, g, zp), zp))
  {
    MulCommutes(Add(x, y, zp), g, zp);
    MulDistributes(g, x, y, zp);
    MulCommutes(g, x, zp);
    MulCommutes(g, y, zp);
    AddCongruent(Mul(g, x, zp), Mul(x, g, zp), Mul(g, y, zp), Mul(y, g, zp), zp);
  }

  // ----- divisibility -----

  lemma DividesSelf(a: Poly, zp: nat)
    requires zp > 1 && Reduced(a, zp)
    ensures DividesPoly(a, a, zp)
  {
    assert Mul(One, a, zp) == a;
    assert Reduced(One, zp);
  }

  lemma DividesZero(d: Poly, zp: nat)
    requires zp > 1 && Reduced(d, zp)
    ensures DividesPoly(d, Zero, zp)
  {
    MulZeroLeft(d, zp);
    assert Reduced(Zero, zp);
  }

  lemma OneDivides(p: Poly, zp: nat)
    requires zp > 1 && Reduced(p, zp)
    ensures DividesPoly(One, p, zp)
  {
    EqualsIffSame(p, One);
    assert Same(Mul(p, One, zp), p);
  }

  /** If g divides b and r, and q * b + r = a, then g divides a. */
  lemma DividesCombination(g: Poly, a: Poly, b: Poly, q: Poly, r: Poly, zp: nat)
    requires zp > 1 && Reduced(g, zp) && Reduced(b, zp) && Reduced(q, zp) && Reduced(r, zp)
    requires DividesPoly(g, b, zp) && DividesPoly(g, r, zp)
    requires Same(Add(Mul(q, b, zp), r, zp), a)
    ensures DividesPoly(g, a, zp)
  {
    var q1: Poly :| Reduced(q1, zp) && Same(Mul(q1, g, zp), b);
    var q2: Poly :| Reduced(q2, zp) && Same(Mul(q2, g, zp), r);
    var w := Add(Mul(q, q1, zp), q2, zp);
    CombinationWitness(g, b, q, q1, q2, r, zp);
    SameTrans(Mul(w, g, zp), Add(Mul(q, b, zp), r, zp), a);
  }

  lemma CombinationWitness(g: Poly, b: Poly, q: Poly, q1: Poly, q2: Poly, r: Poly, zp: nat)
    requires zp > 1 && Reduced(g, zp) && Reduced(b, zp) && Reduced(q, zp) && Reduced(r, zp)
    requires Reduced(q1, zp) && Reduced(q2, zp)
    requires Same(Mul(q1, g, zp), b) && Same(Mul(q2, g, zp), r)
    ensures Same(Mul(Add(Mul(q, q1, zp), q2, zp), g, zp), Add(Mul(q, b, zp), r, zp))
  {
    var qq1 := Mul(q, q1, zp);
    MulDistributesRight(qq1, q2, g, zp);
    MulAssociates(q, q1, g, zp);
    MulCongruent(q, q, Mul(q1, g, zp), b, zp);
    SameTrans(Mul(qq1, g, zp), Mul(q, Mul(q1, g, zp), zp), Mul(q, b, zp));
    AddCongruent(Mul(qq1, g, zp), Mul(q, b, zp), Mul(q2, g, zp), r, zp);
    SameTrans(Mul(Add(qq1, q2, zp), g, zp), Add(Mul(qq1, g, zp), Mul(q2, g, zp), zp), Add(Mul(q, b, zp), r, zp));
  }

  // ----- Gcd -----

  /** The remainder loop of `Gcd`: while b is not Zero, (a, b) becomes
      (b, a % b); a failing division fails the whole computation. */
  function GcdLoop(a: Poly, b: Poly, zp: nat): (res: Result<Poly>)
    requires zp > 1 && Reduced(a, zp) && Reduced(b, zp)
    ensures res.Ok? ==> Reduced(res.value, zp)
    ensures res.Err? ==> res.error == Unsolvable
    decreases Size(b)
  {
    if Equals(b, Zero) then Ok(a)
    else
      match Rem(a, b, zp)
      case Err(e) => Err(e)
      case Ok(r) => GcdLoop(b, r, zp)
  }

  /** `Gcd(p1, p2)`: minp is the smaller operand under the polynomial order.
      A Zero minp returns p2 (not the larger operand), a minp equal to One
      returns One, equal operands return minp; otherwise the remainder loop
      runs from (maxp, minp). The result is not made monic. */
  function Gcd(p1: Poly, p2: Poly, zp: nat): (res: Result<Poly>)
    requires zp > 1 && Reduced(p1, zp) && Reduced(p2, zp)
    ensures res.Ok? ==> Reduced(res.value, zp)
    ensures res.Err? ==> res.error == Unsolvable
  {
    var (minp, maxp) := if Less(p2, p1) then (p2, p1) else (p1, p2);
    if Equals(minp, Zero) then Ok(p2)
    else if Equals(minp, One) then Ok(One)
    else if Equals(minp, maxp) then Ok(minp)
    else GcdLoop(maxp, minp, zp)
  }

  /** Every result of the remainder loop divides both of its inputs. */
  lemma {:induction false} GcdLoopDivides(a: Poly, b: Poly, zp: nat)
    requires zp > 1 && Reduced(a, zp) && Reduced(b, zp)
    ensures GcdLoop(a, b, zp).Ok? ==>
              DividesPoly(GcdLoop(a, b, zp).value, a, zp) && DividesPoly(GcdLoop(a, b, zp).value, b, zp)
    decreases Size(b), 1
  {
    if Equals(b, Zero) {
      DividesSelf(a, zp);
      DividesZero(a, zp);
      EqualsIffSame(b, Zero);
      DividesSameTarget(a, Zero, b, zp);
    } else if Rem(a, b, zp).Ok? {
      GcdLoopDividesStep(a, b, Division(a, b, zp).value, zp);
    }
  }

  /** A round of the remainder loop: a common divisor of b and a % b
      divides a as well. */
  lemma {:induction false} GcdLoopDividesStep(a: Poly, b: Poly, d: (Poly, Poly), zp: nat)
    requires zp > 1 && Reduced(a, zp) && Reduced(b, zp) && !Equals(b, Zero)
    requires Division(a, b, zp) == Ok(d)
    ensures GcdLoop(a, b, zp).Ok? ==>
              DividesPoly(GcdLoop(a, b, zp).value, a, zp) && DividesPoly(GcdLoop(a, b, zp).value, b, zp)
    decreases Size(b), 0
  {
    var r := d.1;
    assert Rem(a, b, zp) == Ok(r);
    assert GcdLoop(a, b, zp) == GcdLoop(b, r, zp);
    GcdLoopDivides(b, r, zp);
    if GcdLoop(b, r, zp).Ok? {
      DivisionCorrect(a, b, zp);
      DividesCombination(GcdLoop(b, r, zp).value, a, b, d.0, r, zp);
    }
  }

  lemma DividesSameTarget(d: Poly, p: Poly, p': Poly, zp: nat)
    requires zp > 1 && DividesPoly(d, p, zp) && Same(p, p')
    ensures DividesPoly(d, p', zp)
  {
    var q: Poly :| Reduced(q, zp) && Same(Mul(q, d, zp), p);
    SameTrans(Mul(q, d, zp), p, p');
  }

  /** `Gcd` returns a common divisor of its operands, except when the second
      operand is Zero and the first is not: then it returns Zero. */
  lemma GcdDivides(p1: Poly, p2: Poly, zp: nat)
    requires zp > 1 && Reduced(p1, zp) && Reduced(p2, zp)
    ensures Gcd(p1, p2, zp).Ok? && !(Equals(p2, Zero) && !Equals(p1, Zero)) ==>
              DividesPoly(Gcd(p1, p2, zp).value, p1, zp) && DividesPoly(Gcd(p1, p2, zp).value, p2, zp)
  {
    var (minp, maxp) := if Less(p2, p1) then (p2, p1) else (p1, p2);
    EqualsIffSame(minp, Zero);
    EqualsIffSame(minp, One);
    EqualsIffSame(minp, maxp);
    EqualsIffSame(p1, Zero);
    EqualsIffSame(p2, Zero);
    if Equals(minp, Zero) {
      if !(Equals(p2, Zero) && !Equals(p1, Zero)) {
        assert Equals(p1, Zero);
        DividesSelf(p2, zp);
        DividesZero(p2, zp);
        DividesSameTarget(p2, Zero, p1, zp);
      }
    } else if Equals(minp, One) {
      OneDivides(p1, zp);
      OneDivides(p2, zp);
    } else if Equals(minp, maxp) {
      DividesSelf(minp, zp);
      DividesSameTarget(minp, minp, maxp, zp);
    } else {
      GcdLoopDivides(maxp, minp, zp);
    }
  }

  /** The Zero short-cuts: Gcd(Zero, p) = p, and Gcd(p, Zero) = Zero. The
      second holds because the model's order puts Zero below every other
      polynomial, so Zero becomes minp and the short-cut returns p2. */
  lemma GcdWithZero(p: Poly, zp: nat)
    requires zp > 1 && Reduced(p, zp)
    ensures Gcd(Zero, p, zp) == Ok(p)
    ensures Gcd(p, Zero, zp) == Ok(Zero)
  {
    LessTrichotomy(p, Zero);
  }

  /** Over a prime field every division succeeds, and so does `Gcd`. */
  lemma {:induction false} GcdLoopTotalModPrime(a: Poly, b: Poly, zp: nat)
    requires IsPrime(zp) && Reduced(a, zp) && Reduced(b, zp)
    ensures GcdLoop(a, b, zp).Ok?
    decreases Size(b)
  {
    if !Equals(b, Zero) {
      DivisionTotalModPrime(a, b, zp);
      GcdLoopTotalModPrime(b, Division(a, b, zp).value.1, zp);
    }
  }

  lemma GcdTotalModPrime(p1: Poly, p2: Poly, zp: nat)
    requires IsPrime(zp) && Reduced(p1, zp) && Reduced(p2, zp)
    ensures Gcd(p1, p2, zp).Ok?
  {
    var (minp, maxp) := if Less(p2, p1) then (p2, p1) else (p1, p2);
    GcdLoopTotalModPrime(maxp, minp, zp);
  }

  /** `Gcd` with its while-loop: `r = a.divide(b).second; a = b; b = r`. */
  method GcdMethod(p1: Poly, p2: Poly, zp: nat) returns (res: Result<Poly>)
    requires zp > 1 && Reduced(p1, zp) && Reduced(p2, zp)
    ensures res == Gcd(p1, p2, zp)
  {
    var minp, maxp := p1, p2;
    if Less(p2, p1) {
      minp, maxp := p2, p1;
    }
    if Equals(minp, Zero) {
      return Ok(p2);
    }
    if Equals(minp, One) {
      return Ok(One);
    }
    if Equals(minp, maxp) {
      return Ok(minp);
    }
    var a, b := maxp, minp;
    while !Equals(b, Zero)
      invariant Reduced(a, zp) && Reduced(b, zp)
      invariant GcdLoop(a, b, zp) == Gcd(p1, p2, zp)
      decreases Size(b)
    {
      var d := Divide(a, b, zp);
      if d.Err? {
        return Err(d.error);
      }
      a, b := b, d.value.1;
    }
    return Ok(a);
  }
}
