/** The irreducibility tests of src/algebra/GaloisFieldExtension.h:
    `RabinTest` and `TestIrreducibility`. */
module IrreducibilityTests {
  import opened Arith
  import Modular
  import opened Factoring
  import opened Wrappers
  import opened Sums
  import opened Polynomials
  import opened PolyDivision
  import opened PolyGcd
  import opened PolyInverse
  import opened PolySpecial
  import opened PolyEval
  import opened Primitivity

  // ----- RabinTest -----

  /** The round of the loop for divisor d: with e = deg / d,
      Gcd(poly, (x^(Zp^e) - x) mod poly) is One. */
  function GcdCheck(poly: Poly, deg: nat, d: nat, zp: nat): (r: Result<bool>)
    requires zp > 1 && Reduced(poly, zp) && d > 0
    ensures r.Err? ==> r.error in {DivisionByZero, Unsolvable}
  {
    QuotientAtMost(deg, d);
    var s :- SpecialPolyMod(deg / d, poly, zp);
    var g :- Gcd(poly, s, zp);
    Ok(Equals(g, One))
  }

  /** The check after the loop: (x^(Zp^e) - x) mod poly is Zero. */
  function FinalCheck(poly: Poly, e: nat, zp: nat): (r: Result<bool>)
    requires zp > 1 && Reduced(poly, zp)
    ensures r.Err? ==> r.error in {DivisionByZero, Unsolvable}
  {
    var s :- SpecialPolyMod(e, poly, zp);
    Ok(Equals(s, Zero))
  }

  /** The loop of `RabinTest` and the check after it: every listed d must
      pass `GcdCheck` with exponent deg / d, and then `FinalCheck` with deg.
      A failing division or Gcd fails the test. */
  function RabinFrom(poly: Poly, deg: nat, ds: seq<nat>, zp: nat): (r: Result<bool>)
    requires zp > 1 && Reduced(poly, zp) && Positive(ds)
    ensures r.Err? ==> r.error in {DivisionByZero, Unsolvable}
  {
    if ds == [] then FinalCheck(poly, deg, zp)
    else
      var pass :- GcdCheck(poly, deg, ds[0], zp);
      if !pass then Ok(false) else RabinFrom(poly, deg, ds[1..], zp)
  }

  /** `RabinTest(poly)`. Degree 0 factorizes 0, whose sentinel divisor 0
      makes deg / divisor a division by zero. */
  function Rabin(poly: Poly, zp: nat): (r: Result<bool>)
    requires zp > 1 && Reduced(poly, zp)
    ensures r.Err? ==> r.error in {DivisionByZero, Unsolvable}
  {
    if Deg(poly) == 0 then Err(DivisionByZero)
    else RabinFrom(poly, Deg(poly), FactorBases(Deg(poly)), zp)
  }

  method RabinTest(poly: Poly, zp: nat) returns (res: Result<bool>)
    requires zp > 1 && Reduced(poly, zp)
    ensures res == Rabin(poly, zp)
  {
    var deg := Deg(poly);
    if deg == 0 {
      return Err(DivisionByZero);
    }
    var divisors := Factorization(deg);
    ghost var ds := Bases(divisors);
    for k := 0 to |divisors|
      invariant RabinFrom(poly, deg, ds[k..], zp) == Rabin(poly, zp)
    {
      assert divisors[k].0 == ds[k] > 0;
      QuotientAtMost(deg, divisors[k].0);
      var nj := deg / divisors[k].0;
      assert ds[k..][0] == ds[k] && ds[k..][1..] == ds[k + 1..];
      var s :- SpecialPolyMod(nj, poly, zp);
      var g :- GcdMethod(poly, s, zp);
      assert GcdCheck(poly, deg, divisors[k].0, zp) == Ok(Equals(g, One));
      if !Equals(g, One) {
        return Ok(false);
      }
    }
    var s :- SpecialPolyMod(deg, poly, zp);
    return Ok(Equals(s, Zero));
  }

  /** Every listed d passes `GcdCheck`. */
  ghost predicate AllGcdsPass(poly: Poly, deg: nat, ds: seq<nat>, zp: nat)
    requires zp > 1 && Reduced(poly, zp) && Positive(ds)
  {
    forall j :: 0 <= j < |ds| ==> GcdCheck(poly, deg, ds[j], zp) == Ok(true)
  }

  lemma AllGcdsPassCons(poly: Poly, deg: nat, ds: seq<nat>, zp: nat)
    requires zp > 1 && Reduced(poly, zp) && Positive(ds) && ds != []
    ensures AllGcdsPass(poly, deg, ds, zp) <==>
              GcdCheck(poly, deg, ds[0], zp) == Ok(true) && AllGcdsPass(poly, deg, ds[1..], zp)
  {
    assert forall j :: 1 <= j < |ds| ==> ds[1..][j - 1] == ds[j];
  }

  /** The loop accepts exactly when every listed d passes the Gcd check and
      the final remainder vanishes. */
  lemma {:induction false} RabinFromAll(poly: Poly, deg: nat, ds: seq<nat>, zp: nat)
    requires zp > 1 && Reduced(poly, zp) && Positive(ds)
    ensures RabinFrom(poly, deg, ds, zp) == Ok(true) <==>
              AllGcdsPass(poly, deg, ds, zp) && FinalCheck(poly, deg, zp) == Ok(true)
    decreases |ds|
  {
    if ds != [] {
      RabinFromAll(poly, deg, ds[1..], zp);
      AllGcdsPassCons(poly, deg, ds, zp);
      RabinFromCons(poly, deg, ds, zp);
    }
  }

  lemma RabinFromCons(poly: Poly, deg: nat, ds: seq<nat>, zp: nat)
    requires zp > 1 && Reduced(poly, zp) && Positive(ds) && ds != []
    ensures RabinFrom(poly, deg, ds, zp) == Ok(true) <==>
              GcdCheck(poly, deg, ds[0], zp) == Ok(true) && RabinFrom(poly, deg, ds[1..], zp) == Ok(true)
  {
  }

  /** No prime q of deg leaves a common factor of poly and x^(Zp^(deg / q)) - x. */
  ghost predicate PrimeGcdsAreOne(poly: Poly, deg: nat, zp: nat)
    requires zp > 1 && Reduced(poly, zp)
  {
    forall q: nat :: Modular.IsPrime(q) && deg % q == 0 ==> GcdCheck(poly, deg, q, zp) == Ok(true)
  }

  /** Rabin's criterion as the test checks it: for deg(poly) >= 2 the test
      accepts exactly when every prime q of the degree passes the Gcd check
      and the remainder of x^(Zp^deg) - x vanishes. */
  lemma RabinMeaning(poly: Poly, zp: nat)
    requires zp > 1 && Reduced(poly, zp) && Deg(poly) >= 2
    ensures Rabin(poly, zp) == Ok(true) <==>
              PrimeGcdsAreOne(poly, Deg(poly), zp) && FinalCheck(poly, Deg(poly), zp) == Ok(true)
  {
    var deg := Deg(poly);
    var ds := FactorBases(deg);
    assert Rabin(poly, zp) == RabinFrom(poly, deg, ds, zp);
    RabinFromAll(poly, deg, ds, zp);
    FactorBasesMembers(deg, ds);
    if AllGcdsPass(poly, deg, ds, zp) {
      forall q: nat | Modular.IsPrime(q) && deg % q == 0
        ensures GcdCheck(poly, deg, q, zp) == Ok(true)
      {
        var j :| 0 <= j < |ds| && ds[j] == q;
      }
    }
    if PrimeGcdsAreOne(poly, deg, zp) {
      forall j | 0 <= j < |ds|
        ensures GcdCheck(poly, deg, ds[j], zp) == Ok(true)
      {
        assert ds[j] in ds;
      }
    }
  }

  /** x^(Zp^e) - x, whose roots are the elements of GF(Zp^e). */
  function FieldPoly(e: nat, zp: nat): (r: Poly)
    requires zp > 1
    ensures Reduced(r, zp)
  {
    PowPositive(zp, e);
    XPowMinusX(Pow(zp, e), zp)
  }

  /** A vanishing remainder means poly divides x^(Zp^e) - x. */
  lemma VanishingRemainderDivides(poly: Poly, e: nat, zp: nat)
    requires zp > 1 && Reduced(poly, zp) && e > 0 && FinalCheck(poly, e, zp) == Ok(true)
    ensures DividesPoly(poly, FieldPoly(e, zp), zp)
  {
    SpecialPolyModCorrect(e, poly, zp);
    var r := SpecialPolyMod(e, poly, zp).value;
    var n := FieldPoly(e, zp);
    var q: Poly :| Congruent(q, r, n, poly, zp);
    EqualsIffSame(r, Zero);
    AddZero(Mul(q, poly, zp), r, zp);
    SameTrans(Mul(q, poly, zp), Add(Mul(q, poly, zp), r, zp), n);
  }

  /** Over a prime Zp the test fails only for degree 0. */
  lemma RabinTotalModPrime(poly: Poly, zp: nat)
    requires Modular.IsPrime(zp) && Reduced(poly, zp)
    ensures Rabin(poly, zp).Err? <==> Deg(poly) == 0
  {
    if Deg(poly) > 0 {
      EqualsZero(poly);
      assert Coef(poly, Deg(poly)) != 0;
      var deg := Deg(poly);
      RabinFromTotal(poly, deg, FactorBases(deg), zp);
    }
  }

  lemma {:induction false} RabinFromTotal(poly: Poly, deg: nat, ds: seq<nat>, zp: nat)
    requires Modular.IsPrime(zp) && Reduced(poly, zp) && !Equals(poly, Zero) && Positive(ds)
    ensures RabinFrom(poly, deg, ds, zp).Ok?
    decreases |ds|
  {
    if ds == [] {
      SpecialPolyModTotal(deg, poly, zp);
    } else {
      QuotientAtMost(deg, ds[0]);
      var e := deg / ds[0];
      SpecialPolyModTotal(e, poly, zp);
      GcdTotalModPrime(poly, SpecialPolyMod(e, poly, zp).value, zp);
      assert GcdCheck(poly, deg, ds[0], zp).Ok?;
      RabinFromTotal(poly, deg, ds[1..], zp);
    }
  }

  /** Over a prime Zp a non-zero modulus always divides. */
  lemma SpecialPolyModTotal(e: nat, poly: Poly, zp: nat)
    requires Modular.IsPrime(zp) && Reduced(poly, zp) && !Equals(poly, Zero)
    ensures SpecialPolyMod(e, poly, zp).Ok?
  {
    PowPositive(zp, e);
    DivisionTotalModPrime(SpecialPoly(Pow(zp, e), zp), poly, zp);
  }

  // ----- TestIrreducibility -----

  /** Some x in [0, Zp) is a root of poly. */
  ghost predicate HasRoot(poly: Poly, zp: nat)
    requires zp > 1
  {
    exists x: nat :: x < zp && EvalSpec(poly, x, zp) == 0
  }

  /** `TestIrreducibility(poly)`: degree 1 passes, a root in Z_p fails,
      degrees 2 and 3 (and 0) then pass, and higher degrees go to `RabinTest`. */
  ghost function Irreducibility(poly: Poly, zp: nat): (r: Result<bool>)
    requires zp > 1 && Reduced(poly, zp)
    ensures r.Err? ==> r.error in {DivisionByZero, Unsolvable}
  {
    if Deg(poly) == 1 then Ok(true)
    else if HasRoot(poly, zp) then Ok(false)
    else if Deg(poly) <= 3 then Ok(true)
    else Rabin(poly, zp)
  }

  method TestIrreducibility(poly: Poly, zp: nat) returns (res: Result<bool>)
    requires zp > 1 && Reduced(poly, zp)
    ensures res == Irreducibility(poly, zp)
  {
    var deg := Deg(poly);
    if deg == 1 {
      return Ok(true);
    }
    for x := 0 to zp
      invariant forall y: nat :: y < x ==> EvalSpec(poly, y, zp) != 0
    {
      var v := Eval(poly, x, zp);
      ModOfSmall(x, zp);
      ModOfSmall(Modular.Mod(x, zp), zp);
      if v == 0 {
        assert HasRoot(poly, zp);
        return Ok(false);
      }
    }
    assert !HasRoot(poly, zp);
    if deg <= 3 {
      return Ok(true);
    }
    res := RabinTest(poly, zp);
  }

  /** Zero has the root 0, so it is reported reducible. */
  lemma ZeroIsReducible(poly: Poly, zp: nat)
    requires zp > 1 && Reduced(poly, zp) && Equals(poly, Zero)
    ensures Irreducibility(poly, zp) == Ok(false)
  {
    EqualsZero(poly);
    var f := EvalTerm(poly, 0);
    forall i: nat | 0 <= i < |poly|
      ensures f(i) == 0
    {
      assert Coef(poly, i) == 0;
    }
    SumZeroTail(0, |poly|, f);
    assert EvalSpec(poly, 0, zp) == 0;
  }

  /** A non-zero constant has no root, so it is reported irreducible. */
  lemma ConstantIsIrreducible(poly: Poly, zp: nat)
    requires zp > 1 && Reduced(poly, zp) && !Equals(poly, Zero) && Deg(poly) == 0
    ensures Irreducibility(poly, zp) == Ok(true)
  {
    EqualsZero(poly);
    var c := Coef(poly, 0);
    assert c != 0;
    forall x: nat | x < zp
      ensures EvalSpec(poly, x, zp) != 0
    {
      var f := EvalTerm(poly, x);
      forall i: nat | i < |poly| && i != 0
        ensures f(i) == 0
      {
        assert Coef(poly, i) == 0;
      }
      SumSingle(|poly|, f, 0);
      assert f(0) == c;
      ModOfSmall(c, zp);
    }
  }

  /** Over a prime Zp the test always reaches a verdict. */
  lemma IrreducibilityTotalModPrime(poly: Poly, zp: nat)
    requires Modular.IsPrime(zp) && Reduced(poly, zp)
    ensures Irreducibility(poly, zp).Ok?
  {
    RabinTotalModPrime(poly, zp);
  }

  /** An accepted polynomial of degree at least 4 divides x^(Zp^deg) - x. */
  lemma AcceptedDividesFrobenius(poly: Poly, zp: nat)
    requires zp > 1 && Reduced(poly, zp) && Deg(poly) >= 4 && Irreducibility(poly, zp) == Ok(true)
    ensures DividesPoly(poly, FieldPoly(Deg(poly), zp), zp)
  {
    RabinMeaning(poly, zp);
    VanishingRemainderDivides(poly, Deg(poly), zp);
  }
}
