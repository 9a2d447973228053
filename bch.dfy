/** The BCH code of src/codes/impl/BCHCode.h: the generator loop of
    `MakeGenerator(field)`, the designed distance, the checking polynomial
    that is never set, and the static assertion on the template arguments. */
module BchCodes {
  import opened Arith
  import Modular
  import opened Factoring
  import opened Wrappers
  import opened Polynomials
  import opened PolyDivision
  import opened PolyGcd
  import opened GaloisField
  import opened GaloisOps

  // ----- cpow and the static assertion -----

  /** `utils::cpow(a, n, res)`: multiply res by a and halve n until n < 1. */
  function Cpow(a: nat, n: nat, res: nat): nat
    decreases n
  {
    if n < 1 then res else Cpow(a, n / 2, res * a)
  }

  /** The number of binary digits of n; 0 has none. */
  function BitLength(n: nat): nat
  {
    if n == 0 then 0 else 1 + BitLength(n / 2)
  }

  /** Since n is halved rather than decremented, `cpow(a, n)` is a raised to
      the bit length of n, not to n: cpow(2, 4) is 8. */
  lemma {:induction false} CpowIsBitLengthPower(a: nat, n: nat, res: nat)
    ensures Cpow(a, n, res) == res * Pow(a, BitLength(n))
    decreases n
  {
    if n > 0 {
      CpowIsBitLengthPower(a, n / 2, res * a);
      var k := BitLength(n / 2);
      assert BitLength(n) == k + 1;
      var p := Pow(a, k);
      assert Pow(a, k + 1) == p * a;
      Regroup(res, a, p);
    }
  }

  lemma Regroup(x: int, y: int, z: int)
    ensures x * y * z == x * (z * y)
  {
  }

  /** The static assertion of the class template: MinErrors must stay below
      half of cpow(Q, QPower) - 1. Q is the field's prime, at least 2. */
  predicate DistanceFits(q: nat, qPower: nat, minErrors: nat)
    requires q > 1
  {
    minErrors < (Cpow(q, qPower, 1) - 1) / 2
  }

  /** Under the static assertion the designed distance 2 * MinErrors stays
      below cpow(Q, QPower) - 1. */
  lemma DistanceBelowBlock(q: nat, qPower: nat, minErrors: nat)
    requires q > 1 && DistanceFits(q, qPower, minErrors)
    ensures Distance(minErrors) < Cpow(q, qPower, 1) - 1
  {
    var b := Cpow(q, qPower, 1) - 1;
    assert b / 2 * 2 <= b;
  }

  /** The default template arguments Q = 2, QPower = 2, MinErrors =
      cpow(2, 1) - 1 = 1 fail the assertion (1 < 3 / 2 is false), while the
      instance BCHCode<2, 4, 2> passes it (2 < 7 / 2). */
  lemma TemplateArguments()
    ensures Cpow(2, 1, 1) - 1 == 1 && !DistanceFits(2, 2, 1)
    ensures Cpow(2, 4, 1) == 8 && DistanceFits(2, 4, 2)
  {
    CpowIsBitLengthPower(2, 1, 1);
    CpowIsBitLengthPower(2, 2, 1);
    CpowIsBitLengthPower(2, 4, 1);
    assert BitLength(4) == 3 by {
      assert BitLength(1) == 1;
      assert BitLength(2) == 2;
    }
    assert Pow(2, 3) == 8;
  }

  // ----- the generator loop -----

  /** `distance()`: twice the number of errors the code is built to correct,
      which is also the number of minimal polynomials the generator loop
      takes. */
  function Distance(minErrors: nat): (d: nat)
    ensures d % 2 == 0 && d / 2 == minErrors
  {
    2 * minErrors
  }

  /** A successful `FindMinimalPolynomial` gives a reduced polynomial. */
  lemma MinimalReduced(f: Field, i: nat, zp: nat)
    requires zp > 1 && AllReduced(f.elements, zp) && i < MOrder(f)
    ensures MinimalPolynomialOf(f, i, zp).Ok? ==> Reduced(MinimalPolynomialOf(f, i, zp).value, zp)
  {
    AdjointsListed(i, MOrder(f), zp, 1, MOrder(f));
  }

  /** Every successful result in the list is a reduced polynomial. */
  predicate ResultsReduced(ms: seq<Result<Poly>>, zp: nat)
  {
    forall j :: 0 <= j < |ms| ==> ms[j].Ok? ==> Reduced(ms[j].value, zp)
  }

  /** The results of `FindMinimalPolynomial(j)` for j from i to n - 1, in
      order. */
  function Minimals(f: Field, i: nat, n: nat, zp: nat): (ms: seq<Result<Poly>>)
    requires zp > 1 && AllReduced(f.elements, zp) && i <= n <= MOrder(f)
    ensures |ms| == n - i && ResultsReduced(ms, zp)
    ensures forall j :: 0 <= j < |ms| ==> ms[j] == MinimalPolynomialOf(f, i + j, zp)
    decreases n - i
  {
    if i == n then []
    else
      MinimalReduced(f, i, zp);
      [MinimalPolynomialOf(f, i, zp)] + Minimals(f, i + 1, n, zp)
  }

  /** One turn of the loop: `gen_poly *= min; gen_poly /= min.Gcd(min, gen_poly)`.
      The gcd is taken after the multiplication, of m and g * m. */
  function Round(g: Poly, m: Poly, zp: nat): (res: Result<Poly>)
    requires zp > 1 && Reduced(g, zp) && Reduced(m, zp)
    ensures res.Ok? ==> Reduced(res.value, zp)
  {
    var gm := Mul(g, m, zp);
    var d :- Gcd(m, gm, zp);
    Quot(gm, d, zp)
  }

  /** The loop of `MakeGenerator(field)` over the minimal polynomials still
      to come, with g the polynomial built so far; the first failure of a
      minimal polynomial, a gcd or a division ends it. */
  function Rounds(ms: seq<Result<Poly>>, g: Poly, zp: nat): (res: Result<Poly>)
    requires zp > 1 && ResultsReduced(ms, zp) && Reduced(g, zp)
    ensures res.Ok? ==> Reduced(res.value, zp)
  {
    if |ms| == 0 then Ok(g)
    else
      var m :- ms[0];
      var g' :- Round(g, m, zp);
      Rounds(ms[1..], g', zp)
  }

  /** `MakeGenerator(field)`: from One, the minimal polynomials of indices
      0 to 2 * MinErrors - 1. Every index read must lie in the table. */
  function Generator(f: Field, minErrors: nat, zp: nat): (res: Result<Poly>)
    requires zp > 1 && AllReduced(f.elements, zp) && Distance(minErrors) <= MOrder(f)
  {
    Rounds(Minimals(f, 0, Distance(minErrors), zp), One, zp)
  }

  /** `MakeGenerator(field)`, with its for-loop updating gen_poly in place. */
  method MakeGenerator(f: Field, minErrors: nat, zp: nat) returns (res: Result<Poly>)
    requires zp > 1 && AllReduced(f.elements, zp) && Distance(minErrors) <= MOrder(f)
    ensures res == Generator(f, minErrors, zp)
  {
    var genPoly := One;
    var n := 2 * minErrors;
    for i := 0 to n
      invariant Reduced(genPoly, zp)
      invariant Rounds(Minimals(f, i, n, zp), genPoly, zp) == Generator(f, minErrors, zp)
    {
      ghost var ms := Minimals(f, i, n, zp);
      assert ms[1..] == Minimals(f, i + 1, n, zp);
      MinimalReduced(f, i, zp);
      var min :- FindMinimalPolynomial(f, i, zp);
      genPoly := Mul(genPoly, min, zp);
      var d :- GcdMethod(min, genPoly, zp);
      var qr :- Divide(genPoly, d, zp);
      genPoly := qr.0;
    }
    return Ok(genPoly);
  }

  // ----- what the loop computes -----

  /** Over a prime field, dividing a non-zero polynomial by one with the same
      coefficients gives One: the single step solves lc * c = lc with c = 1
      and leaves a zero remainder. */
  lemma QuotOfSame(m: Poly, p: Poly, zp: nat)
    requires Modular.IsPrime(zp) && Reduced(m, zp) && Reduced(p, zp) && Same(m, p) && !Equals(p, Zero)
    ensures Quot(m, p, zp) == Ok(One)
  {
    SameDeg(m, p);
    EqualsIffSame(m, Zero);
    EqualsIffSame(p, Zero);
    var lc := Coef(p, Deg(p));
    SolveStep(p, m, zp);
    Modular.SolvableModPrime(lc, lc, zp);
    var c := Modular.Solve(lc, lc, zp).x;
    UnitSolution(lc, c, zp);
    var q0 := Zeros(Deg(m) - Deg(p) + 1);
    DivisionUnfold(m, p, zp, q0);
    DivStepsUnfold(p, q0, m, c, zp);
    var next := PolyDivision.Step(p, q0, m, c, zp);
    assert next.0 == One by {
      ModOfSmall(1, zp);
      ModOfSmall(Modular.Mod(1, zp), zp);
    }
    SubOfSame(m, p, zp);
    assert next.1 == Sub(m, p, zp);
  }

  /** Over a prime, the only residue c with lc * c = lc (lc not zero) is 1. */
  lemma UnitSolution(lc: nat, c: nat, zp: nat)
    requires Modular.IsPrime(zp) && lc < zp && lc % zp != 0 && c < zp && (lc * c) % zp == lc
    ensures c == 1
  {
    ModOfSmall(lc, zp);
    DifferenceOfCongruent(lc * c, lc, zp);
    assert lc * c - lc == lc * (c - 1);
    assert c != 0;
    PrimeDividesFactor(zp, lc, c - 1);
    ModOfSmall(c - 1, zp);
  }

  /** m - p vanishes when m and p have the same coefficients. */
  lemma SubOfSame(m: Poly, p: Poly, zp: nat)
    requires zp > 1 && Reduced(m, zp) && Reduced(p, zp) && Same(m, p)
    ensures Equals(Sub(m, p, zp), Zero)
  {
    var d := Sub(m, p, zp);
    forall i: nat
      ensures Coef(d, i) == 0
    {
      SubOfSameAt(m, p, zp, i);
    }
    EqualsZero(d);
  }

  lemma SubOfSameAt(m: Poly, p: Poly, zp: nat, i: nat)
    requires zp > 1 && Reduced(m, zp) && Reduced(p, zp) && Coef(m, i) == Coef(p, i)
    ensures Coef(Sub(m, p, zp), i) == 0
  {
    SubCoef(m, p, zp, i);
    var x := Coef(m, i);
    assert (x - x) % zp == 0;
  }

  /** From g = One, a non-zero m leaves g = One over a prime field: g * m is
      m itself, Gcd(m, m) is m (or One when m is One), and the division
      gives One. The loop never builds a product of minimal polynomials. */
  lemma RoundOfOne(m: Poly, zp: nat)
    requires Modular.IsPrime(zp) && Reduced(m, zp) && !Equals(m, Zero)
    ensures Round(One, m, zp) == Ok(One)
  {
    assert Mul(One, m, zp) == m;
    assert !Less(m, m) by {
      LessTrichotomy(m, m);
    }
    if Equals(m, One) {
      assert Gcd(m, m, zp) == Ok(One);
      EqualsIffSame(m, One);
      assert !Equals(One, Zero) by {
        assert Coef(One, 0) != Coef(Zero, 0);
        EqualsIffSame(One, Zero);
      }
      QuotOfSame(m, One, zp);
    } else {
      assert Gcd(m, m, zp) == Ok(m);
      QuotOfSame(m, m, zp);
    }
  }

  /** A Zero minimal polynomial makes the loop throw: Gcd(Zero, Zero) is
      Zero, and dividing by it fails. */
  lemma RoundOfZero(g: Poly, m: Poly, zp: nat)
    requires zp > 1 && Reduced(g, zp) && Reduced(m, zp) && Equals(m, Zero) && g == One
    ensures Round(g, m, zp) == Err(DivisionByZero)
  {
    assert Mul(One, m, zp) == m;
    assert !Less(m, m) by {
      LessTrichotomy(m, m);
    }
    assert Gcd(m, m, zp) == Ok(m);
  }

  /** Every listed minimal polynomial exists and is not Zero. */
  predicate AllNonZero(ms: seq<Result<Poly>>)
  {
    forall j :: 0 <= j < |ms| ==> ms[j].Ok? && !Equals(ms[j].value, Zero)
  }

  /** Over a prime field the loop from One succeeds exactly when every
      minimal polynomial exists and is not Zero, and then it returns One;
      the first Zero one, after non-Zero ones, makes it throw
      DivisionByZero. */
  lemma {:induction false} RoundsFromOne(ms: seq<Result<Poly>>, zp: nat)
    requires Modular.IsPrime(zp) && ResultsReduced(ms, zp)
    ensures Rounds(ms, One, zp).Ok? <==> AllNonZero(ms)
    ensures Rounds(ms, One, zp).Ok? ==> Rounds(ms, One, zp).value == One
    ensures forall k :: 0 <= k < |ms| && AllNonZero(ms[..k]) && ms[k].Ok? && Equals(ms[k].value, Zero) ==>
              Rounds(ms, One, zp) == Err(DivisionByZero)
  {
    if |ms| > 0 {
      RoundsFromOneStep(ms, zp);
      RoundsFromOne(ms[1..], zp);
      forall k | 0 < k < |ms|
        ensures ms[..k][1..] == ms[1..][..k - 1]
      {
      }
    }
  }

  /** What the head of the list does to the loop from One. */
  lemma RoundsFromOneStep(ms: seq<Result<Poly>>, zp: nat)
    requires Modular.IsPrime(zp) && ResultsReduced(ms, zp) && |ms| > 0
    ensures ms[0].Ok? && !Equals(ms[0].value, Zero) ==> Rounds(ms, One, zp) == Rounds(ms[1..], One, zp)
    ensures ms[0].Err? ==> Rounds(ms, One, zp) == Err(ms[0].error)
    ensures ms[0].Ok? && Equals(ms[0].value, Zero) ==> Rounds(ms, One, zp) == Err(DivisionByZero)
  {
    if ms[0].Ok? {
      if Equals(ms[0].value, Zero) {
        RoundOfZero(One, ms[0].value, zp);
      } else {
        RoundOfOne(ms[0].value, zp);
      }
    }
  }

  /** The minimal polynomial of index j exists and is not Zero. */
  predicate NonZeroAt(f: Field, j: nat, zp: nat)
    requires zp > 1 && AllReduced(f.elements, zp) && j < MOrder(f)
  {
    MinimalPolynomialOf(f, j, zp).Ok? && !Equals(MinimalPolynomialOf(f, j, zp).value, Zero)
  }

  /** The list the loop reads is all non-Zero exactly when every index is. */
  lemma MinimalsNonZero(f: Field, n: nat, zp: nat)
    requires zp > 1 && AllReduced(f.elements, zp) && n <= MOrder(f)
    ensures AllNonZero(Minimals(f, 0, n, zp)) <==> forall j :: 0 <= j < n ==> NonZeroAt(f, j, zp)
  {
    var ms := Minimals(f, 0, n, zp);
    forall j | 0 <= j < n
      ensures ms[j].Ok? && !Equals(ms[j].value, Zero) <==> NonZeroAt(f, j, zp)
    {
      assert ms[j] == MinimalPolynomialOf(f, 0 + j, zp);
    }
  }

  /** Over a prime field `MakeGenerator(field)` returns One when every minimal
      polynomial it reads exists and is non-Zero, and fails otherwise. */
  lemma GeneratorIsOne(f: Field, minErrors: nat, zp: nat)
    requires Modular.IsPrime(zp) && AllReduced(f.elements, zp) && Distance(minErrors) <= MOrder(f)
    ensures Generator(f, minErrors, zp).Ok? <==> forall j :: 0 <= j < Distance(minErrors) ==> NonZeroAt(f, j, zp)
    ensures Generator(f, minErrors, zp).Ok? ==> Generator(f, minErrors, zp).value == One
  {
    RoundsFromOne(Minimals(f, 0, Distance(minErrors), zp), zp);
    MinimalsNonZero(f, Distance(minErrors), zp);
  }

  /** The minimal polynomial of index 0 (the element One, which has no
      adjoints) is X - 1, which is not Zero. */
  lemma MinimalPolynomialOfZeroIndex(f: Field, zp: nat)
    requires zp > 1 && AllReduced(f.elements, zp) && MOrder(f) > 0 && f.elements[0] == One
    ensures MinimalPolynomialOf(f, 0, zp).Ok?
    ensures !Equals(MinimalPolynomialOf(f, 0, zp).value, Zero)
  {
    AdjointsOfZero(f, zp);
    var mp := MinimalPolynomialOf(f, 0, zp).value;
    assert [0] + [] == [0];
    assert [0][..0] == [];
    assert LinearProduct(f, [0], zp) == Mul(One, Linear(One, zp), zp);
    assert mp == Linear(One, zp);
    SubCoef(X, One, zp, 1);
    assert Coef(mp, 1) == 1;
    EqualsZero(mp);
  }

  /** On a field built from the default primitive element X over a factor of
      degree above 1, `MakeGenerator(field)` with MinErrors >= 1 throws
      DivisionByZero: index 0 gives X - 1, and the minimal polynomial of
      index 1 is Zero. */
  lemma DefaultPrimitiveGenerator(f: Field, minErrors: nat, zp: nat)
    requires Modular.IsPrime(zp) && Built(f, zp) && f.generator == X && Deg(f.factor) > 1
    requires AllReduced(f.elements, zp) && minErrors >= 1 && Distance(minErrors) <= MOrder(f)
    requires MinimalPolynomialOf(f, 1, zp).Ok?
    ensures Generator(f, minErrors, zp) == Err(DivisionByZero)
  {
    BuiltField(f, zp);
    MinimalPolynomialOfZeroIndex(f, zp);
    var mp := MinimalPolynomialOf(f, 1, zp).value;
    MinimalPolynomialOfDefaultPrimitive(f, zp, mp);
    EqualsIffSame(mp, Zero);
    var ms := Minimals(f, 0, Distance(minErrors), zp);
    RoundsFromOne(ms, zp);
    assert AllNonZero(ms[..1]);
    assert ms[1] == MinimalPolynomialOf(f, 1, zp);
  }

  // ----- the code object -----

  /** A BCHCode: the generator g_, the checking polynomial h_ and the flag
      got_h_ that says whether h_ was computed. */
  class BchCode {
    const q: nat
    const qPower: nat
    const minErrors: nat
    var g: Poly
    var h: Poly
    var gotH: bool

    /** What every code object satisfies: got_h_ starts false and nothing
        sets it. */
    predicate Valid()
      reads this
    {
      !gotH
    }

    /** The constructor with the field passed in (the source builds it from
        random polynomials): the template arguments Q = Zp, QPower and
        MinErrors must pass the class's static assertion; g_ is
        `MakeGenerator(field)` and got_h_ is false. */
    constructor (f: Field, qPower: nat, minErrors: nat, gen: Poly, zp: nat)
      requires zp > 1 && DistanceFits(zp, qPower, minErrors)
      requires AllReduced(f.elements, zp) && Distance(minErrors) <= MOrder(f)
      requires Generator(f, minErrors, zp) == Ok(gen)
      ensures q == zp && this.qPower == qPower && this.minErrors == minErrors && g == gen && Valid()
    {
      q := zp;
      this.qPower := qPower;
      this.minErrors := minErrors;
      g := gen;
      h := Zero;
      gotH := false;
    }

    /** `getChecking()`: h_ once it has been computed, "Not implemented"
        before. */
    function GetChecking(): (res: Result<Poly>)
      reads this
      ensures res.Ok? <==> gotH
      ensures res.Ok? ==> res.value == h
      ensures res.Err? ==> res.error == NotImplemented
    {
      if gotH then Ok(h) else Err(NotImplemented)
    }
  }

  /** `getChecking()` throws on every code object. */
  lemma CheckingNotImplemented(c: BchCode)
    requires c.Valid()
    ensures c.GetChecking() == Err(NotImplemented)
  {
  }

  /** A code is made by running `MakeGenerator(field)` first; a failure of
      the loop is the constructor's exception. */
  method NewBchCode(f: Field, qPower: nat, minErrors: nat, zp: nat) returns (res: Result<BchCode>)
    requires zp > 1 && DistanceFits(zp, qPower, minErrors)
    requires AllReduced(f.elements, zp) && Distance(minErrors) <= MOrder(f)
    ensures res.Ok? ==> fresh(res.value) && res.value.Valid() && Generator(f, minErrors, zp) == Ok(res.value.g)
    ensures res.Ok? ==> res.value.q == zp && res.value.qPower == qPower && res.value.minErrors == minErrors
    ensures res.Err? <==> Generator(f, minErrors, zp).Err?
  {
    var gen :- MakeGenerator(f, minErrors, zp);
    var code := new BchCode(f, qPower, minErrors, gen, zp);
    return Ok(code);
  }
}
