/** The read-only operations of a built field in
    src/algebra/GaloisFieldExtension.h: `order`, `m_order`, `operator[]`,
    the discrete logarithm `log_alpha`, the index orbits of
    `GetAdjointElements` and the product of `FindMinimalPolynomial`. */
module GaloisOps {
  import opened Arith
  import opened Wrappers
  import opened Polynomials
  import opened PolyRing
  import opened PolyDivision
  import opened PolyGcd
  import opened PolySpecial
  import opened PolyPower
  import opened GaloisField

  /** A field value as `BuildMultGroup` returns it. */
  ghost predicate Built(f: Field, zp: nat)
  {
    zp > 1 && Reduced(f.factor, zp) && Reduced(f.generator, zp) &&
    FieldOf(f.factor, f.generator, zp) == Ok(f)
  }

  /** `m_order()`: the number of table entries. */
  function MOrder(f: Field): nat
  {
    |f.elements|
  }

  /** `order()`: one more than `m_order()`, counting Zero. */
  function Order(f: Field): nat
  {
    MOrder(f) + 1
  }

  /** `operator[]`: the element of the given power (the source reads past
      the table for larger indices; the model demands a valid index). */
  function Element(f: Field, i: nat): Poly
    requires i < MOrder(f)
  {
    f.elements[i]
  }

  /** What a built field holds, for a factor of positive degree: Zero is
      counted in `order()` besides the `m_order()` table entries; entry 0 is
      One and entry i is the remainder of generator^i; the entries are
      pairwise different (so One appears once) and generator^m_order leaves
      remainder One. */
  lemma BuiltField(f: Field, zp: nat)
    requires Built(f, zp) && Deg(f.factor) > 0
    ensures Order(f) == MOrder(f) + 1 && MOrder(f) > 0 && Element(f, 0) == One
    ensures forall i :: 0 <= i < MOrder(f) ==>
              Reduced(Element(f, i), zp) && RemainderOf(Element(f, i), Power(f.generator, i, zp), f.factor, zp)
    ensures forall j, k :: 0 <= j < k < MOrder(f) ==> !Equals(Element(f, j), Element(f, k))
    ensures RemainderOf(One, Power(f.generator, MOrder(f), zp), f.factor, zp)
  {
    MultGroupPowers(f.factor, f.generator, zp);
    MultGroupDistinct(f.factor, f.generator, zp);
  }

  /** Every entry of a built field has degree below the factor's. */
  lemma ElementDegree(f: Field, zp: nat, i: nat)
    requires Built(f, zp) && Deg(f.factor) > 0 && i < MOrder(f)
    ensures Reduced(Element(f, i), zp) && Deg(Element(f, i)) < Deg(f.factor)
  {
    BuiltField(f, zp);
    assert RemainderOf(Element(f, i), Power(f.generator, i, zp), f.factor, zp);
    if Equals(Element(f, i), Zero) {
      assert Deg(Zero) == 0;
    }
  }

  // ----- log_alpha -----

  /** The scan of `log_alpha` from index i: the first entry equal to r. */
  function FindFrom(es: seq<Poly>, r: Poly, i: nat): (res: Result<nat>)
    requires i <= |es|
    ensures res.Ok? ==> i <= res.value < |es| && Equals(r, es[res.value])
    ensures res.Ok? ==> forall j :: i <= j < res.value ==> !Equals(r, es[j])
    ensures res.Err? ==> res.error == NotFound && forall j :: i <= j < |es| ==> !Equals(r, es[j])
    decreases |es| - i
  {
    if i == |es| then Err(NotFound)
    else if Equals(r, es[i]) then Ok(i)
    else FindFrom(es, r, i + 1)
  }

  /** `log_alpha(poly)`: the first power whose entry equals poly mod factor. */
  function LogAlphaOf(f: Field, poly: Poly, zp: nat): (res: Result<nat>)
    requires zp > 1 && Reduced(poly, zp) && Reduced(f.factor, zp)
  {
    var r :- Rem(poly, f.factor, zp);
    FindFrom(f.elements, r, 0)
  }

  /** `log_alpha`: reduce, then scan the table in order; a miss throws. */
  method LogAlpha(f: Field, poly: Poly, zp: nat) returns (res: Result<nat>)
    requires zp > 1 && Reduced(poly, zp) && Reduced(f.factor, zp)
    ensures res == LogAlphaOf(f, poly, zp)
  {
    var remainder :- Divide(poly, f.factor, zp);
    var r := remainder.1;
    for i := 0 to |f.elements|
      invariant FindFrom(f.elements, r, i) == FindFrom(f.elements, r, 0)
    {
      if Equals(r, f.elements[i]) {
        return Ok(i);
      }
    }
    return Err(NotFound);
  }

  /** A polynomial of lower degree than a non-zero divisor is its own remainder. */
  lemma RemOfSmall(n: Poly, p: Poly, zp: nat)
    requires zp > 1 && Reduced(n, zp) && Reduced(p, zp) && Deg(n) < Deg(p)
    ensures Rem(n, p, zp) == Ok(n)
  {
    assert !Equals(p, Zero) by {
      assert Deg(Zero) == 0;
    }
  }

  /** The logarithm of the i-th entry of a built field is i: the entry is
      its own remainder and no earlier entry equals it. */
  lemma LogAlphaOfElement(f: Field, zp: nat, i: nat)
    requires Built(f, zp) && Deg(f.factor) > 0 && i < MOrder(f)
    ensures LogAlphaOf(f, Element(f, i), zp) == Ok(i)
  {
    BuiltField(f, zp);
    ElementDegree(f, zp, i);
    RemOfSmall(Element(f, i), f.factor, zp);
    var res := FindFrom(f.elements, Element(f, i), 0);
    if res.Ok? && res.value != i {
      if res.value < i {
        EqualsSymmetric(Element(f, i), Element(f, res.value));
      }
      assert false;
    }
  }

  lemma EqualsSymmetric(p: Poly, q: Poly)
    ensures Equals(p, q) ==> Equals(q, p)
  {
  }

  // ----- GetAdjointElements -----

  /** The k-th adjoint index of i: i * Zp^k mod m_order. */
  function Adjoint(i: nat, k: nat, m: nat, zp: nat): (r: nat)
    requires m > 0
    ensures r < m
  {
    (i * Pow(zp, k)) % m
  }

  /** The do/while of `GetAdjointElements` from power Zp^k on: the adjoints
      up to the first return to i, which ends the loop and is not listed.
      After `fuel` rounds without a return the model gives up. */
  function AdjointsFrom(i: nat, m: nat, zp: nat, k: nat, fuel: nat): (res: Result<seq<nat>>)
    requires m > 0
    ensures res.Err? ==> res.error == Diverges
    decreases fuel
  {
    if fuel == 0 then Err(Diverges)
    else if Adjoint(i, k, m, zp) == i then Ok([])
    else
      var rest :- AdjointsFrom(i, m, zp, k + 1, fuel - 1);
      Ok([Adjoint(i, k, m, zp)] + rest)
  }

  /** The listed indices are i * Zp^(k + j) mod m_order in order, none of
      them i, and the next one is i again. */
  lemma {:induction false} AdjointsListed(i: nat, m: nat, zp: nat, k: nat, fuel: nat)
    requires m > 0
    ensures AdjointsFrom(i, m, zp, k, fuel).Ok? ==>
              var es := AdjointsFrom(i, m, zp, k, fuel).value;
              (forall j :: 0 <= j < |es| ==> es[j] == Adjoint(i, k + j, m, zp) && es[j] != i && es[j] < m) &&
              Adjoint(i, k + |es|, m, zp) == i
    decreases fuel
  {
    if fuel > 0 && Adjoint(i, k, m, zp) != i {
      AdjointsListed(i, m, zp, k + 1, fuel - 1);
    }
  }

  /** `GetAdjointElements(i)`: starting from Zp^1, at most m_order rounds. */
  function Adjoints(f: Field, i: nat, zp: nat): (res: Result<seq<nat>>)
    requires MOrder(f) > 0
  {
    AdjointsFrom(i, MOrder(f), zp, 1, MOrder(f))
  }

  /** xs followed by the list in r, or r's failure. */
  function Then(xs: seq<nat>, r: Result<seq<nat>>): Result<seq<nat>>
  {
    match r
    case Ok(ys) => Ok(xs + ys)
    case Err(e) => Err(e)
  }

  /** `GetAdjointElements`: power runs over Zp, Zp^2, ... (unbounded here);
      each (i * power) % m_order other than i is listed, and the loop stops
      at the first return to i. */
  method GetAdjointElements(f: Field, elemIndex: nat, zp: nat) returns (res: Result<seq<nat>>)
    requires MOrder(f) > 0
    ensures res == Adjoints(f, elemIndex, zp)
  {
    var indexes: seq<nat> := [];
    var power: nat := 1;
    var multOrder := MOrder(f);
    var fuel := multOrder;
    ghost var k := 0;
    ghost var all := Adjoints(f, elemIndex, zp);
    if all.Ok? {
      assert [] + all.value == all.value;
    }
    while fuel > 0
      invariant power == Pow(zp, k)
      invariant Then(indexes, AdjointsFrom(elemIndex, multOrder, zp, k + 1, fuel)) == Adjoints(f, elemIndex, zp)
    {
      AdjointRound(indexes, elemIndex, multOrder, zp, k + 1, fuel);
      power := power * zp;
      k := k + 1;
      var last := (elemIndex * power) % multOrder;
      if last == elemIndex {
        return Ok(indexes);
      }
      indexes := indexes + [last];
      fuel := fuel - 1;
    }
    return Err(Diverges);
  }

  /** One round of the loop, as AdjointsFrom takes it. */
  lemma AdjointRound(xs: seq<nat>, i: nat, m: nat, zp: nat, k: nat, fuel: nat)
    requires m > 0 && fuel > 0
    ensures Adjoint(i, k, m, zp) == i ==> Then(xs, AdjointsFrom(i, m, zp, k, fuel)) == Ok(xs)
    ensures Adjoint(i, k, m, zp) != i ==>
              Then(xs, AdjointsFrom(i, m, zp, k, fuel)) ==
              Then(xs + [Adjoint(i, k, m, zp)], AdjointsFrom(i, m, zp, k + 1, fuel - 1))
  {
    assert xs + [] == xs;
    var r := AdjointsFrom(i, m, zp, k + 1, fuel - 1);
    if r.Ok? {
      assert xs + ([Adjoint(i, k, m, zp)] + r.value) == xs + [Adjoint(i, k, m, zp)] + r.value;
    }
  }

  /** Index 0 has no adjoints: 0 * Zp mod m_order is 0 again. */
  lemma AdjointsOfZero(f: Field, zp: nat)
    requires MOrder(f) > 0
    ensures Adjoints(f, 0, zp) == Ok([])
  {
    assert Adjoint(0, 1, MOrder(f), zp) == 0;
  }

  /** Each adjoint is the one before it times Zp, mod m_order. */
  lemma AdjointStep(i: nat, k: nat, m: nat, zp: nat)
    requires m > 0
    ensures Adjoint(i, k + 1, m, zp) == (Adjoint(i, k, m, zp) * zp) % m
  {
    var x := i * Pow(zp, k);
    ModIdempotent(x, m);
    ModMulCongruent(x, x % m, zp, m);
    MulAssoc(i, Pow(zp, k), zp);
  }

  /** Two equal adjoints are followed by equal adjoints. */
  lemma {:induction false} AdjointsRepeat(i: nat, m: nat, zp: nat, s: nat, t: nat, j: nat)
    requires m > 0 && Adjoint(i, s, m, zp) == Adjoint(i, t, m, zp)
    ensures Adjoint(i, s + j, m, zp) == Adjoint(i, t + j, m, zp)
    decreases j
  {
    if j > 0 {
      AdjointsRepeat(i, m, zp, s, t, j - 1);
      AdjointStep(i, s + (j - 1), m, zp);
      AdjointStep(i, t + (j - 1), m, zp);
    }
  }

  /** A return to i after some k >= 1 steps is matched by one within m_order
      steps: among k > m_order adjoints two agree (pigeonhole), and the orbit
      repeats from there on, so it reaches i sooner. */
  lemma {:induction false} EarlyReturn(i: nat, m: nat, zp: nat, k: nat) returns (k': nat)
    requires m > 0 && k >= 1 && Adjoint(i, k, m, zp) == i
    ensures 1 <= k' <= m && Adjoint(i, k', m, zp) == i
    decreases k
  {
    if k <= m {
      return k;
    }
    var orbit := seq(k, j requires 0 <= j => Adjoint(i, j + 1, m, zp));
    var p, q := Pigeonhole(orbit, m);
    AdjointsRepeat(i, m, zp, p + 1, q + 1, k - (q + 1));
    assert q + 1 + (k - (q + 1)) == k;
    k' := EarlyReturn(i, m, zp, p + 1 + (k - (q + 1)));
  }

  /** A Diverges outcome lists no return within the fuel. */
  lemma {:induction false} DivergesFrom(i: nat, m: nat, zp: nat, k: nat, fuel: nat)
    requires m > 0 && AdjointsFrom(i, m, zp, k, fuel) == Err(Diverges)
    ensures forall j :: k <= j < k + fuel ==> Adjoint(i, j, m, zp) != i
    decreases fuel
  {
    if fuel > 0 {
      DivergesFrom(i, m, zp, k + 1, fuel - 1);
    }
  }

  /** The m_order bound of GetAdjointElements only cuts off loops that never
      end: when it runs out, no power i * Zp^k mod m_order with k >= 1 is i
      again, so the source's do/while would go on forever. */
  lemma AdjointsDivergeForever(f: Field, i: nat, zp: nat)
    requires MOrder(f) > 0
    ensures Adjoints(f, i, zp) == Err(Diverges) ==>
              forall k :: k >= 1 ==> Adjoint(i, k, MOrder(f), zp) != i
  {
    if Adjoints(f, i, zp) == Err(Diverges) {
      DivergesFrom(i, MOrder(f), zp, 1, MOrder(f));
      forall k | k >= 1
        ensures Adjoint(i, k, MOrder(f), zp) != i
      {
        if Adjoint(i, k, MOrder(f), zp) == i {
          var k' := EarlyReturn(i, MOrder(f), zp, k);
        }
      }
    }
  }

  // ----- FindMinimalPolynomial -----

  /** `Poly::X - e`: a difference in Zp[x], the element read as a polynomial
      in the same indeterminate as X. */
  function Linear(e: Poly, zp: nat): (r: Poly)
    requires zp > 1 && Reduced(e, zp)
    ensures Reduced(r, zp)
  {
    Sub(X, e, zp)
  }

  predicate ValidIndices(f: Field, idxs: seq<nat>)
  {
    forall j :: 0 <= j < |idxs| ==> idxs[j] < |f.elements|
  }

  /** The running product of `FindMinimalPolynomial`: One times X - e for
      every listed index, left to right. */
  function LinearProduct(f: Field, idxs: seq<nat>, zp: nat): (r: Poly)
    requires zp > 1 && AllReduced(f.elements, zp) && ValidIndices(f, idxs)
    ensures Reduced(r, zp)
  {
    if |idxs| == 0 then One
    else Mul(LinearProduct(f, idxs[..|idxs| - 1], zp), Linear(f.elements[idxs[|idxs| - 1]], zp), zp)
  }

  /** `FindMinimalPolynomial(i)`: (X - elements[i]) times X - elements[a] for
      every adjoint a of i. */
  function MinimalPolynomialOf(f: Field, i: nat, zp: nat): (res: Result<Poly>)
    requires zp > 1 && AllReduced(f.elements, zp) && i < MOrder(f)
  {
    var adjoints :- Adjoints(f, i, zp);
    AdjointsListed(i, MOrder(f), zp, 1, MOrder(f));
    Ok(LinearProduct(f, [i] + adjoints, zp))
  }

  method FindMinimalPolynomial(f: Field, i: nat, zp: nat) returns (res: Result<Poly>)
    requires zp > 1 && AllReduced(f.elements, zp) && i < MOrder(f)
    ensures res == MinimalPolynomialOf(f, i, zp)
  {
    var adjoints :- GetAdjointElements(f, i, zp);
    AdjointsListed(i, MOrder(f), zp, 1, MOrder(f));
    ghost var idxs := [i] + adjoints;
    var poly := Linear(f.elements[i], zp);
    MulOneLeft(poly, zp);
    assert idxs[..1] == [i];
    for j := 0 to |adjoints|
      invariant poly == LinearProduct(f, idxs[..j + 1], zp)
    {
      assert idxs[..j + 2][..j + 1] == idxs[..j + 1];
      poly := Mul(poly, Linear(f.elements[adjoints[j]], zp), zp);
    }
    assert idxs[..|adjoints| + 1] == idxs;
    return Ok(poly);
  }

  /** d divides P * Q when it divides P. */
  lemma DividesProductLeft(d: Poly, P: Poly, Q: Poly, zp: nat)
    requires zp > 1 && Reduced(d, zp) && Reduced(P, zp) && Reduced(Q, zp) && DividesPoly(d, P, zp)
    ensures DividesPoly(d, Mul(P, Q, zp), zp)
  {
    var q: Poly :| Reduced(q, zp) && Same(Mul(q, d, zp), P);
    MulCongruent(Mul(q, d, zp), P, Q, Q, zp);
    QuotientSwap(q, d, Q, zp);
    assert Reduced(Mul(q, Q, zp), zp) && Same(Mul(Mul(q, Q, zp), d, zp), Mul(P, Q, zp));
  }

  /** d divides P * d. */
  lemma DividesProductRight(d: Poly, P: Poly, zp: nat)
    requires zp > 1 && Reduced(d, zp) && Reduced(P, zp)
    ensures DividesPoly(d, Mul(P, d, zp), zp)
  {
    assert Same(Mul(P, d, zp), Mul(P, d, zp));
  }

  /** One step of the product: the last index multiplies the product of the others. */
  lemma LinearProductLast(f: Field, idxs: seq<nat>, zp: nat)
    requires zp > 1 && AllReduced(f.elements, zp) && ValidIndices(f, idxs) && |idxs| > 0
    ensures ValidIndices(f, idxs[..|idxs| - 1]) && idxs[|idxs| - 1] < |f.elements|
    ensures LinearProduct(f, idxs, zp)
         == Mul(LinearProduct(f, idxs[..|idxs| - 1], zp), Linear(f.elements[idxs[|idxs| - 1]], zp), zp)
  {
  }

  /** The last linear factor divides the product. */
  lemma LastFactorDivides(f: Field, idxs: seq<nat>, zp: nat)
    requires zp > 1 && AllReduced(f.elements, zp) && ValidIndices(f, idxs) && |idxs| > 0
    ensures DividesPoly(Linear(f.elements[idxs[|idxs| - 1]], zp), LinearProduct(f, idxs, zp), zp)
  {
    LinearProductLast(f, idxs, zp);
    DividesProductRight(Linear(f.elements[idxs[|idxs| - 1]], zp), LinearProduct(f, idxs[..|idxs| - 1], zp), zp);
  }

  /** A divisor of the product of the leading factors divides the whole product. */
  lemma EarlierFactorDivides(f: Field, idxs: seq<nat>, zp: nat, j: nat)
    requires zp > 1 && AllReduced(f.elements, zp) && ValidIndices(f, idxs) && j < |idxs| - 1
    requires ValidIndices(f, idxs[..|idxs| - 1])
    requires DividesPoly(Linear(f.elements[idxs[j]], zp), LinearProduct(f, idxs[..|idxs| - 1], zp), zp)
    ensures DividesPoly(Linear(f.elements[idxs[j]], zp), LinearProduct(f, idxs, zp), zp)
  {
    LinearProductLast(f, idxs, zp);
    DividesProductLeft(Linear(f.elements[idxs[j]], zp), LinearProduct(f, idxs[..|idxs| - 1], zp),
                       Linear(f.elements[idxs[|idxs| - 1]], zp), zp);
  }

  /** Every linear factor X - elements[idxs[j]] divides the product. */
  lemma {:induction false} LinearFactorsDivide(f: Field, idxs: seq<nat>, zp: nat, j: nat)
    requires zp > 1 && AllReduced(f.elements, zp) && ValidIndices(f, idxs) && j < |idxs|
    ensures DividesPoly(Linear(f.elements[idxs[j]], zp), LinearProduct(f, idxs, zp), zp)
    decreases |idxs|
  {
    if j == |idxs| - 1 {
      LastFactorDivides(f, idxs, zp);
    } else {
      var init := idxs[..|idxs| - 1];
      assert init[j] == idxs[j];
      assert ValidIndices(f, init);
      LinearFactorsDivide(f, init, zp, j);
      EarlierFactorDivides(f, idxs, zp, j);
    }
  }

  /** X - e is the zero polynomial when e equals X. */
  lemma LinearOfX(e: Poly, zp: nat)
    requires zp > 1 && Reduced(e, zp) && Equals(e, X)
    ensures Same(Linear(e, zp), Zero)
  {
    EqualsIffSame(e, X);
    forall i: nat
      ensures Coef(Linear(e, zp), i) == Coef(Zero, i)
    {
      LinearOfXAt(e, zp, i);
    }
  }

  lemma LinearOfXAt(e: Poly, zp: nat, i: nat)
    requires zp > 1 && Reduced(e, zp) && Coef(e, i) == Coef(X, i)
    ensures Coef(Linear(e, zp), i) == 0 == Coef(Zero, i)
  {
    SubCoef(X, e, zp, i);
    var d := Coef(X, i) - Coef(e, i);
    assert d == 0;
    assert d % zp == 0;
  }

  /** A product with a factor equal to Zero is Zero. */
  lemma MulByZero(P: Poly, Z: Poly, zp: nat)
    requires zp > 1 && Reduced(P, zp) && Reduced(Z, zp) && Same(Z, Zero)
    ensures Same(Mul(P, Z, zp), Zero) && Same(Mul(Z, P, zp), Zero)
  {
    assert Reduced(Zero, zp);
    MulCongruent(P, P, Z, Zero, zp);
    MulCongruent(Z, Zero, P, P, zp);
    MulZeroLeft(P, zp);
    MulCommutes(P, Zero, zp);
  }

  /** The product vanishes as soon as one listed element equals X. */
  lemma {:induction false} LinearProductVanishes(f: Field, idxs: seq<nat>, zp: nat, j: nat)
    requires zp > 1 && AllReduced(f.elements, zp) && ValidIndices(f, idxs) && j < |idxs|
    requires Equals(f.elements[idxs[j]], X)
    ensures Same(LinearProduct(f, idxs, zp), Zero)
    decreases |idxs|
  {
    var n := |idxs| - 1;
    var init := idxs[..n];
    if j == n {
      LinearOfX(f.elements[idxs[j]], zp);
      MulByZero(LinearProduct(f, init, zp), Linear(f.elements[idxs[n]], zp), zp);
    } else {
      assert init[j] == idxs[j];
      LinearProductVanishes(f, init, zp, j);
      MulByZero(Linear(f.elements[idxs[n]], zp), LinearProduct(f, init, zp), zp);
    }
  }

  /** X - elements[i] and X - elements[a], for each adjoint a, divide the
      minimal polynomial of i. */
  lemma MinimalPolynomialDivisors(f: Field, i: nat, zp: nat, adjoints: seq<nat>, mp: Poly)
    requires zp > 1 && AllReduced(f.elements, zp) && i < MOrder(f)
    requires Adjoints(f, i, zp) == Ok(adjoints) && MinimalPolynomialOf(f, i, zp) == Ok(mp)
    ensures DividesPoly(Linear(f.elements[i], zp), mp, zp)
    ensures forall j :: 0 <= j < |adjoints| ==>
              adjoints[j] < MOrder(f) && DividesPoly(Linear(f.elements[adjoints[j]], zp), mp, zp)
  {
    AdjointsListed(i, MOrder(f), zp, 1, MOrder(f));
    var idxs := [i] + adjoints;
    assert mp == LinearProduct(f, idxs, zp);
    LinearFactorsDivide(f, idxs, zp, 0);
    forall j | 0 <= j < |adjoints|
      ensures adjoints[j] < MOrder(f) && DividesPoly(Linear(f.elements[adjoints[j]], zp), mp, zp)
    {
      AdjointDivides(f, i, adjoints, zp, j);
    }
  }

  lemma AdjointDivides(f: Field, i: nat, adjoints: seq<nat>, zp: nat, j: nat)
    requires zp > 1 && AllReduced(f.elements, zp) && ValidIndices(f, [i] + adjoints) && j < |adjoints|
    ensures adjoints[j] < MOrder(f)
    ensures DividesPoly(Linear(f.elements[adjoints[j]], zp), LinearProduct(f, [i] + adjoints, zp), zp)
  {
    var idxs := [i] + adjoints;
    assert idxs[j + 1] == adjoints[j];
    LinearFactorsDivide(f, idxs, zp, j + 1);
  }

  /** The minimal polynomial of an element equal to X is Zero. */
  lemma MinimalPolynomialOfX(f: Field, i: nat, zp: nat, mp: Poly)
    requires zp > 1 && AllReduced(f.elements, zp) && i < MOrder(f)
    requires MinimalPolynomialOf(f, i, zp) == Ok(mp) && Equals(f.elements[i], X)
    ensures Same(mp, Zero)
  {
    var adjoints := Adjoints(f, i, zp).value;
    AdjointsListed(i, MOrder(f), zp, 1, MOrder(f));
    var idxs := [i] + adjoints;
    assert mp == LinearProduct(f, idxs, zp);
    LinearProductVanishes(f, idxs, zp, 0);
  }

  /** With the default primitive element X and a factor of degree above 1,
      the table entry of power 1 is the polynomial X itself. */
  lemma ElementOneOfX(f: Field, zp: nat)
    requires Built(f, zp) && f.generator == X && Deg(f.factor) > 1
    ensures MOrder(f) > 1 && Element(f, 1) == X
  {
    MultGroupChain(f.factor, X, zp);
    assert f.elements == MultGroup(f.factor, X, zp).value;
    assert Mul(X, One, zp) == X;
    assert Deg(X) == 1;
    RemOfSmall(X, f.factor, zp);
    assert !Equals(X, One) by {
      assert Coef(X, 1) != Coef(One, 1);
    }
    assert Next(f.factor, X, One, zp) == Appended(X);
    if |f.elements| == 1 {
      assert false;
    }
    assert Linked(f.factor, X, f.elements, 0, zp);
  }

  /** `FindMinimalPolynomial(1)` of a field built on the default primitive X
      multiplies by X - X and so returns the zero polynomial. */
  lemma MinimalPolynomialOfDefaultPrimitive(f: Field, zp: nat, mp: Poly)
    requires Built(f, zp) && f.generator == X && Deg(f.factor) > 1
    requires AllReduced(f.elements, zp) && MOrder(f) > 1 && MinimalPolynomialOf(f, 1, zp) == Ok(mp)
    ensures Same(mp, Zero)
  {
    ElementOneOfX(f, zp);
    MinimalPolynomialOfX(f, 1, zp, mp);
  }
}
