/** The extension field GF(Zp^Deg) of src/algebra/GaloisFieldExtension.h:
    the table of powers of a primitive element modulo a factor polynomial,
    its accessors, the discrete logarithm over the table, the orbits of an
    index under multiplication by Zp, and the product of linear factors
    built from such an orbit. */
module GaloisField {
  import opened Arith
  import opened Wrappers
  import opened Polynomials
  import opened PolyRing
  import opened PolyDivision
  import opened PolyGcd
  import opened PolySpecial
  import opened PolyInverse
  import ConsecutiveGenerator

  /** A built field: the factor, the generator (primitive element) and the
      table elements[i] = generator^i mod factor. */
  datatype Field = Field(factor: Poly, generator: Poly, elements: seq<Poly>)

  predicate AllReduced(es: seq<Poly>, zp: nat)
  {
    forall i :: 0 <= i < |es| ==> Reduced(es[i], zp)
  }

  /** The number of residues modulo factor, Zp^deg(factor): the step bound
      of the table loop. */
  function Residues(factor: Poly, zp: nat): (n: nat)
    requires zp > 1
    ensures n > 0
  {
    PowBySums(zp, Deg(factor))
  }

  // ----- BuildMultGroup -----

  /** What one round of the `BuildMultGroup` loop does after the entry e. */
  datatype Round = Failed(error: Error) | BackToOne | Appended(poly: Poly)

  /** The next power after e, primitive * e mod factor: the division fails,
      or the power is One (the loop ends), or it is appended. */
  function Next(factor: Poly, primitive: Poly, e: Poly, zp: nat): (r: Round)
    requires zp > 1 && Reduced(factor, zp) && Reduced(primitive, zp) && Reduced(e, zp)
    ensures r.Appended? ==> Reduced(r.poly, zp) && !Equals(r.poly, One)
    ensures r.Failed? ==> r.error in {DivisionByZero, Unsolvable}
  {
    match Rem(Mul(primitive, e, zp), factor, zp)
    case Err(error) => Failed(error)
    case Ok(poly) => if Equals(poly, One) then BackToOne else Appended(poly)
  }

  /** The do/while of `BuildMultGroup` from the table es built so far: the
      loop ends, without appending, when the next power is One. After `fuel`
      further steps without a return to One the model gives up. */
  function GroupFrom(factor: Poly, primitive: Poly, es: seq<Poly>, fuel: nat, zp: nat): (res: Result<seq<Poly>>)
    requires zp > 1 && Reduced(factor, zp) && Reduced(primitive, zp) && |es| > 0 && AllReduced(es, zp)
    ensures res.Ok? ==> AllReduced(res.value, zp)
    ensures res.Err? ==> res.error in {NoReturnToOne, DivisionByZero, Unsolvable}
    decreases fuel, 1
  {
    if fuel == 0 then Err(NoReturnToOne) else Step(factor, primitive, es, fuel, zp)
  }

  /** One pass of the loop body with fuel left, then the rest of the loop. */
  function Step(factor: Poly, primitive: Poly, es: seq<Poly>, fuel: nat, zp: nat): (res: Result<seq<Poly>>)
    requires zp > 1 && Reduced(factor, zp) && Reduced(primitive, zp) && |es| > 0 && AllReduced(es, zp) && fuel > 0
    ensures res.Ok? ==> AllReduced(res.value, zp)
    ensures res.Err? ==> res.error in {NoReturnToOne, DivisionByZero, Unsolvable}
    decreases fuel, 0
  {
    match Next(factor, primitive, es[|es| - 1], zp)
    case Failed(error) => Err(error)
    case BackToOne => Ok(es)
    case Appended(poly) =>
      assert AllReduced(es + [poly], zp);
      GroupFrom(factor, primitive, es + [poly], fuel - 1, zp)
  }

  /** The table of `BuildMultGroup`, starting from {One}, with at most one
      step per residue modulo factor. */
  function MultGroup(factor: Poly, primitive: Poly, zp: nat): (res: Result<seq<Poly>>)
    requires zp > 1 && Reduced(factor, zp) && Reduced(primitive, zp)
    ensures res.Ok? ==> AllReduced(res.value, zp)
  {
    GroupFrom(factor, primitive, [One], Residues(factor, zp), zp)
  }

  /** The field `BuildMultGroup` returns. */
  function FieldOf(factor: Poly, primitive: Poly, zp: nat): (res: Result<Field>)
    requires zp > 1 && Reduced(factor, zp) && Reduced(primitive, zp)
    ensures res.Ok? ==> res.value.factor == factor && res.value.generator == primitive
    ensures res.Ok? <==> MultGroup(factor, primitive, zp).Ok?
  {
    var es :- MultGroup(factor, primitive, zp);
    Ok(Field(factor, primitive, es))
  }

  /** One round of the loop body: `(primitive * elements_[i]) % factor_`
      compared with One, for the last entry of es; GroupFrom either stops
      there or goes on from es with the power appended. */
  method NextRound(factor: Poly, primitive: Poly, es: seq<Poly>, fuel: nat, zp: nat) returns (r: Round)
    requires zp > 1 && Reduced(factor, zp) && Reduced(primitive, zp) && |es| > 0 && AllReduced(es, zp) && fuel > 0
    ensures r.Failed? ==> GroupFrom(factor, primitive, es, fuel, zp) == Err(r.error)
    ensures r.BackToOne? ==> GroupFrom(factor, primitive, es, fuel, zp) == Ok(es)
    ensures r.Appended? ==>
              AllReduced(es + [r.poly], zp) &&
              GroupFrom(factor, primitive, es, fuel, zp) == GroupFrom(factor, primitive, es + [r.poly], fuel - 1, zp)
  {
    GroupFromRound(factor, primitive, es, fuel, zp);
    var poly := Rem(Mul(primitive, es[|es| - 1], zp), factor, zp);
    if poly.Err? {
      return Failed(poly.error);
    }
    if Equals(poly.value, One) {
      return BackToOne;
    }
    return Appended(poly.value);
  }

  /** One round of the do/while, as GroupFrom takes it. */
  lemma GroupFromRound(factor: Poly, primitive: Poly, es: seq<Poly>, fuel: nat, zp: nat)
    requires zp > 1 && Reduced(factor, zp) && Reduced(primitive, zp) && |es| > 0 && AllReduced(es, zp) && fuel > 0
    ensures Next(factor, primitive, es[|es| - 1], zp).Failed? ==>
              GroupFrom(factor, primitive, es, fuel, zp) == Err(Next(factor, primitive, es[|es| - 1], zp).error)
    ensures Next(factor, primitive, es[|es| - 1], zp).BackToOne? ==>
              GroupFrom(factor, primitive, es, fuel, zp) == Ok(es)
    ensures Next(factor, primitive, es[|es| - 1], zp).Appended? ==>
              AllReduced(es + [Next(factor, primitive, es[|es| - 1], zp).poly], zp) &&
              GroupFrom(factor, primitive, es, fuel, zp) ==
              GroupFrom(factor, primitive, es + [Next(factor, primitive, es[|es| - 1], zp).poly], fuel - 1, zp)
  {
    assert GroupFrom(factor, primitive, es, fuel, zp) == Step(factor, primitive, es, fuel, zp);
  }

  /** `BuildMultGroup`: the field with the table of powers of primitive. */
  method BuildMultGroup(factor: Poly, primitive: Poly, zp: nat) returns (res: Result<Field>)
    requires zp > 1 && Reduced(factor, zp) && Reduced(primitive, zp)
    ensures res == FieldOf(factor, primitive, zp)
  {
    var elements :- BuildTable(factor, primitive, zp);
    return Ok(Field(factor, primitive, elements));
  }

  /** The loop of `BuildMultGroup`: elements_ starts as {One}; each round
      multiplies the last entry by the primitive element, reduces mod factor,
      and appends the result unless it is One, which ends the loop. */
  method BuildTable(factor: Poly, primitive: Poly, zp: nat) returns (res: Result<seq<Poly>>)
    requires zp > 1 && Reduced(factor, zp) && Reduced(primitive, zp)
    ensures res == MultGroup(factor, primitive, zp)
  {
    var elements := [One];
    var fuel := Residues(factor, zp);
    ghost var whole := MultGroup(factor, primitive, zp);
    while fuel > 0
      invariant |elements| > 0 && AllReduced(elements, zp)
      invariant GroupFrom(factor, primitive, elements, fuel, zp) == whole
    {
      var r := NextRound(factor, primitive, elements, fuel, zp);
      match r
      case Failed(e) => return Err(e);
      case BackToOne => return Ok(elements);
      case Appended(poly) =>
        elements := elements + [poly];
        fuel := fuel - 1;
    }
    return Err(NoReturnToOne);
  }

  // ----- what the table holds -----

  /** Entry i + 1 is primitive times entry i, reduced mod factor. */
  predicate Linked(factor: Poly, primitive: Poly, es: seq<Poly>, i: nat, zp: nat)
    requires zp > 1 && Reduced(factor, zp) && Reduced(primitive, zp) && AllReduced(es, zp) && i + 1 < |es|
  {
    Next(factor, primitive, es[i], zp) == Appended(es[i + 1])
  }

  /** The table invariant: elements[0] is One, each next entry is primitive
      times the previous one mod factor, and no entry after the first is One. */
  predicate Chain(factor: Poly, primitive: Poly, es: seq<Poly>, zp: nat)
    requires zp > 1 && Reduced(factor, zp) && Reduced(primitive, zp) && AllReduced(es, zp)
  {
    |es| > 0 && es[0] == One &&
    (forall i :: 0 < i < |es| ==> !Equals(es[i], One)) &&
    (forall i: nat :: i + 1 < |es| ==> Linked(factor, primitive, es, i, zp))
  }

  /** One more multiplication by the primitive element gives One again. */
  predicate Closed(factor: Poly, primitive: Poly, es: seq<Poly>, zp: nat)
    requires zp > 1 && Reduced(factor, zp) && Reduced(primitive, zp) && AllReduced(es, zp) && |es| > 0
  {
    Next(factor, primitive, es[|es| - 1], zp) == BackToOne
  }

  /** Appending the next power that is not One keeps the table invariant. */
  lemma {:induction false} ChainExtend(factor: Poly, primitive: Poly, es: seq<Poly>, poly: Poly, zp: nat)
    requires zp > 1 && Reduced(factor, zp) && Reduced(primitive, zp) && AllReduced(es, zp)
    requires Chain(factor, primitive, es, zp) && Next(factor, primitive, es[|es| - 1], zp) == Appended(poly)
    ensures AllReduced(es + [poly], zp) && Chain(factor, primitive, es + [poly], zp)
  {
    OnesAppend(es, poly);
    LinksAppend(factor, primitive, es, poly, zp);
  }

  /** Appending a power that is not One keeps One out of the table's tail. */
  lemma OnesAppend(es: seq<Poly>, poly: Poly)
    requires |es| > 0 && !Equals(poly, One)
    requires forall i :: 0 < i < |es| ==> !Equals(es[i], One)
    ensures forall i :: 0 < i < |es + [poly]| ==> !Equals((es + [poly])[i], One)
  {
    forall i | 0 < i < |es + [poly]|
      ensures !Equals((es + [poly])[i], One)
    {
      if i < |es| {
        assert (es + [poly])[i] == es[i];
      }
    }
  }

  /** Appending the next power keeps every entry linked to its successor. */
  lemma LinksAppend(factor: Poly, primitive: Poly, es: seq<Poly>, poly: Poly, zp: nat)
    requires zp > 1 && Reduced(factor, zp) && Reduced(primitive, zp) && AllReduced(es, zp) && |es| > 0
    requires forall i: nat :: i + 1 < |es| ==> Linked(factor, primitive, es, i, zp)
    requires Next(factor, primitive, es[|es| - 1], zp) == Appended(poly)
    ensures AllReduced(es + [poly], zp)
    ensures forall i: nat :: i + 1 < |es + [poly]| ==> Linked(factor, primitive, es + [poly], i, zp)
  {
    assert AllReduced(es + [poly], zp);
    forall i: nat | i + 1 < |es + [poly]|
      ensures Linked(factor, primitive, es + [poly], i, zp)
    {
      LinkedAppend(factor, primitive, es, poly, zp, i);
    }
  }

  lemma LinkedAppend(factor: Poly, primitive: Poly, es: seq<Poly>, poly: Poly, zp: nat, i: nat)
    requires zp > 1 && Reduced(factor, zp) && Reduced(primitive, zp) && AllReduced(es, zp) && |es| > 0
    requires AllReduced(es + [poly], zp) && i + 1 < |es + [poly]|
    requires i + 1 < |es| ==> Linked(factor, primitive, es, i, zp)
    requires Next(factor, primitive, es[|es| - 1], zp) == Appended(poly)
    ensures Linked(factor, primitive, es + [poly], i, zp)
  {
    assert (es + [poly])[i] == es[i];
    assert (es + [poly])[i + 1] == if i + 1 < |es| then es[i + 1] else poly;
  }

  lemma {:induction false} GroupFromChain(factor: Poly, primitive: Poly, es: seq<Poly>, fuel: nat, zp: nat)
    requires zp > 1 && Reduced(factor, zp) && Reduced(primitive, zp) && AllReduced(es, zp)
    requires Chain(factor, primitive, es, zp)
    requires GroupFrom(factor, primitive, es, fuel, zp).Ok?
    ensures Chain(factor, primitive, GroupFrom(factor, primitive, es, fuel, zp).value, zp)
    ensures Closed(factor, primitive, GroupFrom(factor, primitive, es, fuel, zp).value, zp)
    decreases fuel
  {
    GroupFromRound(factor, primitive, es, fuel, zp);
    match Next(factor, primitive, es[|es| - 1], zp)
    case Appended(poly) =>
      ChainExtend(factor, primitive, es, poly, zp);
      GroupFromChain(factor, primitive, es + [poly], fuel - 1, zp);
    case _ =>
  }

  /** The table of a built field satisfies the table invariant and closes
      up: the generator's next power after the last entry is One. */
  lemma MultGroupChain(factor: Poly, primitive: Poly, zp: nat)
    requires zp > 1 && Reduced(factor, zp) && Reduced(primitive, zp)
    requires MultGroup(factor, primitive, zp).Ok?
    ensures Chain(factor, primitive, MultGroup(factor, primitive, zp).value, zp)
    ensures Closed(factor, primitive, MultGroup(factor, primitive, zp).value, zp)
  {
    assert Chain(factor, primitive, [One], zp);
    GroupFromChain(factor, primitive, [One], Residues(factor, zp), zp);
  }

  /** If q f + e = P, then primitive * e mod f is P * primitive minus a
      multiple of f: with p e = Q f + e', P p = (q p + Q) f + e'. */
  lemma PowerStep(f: Poly, p: Poly, e: Poly, e': Poly, P: Poly, q: Poly, zp: nat) returns (q': Poly)
    requires zp > 1 && Reduced(f, zp) && Reduced(p, zp) && Reduced(e, zp) && Reduced(P, zp)
    requires Congruent(q, e, P, f, zp) && Rem(Mul(p, e, zp), f, zp) == Ok(e')
    ensures Congruent(q', e', Mul(P, p, zp), f, zp)
  {
    DivisionCorrect(Mul(p, e, zp), f, zp);
    var Q := Division(Mul(p, e, zp), f, zp).value.0;
    assert Rem(Mul(p, e, zp), f, zp) == Ok(Division(Mul(p, e, zp), f, zp).value.1);
    assert Same(Add(Mul(Q, f, zp), e', zp), Mul(p, e, zp));
    var qf := Mul(q, f, zp);
    var A, B := Mul(Mul(q, p, zp), f, zp), Mul(Q, f, zp);
    // P p = (q f + e) p = (q f) p + e p
    MulCongruent(P, Add(qf, e, zp), p, p, zp);
    MulDistributesRight(qf, e, p, zp);
    QuotientSwap(q, f, p, zp);
    // e p = p e = Q f + e'
    MulCommutes(e, p, zp);
    AddCongruent(Mul(qf, p, zp), A, Mul(e, p, zp), Add(B, e', zp), zp);
    AddAssociates(A, B, e', zp);
    MulDistributesRight(Mul(q, p, zp), Q, f, zp);
    q' := Add(Mul(q, p, zp), Q, zp);
    AddCongruent(Add(A, B, zp), Mul(q', f, zp), e', e', zp);
  }

  /** (q f) p = (q p) f. */
  lemma QuotientSwap(q: Poly, f: Poly, p: Poly, zp: nat)
    requires zp > 1 && Reduced(q, zp) && Reduced(f, zp) && Reduced(p, zp)
    ensures Same(Mul(Mul(q, f, zp), p, zp), Mul(Mul(q, p, zp), f, zp))
  {
    MulAssociates(q, f, p, zp);
    MulCommutes(f, p, zp);
    MulCongruent(q, q, Mul(f, p, zp), Mul(p, f, zp), zp);
    MulAssociates(q, p, f, zp);
  }

  /** n = 0 f + n. */
  lemma CongruentSelf(n: Poly, f: Poly, zp: nat) returns (q: Poly)
    requires zp > 1 && Reduced(n, zp) && Reduced(f, zp)
    ensures Congruent(q, n, n, f, zp)
  {
    MulZeroLeft(f, zp);
    AddZero(n, Mul(Zero, f, zp), zp);
    assert Reduced(Zero, zp);
    q := Zero;
  }

  /** elements[i] is primitive^i minus a multiple of factor. */
  lemma {:induction false} ChainPowers(factor: Poly, primitive: Poly, es: seq<Poly>, zp: nat, i: nat) returns (q: Poly)
    requires zp > 1 && Reduced(factor, zp) && Reduced(primitive, zp) && AllReduced(es, zp)
    requires Chain(factor, primitive, es, zp) && i < |es|
    ensures Congruent(q, es[i], Power(primitive, i, zp), factor, zp)
  {
    if i == 0 {
      q := CongruentSelf(One, factor, zp);
    } else {
      var q0 := ChainPowers(factor, primitive, es, zp, i - 1);
      q := ChainStep(factor, primitive, es, zp, i, q0);
    }
  }

  /** The induction step of ChainPowers: entry i is primitive times entry i - 1. */
  lemma ChainStep(factor: Poly, primitive: Poly, es: seq<Poly>, zp: nat, i: nat, q0: Poly) returns (q: Poly)
    requires zp > 1 && Reduced(factor, zp) && Reduced(primitive, zp) && AllReduced(es, zp)
    requires Chain(factor, primitive, es, zp) && 0 < i < |es|
    requires Congruent(q0, es[i - 1], Power(primitive, i - 1, zp), factor, zp)
    ensures Congruent(q, es[i], Power(primitive, i, zp), factor, zp)
  {
    assert Linked(factor, primitive, es, i - 1, zp);
    q := PowerStep(factor, primitive, es[i - 1], es[i], Power(primitive, i - 1, zp), q0, zp);
  }

  /** Entry i of a table is the remainder of primitive^i. */
  lemma ChainRemainder(factor: Poly, primitive: Poly, es: seq<Poly>, zp: nat, i: nat)
    requires zp > 1 && Reduced(factor, zp) && Reduced(primitive, zp) && AllReduced(es, zp) && Deg(factor) > 0
    requires Chain(factor, primitive, es, zp) && i < |es|
    ensures RemainderOf(es[i], Power(primitive, i, zp), factor, zp)
  {
    var q := ChainPowers(factor, primitive, es, zp, i);
    if i == 0 {
      assert Deg(One) == 0;
    } else {
      assert Linked(factor, primitive, es, i - 1, zp);
    }
    RemainderOfWitness(q, es[i], Power(primitive, i, zp), factor, zp);
  }

  /** A remainder of positive-degree f, given by its quotient. */
  lemma RemainderOfWitness(q: Poly, r: Poly, n: Poly, f: Poly, zp: nat)
    requires zp > 1 && Reduced(r, zp) && Congruent(q, r, n, f, zp)
    requires Equals(r, Zero) || Deg(r) < Deg(f)
    ensures RemainderOf(r, n, f, zp)
  {
  }

  /** `BuildMultGroup` (tests/test_algebra.cc checks GF(2^6) this way): for a
      factor of positive degree, the i-th element is the remainder of
      generator^i, generator^m_order leaves remainder One, and the table starts
      at One and holds no other One. */
  lemma MultGroupPowers(factor: Poly, primitive: Poly, zp: nat)
    requires zp > 1 && Reduced(factor, zp) && Reduced(primitive, zp) && Deg(factor) > 0
    requires MultGroup(factor, primitive, zp).Ok?
    ensures PowerTable(factor, primitive, MultGroup(factor, primitive, zp).value, zp)
  {
    MultGroupChain(factor, primitive, zp);
    ChainPowerTable(factor, primitive, MultGroup(factor, primitive, zp).value, zp);
  }

  /** The table of powers of primitive modulo factor: it starts at One and
      holds no other One, entry i is the remainder of primitive^i, and
      primitive^|es| leaves remainder One. */
  ghost predicate PowerTable(factor: Poly, primitive: Poly, es: seq<Poly>, zp: nat)
    requires zp > 1
  {
    |es| > 0 && es[0] == One &&
    (forall i :: 0 < i < |es| ==> !Equals(es[i], One)) &&
    (forall i: nat :: i < |es| ==> RemainderOf(es[i], Power(primitive, i, zp), factor, zp)) &&
    RemainderOf(One, Power(primitive, |es|, zp), factor, zp)
  }

  lemma ChainPowerTable(factor: Poly, primitive: Poly, es: seq<Poly>, zp: nat)
    requires zp > 1 && Reduced(factor, zp) && Reduced(primitive, zp) && AllReduced(es, zp) && Deg(factor) > 0
    requires Chain(factor, primitive, es, zp) && Closed(factor, primitive, es, zp)
    ensures PowerTable(factor, primitive, es, zp)
  {
    ChainRemainders(factor, primitive, es, zp);
    var q0 := ChainPowers(factor, primitive, es, zp, |es| - 1);
    PowerToOne(factor, primitive, es, q0, zp);
  }

  lemma ChainRemainders(factor: Poly, primitive: Poly, es: seq<Poly>, zp: nat)
    requires zp > 1 && Reduced(factor, zp) && Reduced(primitive, zp) && AllReduced(es, zp) && Deg(factor) > 0
    requires Chain(factor, primitive, es, zp)
    ensures forall i: nat :: i < |es| ==> RemainderOf(es[i], Power(primitive, i, zp), factor, zp)
  {
    forall i: nat | i < |es|
      ensures RemainderOf(es[i], Power(primitive, i, zp), factor, zp)
    {
      ChainRemainder(factor, primitive, es, zp, i);
    }
  }

  /** If the last entry is primitive^(n-1) minus a multiple of factor and the
      table is closed, primitive^n leaves remainder One. */
  lemma PowerToOne(factor: Poly, primitive: Poly, es: seq<Poly>, q0: Poly, zp: nat)
    requires zp > 1 && Reduced(factor, zp) && Reduced(primitive, zp) && AllReduced(es, zp) && |es| > 0
    requires Deg(factor) > 0 && Closed(factor, primitive, es, zp)
    requires Congruent(q0, es[|es| - 1], Power(primitive, |es| - 1, zp), factor, zp)
    ensures RemainderOf(One, Power(primitive, |es|, zp), factor, zp)
  {
    var last := Rem(Mul(primitive, es[|es| - 1], zp), factor, zp).value;
    var q := PowerStep(factor, primitive, es[|es| - 1], last, Power(primitive, |es| - 1, zp), q0, zp);
    assert Power(primitive, |es|, zp) == Mul(Power(primitive, |es| - 1, zp), primitive, zp);
    RemainderOfOne(q, last, Power(primitive, |es|, zp), factor, zp);
  }

  /** A remainder equal to One makes One a remainder. */
  lemma RemainderOfOne(q: Poly, r: Poly, P: Poly, factor: Poly, zp: nat)
    requires zp > 1 && Reduced(r, zp) && Reduced(factor, zp) && Deg(factor) > 0
    requires Congruent(q, r, P, factor, zp) && Equals(r, One)
    ensures RemainderOf(One, P, factor, zp)
  {
    EqualsIffSame(r, One);
    assert Reduced(One, zp);
    AddCongruent(Mul(q, factor, zp), Mul(q, factor, zp), One, r, zp);
    SameTrans(Add(Mul(q, factor, zp), One, zp), Add(Mul(q, factor, zp), r, zp), P);
    assert Deg(One) == 0;
    RemainderOfWitness(q, One, P, factor, zp);
  }

  /** Equal entries have equal successors: the same round outcome, and
      equal appended powers. */
  lemma NextAgree(factor: Poly, primitive: Poly, a: Poly, b: Poly, zp: nat)
    requires zp > 1 && Reduced(factor, zp) && Reduced(primitive, zp) && Reduced(a, zp) && Reduced(b, zp)
    ensures Equals(a, b) ==>
              Next(factor, primitive, a, zp).Failed? == Next(factor, primitive, b, zp).Failed? &&
              Next(factor, primitive, a, zp).BackToOne? == Next(factor, primitive, b, zp).BackToOne? &&
              (Next(factor, primitive, a, zp).Appended? ==>
                 Equals(Next(factor, primitive, a, zp).poly, Next(factor, primitive, b, zp).poly))
  {
    if Equals(a, b) {
      EqualsIffSame(a, b);
      MulCongruent(primitive, primitive, a, b, zp);
      RemSame(Mul(primitive, a, zp), Mul(primitive, b, zp), factor, zp);
      var ra, rb := Rem(Mul(primitive, a, zp), factor, zp), Rem(Mul(primitive, b, zp), factor, zp);
      if ra.Ok? {
        EqualsIffSame(ra.value, rb.value);
        EqualsIffSame(ra.value, One);
        EqualsIffSame(rb.value, One);
      }
    }
  }

  /** Equal entries j and k have equal successors. */
  lemma ChainSuccessors(factor: Poly, primitive: Poly, es: seq<Poly>, zp: nat, j: nat, k: nat)
    requires zp > 1 && Reduced(factor, zp) && Reduced(primitive, zp) && AllReduced(es, zp)
    requires Chain(factor, primitive, es, zp) && j < k && k + 1 < |es|
    ensures Equals(es[j], es[k]) ==> Equals(es[j + 1], es[k + 1])
  {
    assert Linked(factor, primitive, es, j, zp);
    assert Linked(factor, primitive, es, k, zp);
    NextAgree(factor, primitive, es[j], es[k], zp);
  }

  /** An entry before the last one is followed by an appended power, the last
      one by One, so the two differ. */
  lemma ChainNotLast(factor: Poly, primitive: Poly, es: seq<Poly>, zp: nat, j: nat)
    requires zp > 1 && Reduced(factor, zp) && Reduced(primitive, zp) && AllReduced(es, zp)
    requires Chain(factor, primitive, es, zp) && Closed(factor, primitive, es, zp) && j + 1 < |es|
    ensures !Equals(es[j], es[|es| - 1])
  {
    assert Linked(factor, primitive, es, j, zp);
    NextAgree(factor, primitive, es[j], es[|es| - 1], zp);
  }

  /** No entry before the last equals the last one. */
  lemma ChainLastDistinct(factor: Poly, primitive: Poly, es: seq<Poly>, zp: nat)
    requires zp > 1 && Reduced(factor, zp) && Reduced(primitive, zp) && AllReduced(es, zp)
    requires Chain(factor, primitive, es, zp) && Closed(factor, primitive, es, zp)
    ensures forall j :: 0 <= j < |es| - 1 ==> !Equals(es[j], es[|es| - 1])
  {
    forall j | 0 <= j < |es| - 1
      ensures !Equals(es[j], es[|es| - 1])
    {
      ChainNotLast(factor, primitive, es, zp, j);
    }
  }

  lemma {:induction false} ChainDistinctFrom(factor: Poly, primitive: Poly, es: seq<Poly>, zp: nat, j: nat, k: nat)
    requires zp > 1 && Reduced(factor, zp) && Reduced(primitive, zp) && AllReduced(es, zp)
    requires Chain(factor, primitive, es, zp)
    requires forall j :: 0 <= j < |es| - 1 ==> !Equals(es[j], es[|es| - 1])
    requires j < k < |es|
    ensures !Equals(es[j], es[k])
    decreases |es| - k
  {
    if k < |es| - 1 {
      ChainSuccessors(factor, primitive, es, zp, j, k);
      ChainDistinctFrom(factor, primitive, es, zp, j + 1, k + 1);
    }
  }

  /** The entries of a built table are pairwise different polynomials. */
  lemma MultGroupDistinct(factor: Poly, primitive: Poly, zp: nat)
    requires zp > 1 && Reduced(factor, zp) && Reduced(primitive, zp)
    requires MultGroup(factor, primitive, zp).Ok?
    ensures forall j, k :: 0 <= j < k < |MultGroup(factor, primitive, zp).value| ==>
              !Equals(MultGroup(factor, primitive, zp).value[j], MultGroup(factor, primitive, zp).value[k])
  {
    var es := MultGroup(factor, primitive, zp).value;
    MultGroupChain(factor, primitive, zp);
    ChainLastDistinct(factor, primitive, es, zp);
    forall j, k | 0 <= j < k < |es|
      ensures !Equals(es[j], es[k])
    {
      ChainDistinctFrom(factor, primitive, es, zp, j, k);
    }
  }

  // ----- the Zp^deg(factor) bound of BuildMultGroup -----

  /** The k-th power of primitive as the loop reaches it when nothing stops
      it: One, then primitive times the previous power mod factor, until a
      division fails. */
  function Orbit(factor: Poly, primitive: Poly, k: nat, zp: nat): (res: Result<Poly>)
    requires zp > 1 && Reduced(factor, zp) && Reduced(primitive, zp)
    ensures res.Ok? ==> Reduced(res.value, zp)
    ensures res.Ok? && k > 0 ==> Equals(res.value, Zero) || Deg(res.value) < Deg(factor)
    decreases k, 1
  {
    if k == 0 then Ok(One) else OrbitStep(factor, primitive, k, zp)
  }

  /** Power k > 0: primitive times power k - 1, mod factor. */
  function OrbitStep(factor: Poly, primitive: Poly, k: nat, zp: nat): (res: Result<Poly>)
    requires zp > 1 && Reduced(factor, zp) && Reduced(primitive, zp) && k > 0
    ensures res.Ok? ==> Reduced(res.value, zp)
    ensures res.Ok? ==> Equals(res.value, Zero) || Deg(res.value) < Deg(factor)
    decreases k, 0
  {
    var e :- Orbit(factor, primitive, k - 1, zp);
    Rem(Mul(primitive, e, zp), factor, zp)
  }

  /** A power that is reached has every earlier power reached. */
  lemma OrbitReached(factor: Poly, primitive: Poly, k: nat, j: nat, zp: nat)
    requires zp > 1 && Reduced(factor, zp) && Reduced(primitive, zp)
    requires Orbit(factor, primitive, k, zp).Ok? && j <= k
    ensures Orbit(factor, primitive, j, zp).Ok?
  {
    if !Orbit(factor, primitive, j, zp).Ok? {
      OrbitStuck(factor, primitive, j, k, zp);
    }
  }

  /** A failed division ends the powers: the next one fails as well. */
  lemma OrbitFails(factor: Poly, primitive: Poly, k0: nat, k: nat, zp: nat)
    requires zp > 1 && Reduced(factor, zp) && Reduced(primitive, zp) && k == k0 + 1
    requires !Orbit(factor, primitive, k0, zp).Ok?
    ensures !Orbit(factor, primitive, k, zp).Ok?
  {
    assert Orbit(factor, primitive, k, zp) == OrbitStep(factor, primitive, k, zp);
    assert k - 1 == k0;
  }

  /** Every power from lo up to hi is reached and none is One. */
  ghost predicate NoOneBetween(factor: Poly, primitive: Poly, lo: nat, hi: nat, zp: nat)
    requires zp > 1 && Reduced(factor, zp) && Reduced(primitive, zp)
  {
    forall j :: lo <= j < hi ==>
      Orbit(factor, primitive, j, zp).Ok? && !Equals(Orbit(factor, primitive, j, zp).value, One)
  }

  /** One more power at the front of a run without One. */
  lemma NoOneExtend(factor: Poly, primitive: Poly, lo: nat, lo1: nat, hi: nat, zp: nat)
    requires zp > 1 && Reduced(factor, zp) && Reduced(primitive, zp) && lo1 == lo + 1
    requires Orbit(factor, primitive, lo, zp).Ok? && !Equals(Orbit(factor, primitive, lo, zp).value, One)
    requires NoOneBetween(factor, primitive, lo1, hi, zp)
    ensures NoOneBetween(factor, primitive, lo, hi, zp)
  {
    forall j | lo <= j < hi
      ensures Orbit(factor, primitive, j, zp).Ok? && !Equals(Orbit(factor, primitive, j, zp).value, One)
    {
      if j != lo {
        assert lo1 <= j;
      }
    }
  }

  /** A round of a loop that ends with NoReturnToOne appends the next
      power, which is not One, and the loop ends the same way from there. */
  lemma NoReturnStep(factor: Poly, primitive: Poly, es: seq<Poly>, fuel: nat, zp: nat) returns (poly: Poly)
    requires zp > 1 && Reduced(factor, zp) && Reduced(primitive, zp) && |es| > 0 && AllReduced(es, zp)
    requires Orbit(factor, primitive, |es| - 1, zp) == Ok(es[|es| - 1])
    requires GroupFrom(factor, primitive, es, fuel, zp) == Err(NoReturnToOne) && fuel > 0
    ensures Orbit(factor, primitive, |es|, zp) == Ok(poly) && !Equals(poly, One)
    ensures AllReduced(es + [poly], zp) && (es + [poly])[|es + [poly]| - 1] == poly
    ensures Orbit(factor, primitive, |es + [poly]| - 1, zp) == Ok(poly)
    ensures GroupFrom(factor, primitive, es + [poly], fuel - 1, zp) == Err(NoReturnToOne)
  {
    GroupFromRound(factor, primitive, es, fuel, zp);
    poly := Next(factor, primitive, es[|es| - 1], zp).poly;
    OrbitUnfold(factor, primitive, |es| - 1, |es|, zp);
  }

  /** A NoReturnToOne outcome has reached, within the fuel, powers none of
      which is One. */
  lemma {:induction false} NoReturnFrom(factor: Poly, primitive: Poly, es: seq<Poly>, fuel: nat, hi: nat, zp: nat)
    requires zp > 1 && Reduced(factor, zp) && Reduced(primitive, zp) && |es| > 0 && AllReduced(es, zp)
    requires Orbit(factor, primitive, |es| - 1, zp) == Ok(es[|es| - 1])
    requires GroupFrom(factor, primitive, es, fuel, zp) == Err(NoReturnToOne) && hi == |es| + fuel
    ensures NoOneBetween(factor, primitive, |es|, hi, zp)
    decreases fuel
  {
    if fuel > 0 {
      var poly := NoReturnStep(factor, primitive, es, fuel, zp);
      NoReturnFrom(factor, primitive, es + [poly], fuel - 1, hi, zp);
      NoOneExtend(factor, primitive, |es|, |es + [poly]|, hi, zp);
    }
  }

  /** Equal polynomials times primitive leave the same outcome mod factor:
      both fail or neither, and equal remainders. */
  lemma RemMulAgree(factor: Poly, primitive: Poly, x: Poly, y: Poly, zp: nat)
    requires zp > 1 && Reduced(factor, zp) && Reduced(primitive, zp) && Reduced(x, zp) && Reduced(y, zp)
    requires Equals(x, y)
    ensures Rem(Mul(primitive, x, zp), factor, zp).Ok? == Rem(Mul(primitive, y, zp), factor, zp).Ok?
    ensures Rem(Mul(primitive, x, zp), factor, zp).Ok? ==>
              Equals(Rem(Mul(primitive, x, zp), factor, zp).value, Rem(Mul(primitive, y, zp), factor, zp).value)
  {
    EqualsIffSame(x, y);
    MulCongruent(primitive, primitive, x, y, zp);
    RemSame(Mul(primitive, x, zp), Mul(primitive, y, zp), factor, zp);
    var rx := Rem(Mul(primitive, x, zp), factor, zp);
    if rx.Ok? {
      EqualsIffSame(rx.value, Rem(Mul(primitive, y, zp), factor, zp).value);
    }
  }

  /** Power k + 1 is primitive times power k mod factor. */
  lemma OrbitUnfold(factor: Poly, primitive: Poly, k: nat, k1: nat, zp: nat)
    requires zp > 1 && Reduced(factor, zp) && Reduced(primitive, zp) && k1 == k + 1
    requires Orbit(factor, primitive, k, zp).Ok?
    ensures Orbit(factor, primitive, k1, zp) == Rem(Mul(primitive, Orbit(factor, primitive, k, zp).value, zp), factor, zp)
  {
    assert Orbit(factor, primitive, k1, zp) == OrbitStep(factor, primitive, k1, zp);
  }

  /** Equal powers a and b are followed by equal powers a + 1 and b + 1. */
  lemma OrbitNext(factor: Poly, primitive: Poly, a: nat, a1: nat, b: nat, b1: nat, zp: nat)
    requires zp > 1 && Reduced(factor, zp) && Reduced(primitive, zp) && a1 == a + 1 && b1 == b + 1
    requires Orbit(factor, primitive, a, zp).Ok? && Orbit(factor, primitive, b, zp).Ok?
    requires Equals(Orbit(factor, primitive, a, zp).value, Orbit(factor, primitive, b, zp).value)
    ensures Orbit(factor, primitive, a1, zp).Ok? == Orbit(factor, primitive, b1, zp).Ok?
    ensures Orbit(factor, primitive, a1, zp).Ok? ==>
              Equals(Orbit(factor, primitive, a1, zp).value, Orbit(factor, primitive, b1, zp).value)
  {
    OrbitUnfold(factor, primitive, a, a1, zp);
    OrbitUnfold(factor, primitive, b, b1, zp);
    RemMulAgree(factor, primitive, Orbit(factor, primitive, a, zp).value, Orbit(factor, primitive, b, zp).value, zp);
  }

  /** Equal powers s and t are followed by equal powers: u and v, the same
      number of steps later, are both reached or neither, and equal when
      reached. */
  lemma {:induction false} OrbitRepeats(factor: Poly, primitive: Poly, s: nat, t: nat, u: nat, v: nat, zp: nat)
    requires zp > 1 && Reduced(factor, zp) && Reduced(primitive, zp) && s <= u && u - s == v - t
    requires Orbit(factor, primitive, s, zp).Ok? && Orbit(factor, primitive, t, zp).Ok?
    requires Equals(Orbit(factor, primitive, s, zp).value, Orbit(factor, primitive, t, zp).value)
    ensures Orbit(factor, primitive, u, zp).Ok? == Orbit(factor, primitive, v, zp).Ok?
    ensures Orbit(factor, primitive, u, zp).Ok? ==>
              Equals(Orbit(factor, primitive, u, zp).value, Orbit(factor, primitive, v, zp).value)
    decreases u - s
  {
    if s < u {
      var s1, t1 := s + 1, t + 1;
      OrbitNext(factor, primitive, s, s1, t, t1, zp);
      if Orbit(factor, primitive, s1, zp).Ok? {
        OrbitRepeats(factor, primitive, s1, t1, u, v, zp);
      } else {
        OrbitStuck(factor, primitive, s1, u, zp);
        OrbitStuck(factor, primitive, t1, v, zp);
      }
    }
  }

  /** A power that is not reached leaves every later one unreached. */
  lemma {:induction false} OrbitStuck(factor: Poly, primitive: Poly, j: nat, k: nat, zp: nat)
    requires zp > 1 && Reduced(factor, zp) && Reduced(primitive, zp) && j <= k
    requires !Orbit(factor, primitive, j, zp).Ok?
    ensures !Orbit(factor, primitive, k, zp).Ok?
    decreases k - j
  {
    if j < k {
      var j1 := j + 1;
      OrbitFails(factor, primitive, j, j1, zp);
      OrbitStuck(factor, primitive, j1, k, zp);
    }
  }

  /** Equality of polynomials is transitive. */
  lemma EqualsTransitive(p: Poly, q: Poly, r: Poly)
    requires Equals(p, q) && Equals(q, r)
    ensures Equals(p, r)
  {
    EqualsIffSame(p, q);
    EqualsIffSame(q, r);
    EqualsIffSame(p, r);
  }

  /** The coefficients below d read as a number in base Zp. */
  function ResidueCode(p: Poly, d: nat, zp: nat): nat
  {
    ConsecutiveGenerator.Index(p, 0, d, zp)
  }

  /** The reading of a reduced polynomial from c on is below Zp^(d - c). */
  lemma {:induction false} CodeBound(p: Poly, c: nat, d: nat, zp: nat)
    requires zp > 1 && Reduced(p, zp) && c <= d
    ensures ConsecutiveGenerator.Index(p, c, d, zp) < Pow(zp, d - c)
    decreases d - c
  {
    if c < d {
      CodeBound(p, c + 1, d, zp);
      ConsecutiveGenerator.DigitBound(Coef(p, c), ConsecutiveGenerator.Index(p, c + 1, d, zp), Pow(zp, d - c - 1), zp);
    }
  }

  /** Reduced polynomials with the same reading from c on agree on the
      coefficients c .. d - 1. */
  lemma {:induction false} CodeInjective(p: Poly, q: Poly, c: nat, d: nat, zp: nat)
    requires zp > 1 && Reduced(p, zp) && Reduced(q, zp) && c <= d
    requires ConsecutiveGenerator.Index(p, c, d, zp) == ConsecutiveGenerator.Index(q, c, d, zp)
    ensures forall i: nat :: c <= i < d ==> Coef(p, i) == Coef(q, i)
    decreases d - c
  {
    if c < d {
      var n := ConsecutiveGenerator.Index(p, c, d, zp);
      var xp, xq := ConsecutiveGenerator.Index(p, c + 1, d, zp), ConsecutiveGenerator.Index(q, c + 1, d, zp);
      ProductCommutes(zp, xp);
      ProductCommutes(zp, xq);
      DivModUnique(n, zp, xp, Coef(p, c));
      DivModUnique(n, zp, xq, Coef(q, c));
      CodeInjective(p, q, c + 1, d, zp);
    }
  }

  /** A remainder modulo a factor of degree d: Zero or of degree below d. */
  predicate Residue(p: Poly, d: nat)
  {
    Equals(p, Zero) || Deg(p) < d
  }

  /** Two reduced residues with the same reading are equal. */
  lemma ResidueCodeInjective(p: Poly, q: Poly, d: nat, zp: nat)
    requires zp > 1 && Reduced(p, zp) && Reduced(q, zp) && Residue(p, d) && Residue(q, d)
    ensures ResidueCode(p, d, zp) == ResidueCode(q, d, zp) ==> Equals(p, q)
  {
    if ResidueCode(p, d, zp) == ResidueCode(q, d, zp) {
      CodeInjective(p, q, 0, d, zp);
      EqualsZero(p);
      EqualsZero(q);
      forall i: nat
        ensures Coef(p, i) == Coef(q, i)
      {
        if i >= d {
          assert Coef(p, i) == 0 && Coef(q, i) == 0;
        }
      }
      EqualsIffSame(p, q);
    }
  }

  /** The reading of the k-th power, 0 when it is not reached. */
  function OrbitCode(factor: Poly, primitive: Poly, k: nat, zp: nat): (c: nat)
    requires zp > 1 && Reduced(factor, zp) && Reduced(primitive, zp)
    ensures c < Residues(factor, zp)
  {
    var e := Orbit(factor, primitive, k, zp);
    if e.Ok? then
      CodeBound(e.value, 0, Deg(factor), zp);
      PowBySumsIsPow(zp, Deg(factor));
      ResidueCode(e.value, Deg(factor), zp)
    else 0
  }

  /** Two reached powers with the same reading are equal. */
  lemma OrbitCodeEqual(factor: Poly, primitive: Poly, s: nat, t: nat, zp: nat)
    requires zp > 1 && Reduced(factor, zp) && Reduced(primitive, zp)
    requires Orbit(factor, primitive, s, zp).Ok? && Orbit(factor, primitive, t, zp).Ok?
    requires s > 0 || Deg(factor) > 0
    requires t > 0 || Deg(factor) > 0
    requires OrbitCode(factor, primitive, s, zp) == OrbitCode(factor, primitive, t, zp)
    ensures Equals(Orbit(factor, primitive, s, zp).value, Orbit(factor, primitive, t, zp).value)
  {
    assert Deg(One) == 0;
    ResidueCodeInjective(Orbit(factor, primitive, s, zp).value, Orbit(factor, primitive, t, zp).value, Deg(factor), zp);
  }

  /** Among the readings of powers 1 .. k, more than there are residues,
      two agree. */
  lemma CodeCollision(factor: Poly, primitive: Poly, k: nat, zp: nat) returns (s: nat, t: nat)
    requires zp > 1 && Reduced(factor, zp) && Reduced(primitive, zp) && k > Residues(factor, zp)
    ensures 1 <= s < t <= k && OrbitCode(factor, primitive, s, zp) == OrbitCode(factor, primitive, t, zp)
  {
    var p, q := RepeatedCode(factor, primitive, k, zp);
    s, t := p + 1, q + 1;
    OrbitCodeAt(factor, primitive, k, p, s, zp);
    OrbitCodeAt(factor, primitive, k, q, t, zp);
  }

  /** Entry j of the readings is that of power j + 1. */
  lemma OrbitCodeAt(factor: Poly, primitive: Poly, k: nat, j: nat, j1: nat, zp: nat)
    requires zp > 1 && Reduced(factor, zp) && Reduced(primitive, zp) && j < k && j1 == j + 1
    ensures OrbitCodes(factor, primitive, k, zp)[j] == OrbitCode(factor, primitive, j1, zp)
  {
  }

  /** The pigeonhole principle applied to the readings of powers 1 .. k. */
  lemma RepeatedCode(factor: Poly, primitive: Poly, k: nat, zp: nat) returns (p: nat, q: nat)
    requires zp > 1 && Reduced(factor, zp) && Reduced(primitive, zp) && k > Residues(factor, zp)
    ensures p < q < k && OrbitCodes(factor, primitive, k, zp)[p] == OrbitCodes(factor, primitive, k, zp)[q]
  {
    var codes := OrbitCodes(factor, primitive, k, zp);
    p, q := Pigeonhole(codes, Residues(factor, zp));
  }

  /** The readings of powers 1 .. k. */
  function OrbitCodes(factor: Poly, primitive: Poly, k: nat, zp: nat): (cs: seq<nat>)
    requires zp > 1 && Reduced(factor, zp) && Reduced(primitive, zp)
    ensures |cs| == k
    ensures forall j :: 0 <= j < k ==> cs[j] == OrbitCode(factor, primitive, j + 1, zp) && cs[j] < Residues(factor, zp)
  {
    seq(k, j requires 0 <= j => OrbitCode(factor, primitive, j + 1, zp))
  }

  /** Among the reached powers 1 .. k, more than there are residues, two
      are equal. */
  lemma OrbitCollision(factor: Poly, primitive: Poly, k: nat, zp: nat) returns (s: nat, t: nat)
    requires zp > 1 && Reduced(factor, zp) && Reduced(primitive, zp)
    requires k > Residues(factor, zp) && Orbit(factor, primitive, k, zp).Ok?
    ensures 1 <= s < t <= k
    ensures Orbit(factor, primitive, s, zp).Ok? && Orbit(factor, primitive, t, zp).Ok?
    ensures Equals(Orbit(factor, primitive, s, zp).value, Orbit(factor, primitive, t, zp).value)
  {
    s, t := CodeCollision(factor, primitive, k, zp);
    OrbitReached(factor, primitive, k, s, zp);
    OrbitReached(factor, primitive, k, t, zp);
    OrbitCodeEqual(factor, primitive, s, t, zp);
  }

  /** A return to One after some k >= 1 steps is matched by one within
      Zp^deg(factor) steps: among more reached powers than residues two
      agree (pigeonhole), and the powers repeat from there on, so One comes
      sooner. */
  lemma {:induction false} EarlyOne(factor: Poly, primitive: Poly, k: nat, zp: nat) returns (k': nat)
    requires zp > 1 && Reduced(factor, zp) && Reduced(primitive, zp) && k >= 1
    requires Orbit(factor, primitive, k, zp).Ok? && Equals(Orbit(factor, primitive, k, zp).value, One)
    ensures 1 <= k' <= Residues(factor, zp)
    ensures Orbit(factor, primitive, k', zp).Ok? && Equals(Orbit(factor, primitive, k', zp).value, One)
    decreases k
  {
    if k <= Residues(factor, zp) {
      return k;
    }
    var s, t := OrbitCollision(factor, primitive, k, zp);
    var u := s + (k - t);
    OrbitRepeats(factor, primitive, s, t, u, k, zp);
    EqualsTransitive(Orbit(factor, primitive, u, zp).value, Orbit(factor, primitive, k, zp).value, One);
    k' := EarlyOne(factor, primitive, u, zp);
  }

  /** Among the powers 0 .. Zp^deg(factor), all reached, two are equal when
      the factor has positive degree. */
  lemma FirstCollision(factor: Poly, primitive: Poly, zp: nat) returns (s: nat, t: nat)
    requires zp > 1 && Reduced(factor, zp) && Reduced(primitive, zp) && Deg(factor) > 0
    requires forall j :: 1 <= j <= Residues(factor, zp) ==> Orbit(factor, primitive, j, zp).Ok?
    ensures s < t <= Residues(factor, zp)
    ensures Orbit(factor, primitive, s, zp).Ok? && Orbit(factor, primitive, t, zp).Ok?
    ensures Equals(Orbit(factor, primitive, s, zp).value, Orbit(factor, primitive, t, zp).value)
  {
    var n := Residues(factor, zp);
    var codes := seq(n + 1, j requires 0 <= j => OrbitCode(factor, primitive, j, zp));
    s, t := Pigeonhole(codes, n);
    OrbitCodeEqual(factor, primitive, s, t, zp);
  }

  /** With every power up to Zp^deg(factor) reached, a factor of positive
      degree lets every further power be reached: two of the first
      Zp^deg(factor) + 1 agree and the powers repeat from there on. */
  lemma {:induction false} OrbitTotal(factor: Poly, primitive: Poly, k: nat, zp: nat)
    requires zp > 1 && Reduced(factor, zp) && Reduced(primitive, zp) && Deg(factor) > 0
    requires forall j :: 1 <= j <= Residues(factor, zp) ==> Orbit(factor, primitive, j, zp).Ok?
    ensures Orbit(factor, primitive, k, zp).Ok?
    decreases k
  {
    if k > Residues(factor, zp) {
      var s, t := FirstCollision(factor, primitive, zp);
      var u := s + (k - t);
      OrbitTotal(factor, primitive, u, zp);
      OrbitRepeats(factor, primitive, s, t, u, k, zp);
    }
  }

  /** The Zp^deg(factor) bound of BuildMultGroup only cuts off loops that
      never end: when it runs out, no power of primitive with exponent
      k >= 1 reduces to One, and for a factor of positive degree every such
      power is reached, so the source's do/while would go on forever. */
  lemma NoReturnToOneForever(factor: Poly, primitive: Poly, zp: nat)
    requires zp > 1 && Reduced(factor, zp) && Reduced(primitive, zp)
    ensures MultGroup(factor, primitive, zp) == Err(NoReturnToOne) ==>
              forall k :: k >= 1 && Orbit(factor, primitive, k, zp).Ok? ==>
                !Equals(Orbit(factor, primitive, k, zp).value, One)
    ensures MultGroup(factor, primitive, zp) == Err(NoReturnToOne) && Deg(factor) > 0 ==>
              forall k :: Orbit(factor, primitive, k, zp).Ok?
  {
    if MultGroup(factor, primitive, zp) == Err(NoReturnToOne) {
      assert AllReduced([One], zp);
      NoReturnFrom(factor, primitive, [One], Residues(factor, zp), 1 + Residues(factor, zp), zp);
      forall k | k >= 1 && Orbit(factor, primitive, k, zp).Ok?
        ensures !Equals(Orbit(factor, primitive, k, zp).value, One)
      {
        if Equals(Orbit(factor, primitive, k, zp).value, One) {
          var k' := EarlyOne(factor, primitive, k, zp);
        }
      }
      if Deg(factor) > 0 {
        forall k
          ensures Orbit(factor, primitive, k, zp).Ok?
        {
          OrbitTotal(factor, primitive, k, zp);
        }
      }
    }
  }
}
