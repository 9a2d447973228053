/** The searches and factories of src/algebra/GaloisFieldExtension.h that
    drive a polynomial generator or check their inputs: `FindIrreducible`,
    `FindAllIrreducibles`, `FindPrimitive`, the two `Build` overloads and the
    two `BuildByPrimitive` overloads. The generator is the consecutive one;
    its state is the pair (last polynomial, end flag). */
module FieldSearch {
  import opened Arith
  import Modular
  import opened Wrappers
  import opened Polynomials
  import opened PolyPower
  import opened ConsecutiveGenerator
  import opened GaloisField
  import opened Primitivity
  import opened IrreducibilityTests

  /** A generator state: before the first call, or a counter state. */
  predicate Ready(last: Poly, deg: nat, zp: nat)
  {
    last == [] || IsState(last, deg, zp)
  }

  /** One call of the generator from state last, as `Generate` performs it. */
  function Advance(last: Poly, deg: nat, zp: nat): (r: (Poly, bool))
    requires zp > 1 && Ready(last, deg, zp)
    ensures IsState(r.0, deg, zp)
  {
    if last == [] then (Start(deg, zp), false) else Carry(last, 0, deg, zp)
  }

  /** How many calls are left before the end flag goes up (one more before
      the first call). */
  function Remaining(last: Poly, endReached: bool, deg: nat, zp: nat): nat
    requires zp > 1 && Ready(last, deg, zp)
  {
    if endReached then 0
    else if last == [] then Count(deg, zp) + 1
    else
      IndexBound(last, 0, deg, zp);
      Count(deg, zp) - Index(last, 0, deg, zp)
  }

  /** Every call brings the end flag closer. */
  lemma AdvanceProgress(last: Poly, deg: nat, zp: nat)
    requires zp > 1 && Ready(last, deg, zp)
    ensures Remaining(Advance(last, deg, zp).0, Advance(last, deg, zp).1, deg, zp) < Remaining(last, false, deg, zp)
  {
    if last == [] {
      StartIndex(0, deg, zp);
    } else {
      CarryIndex(last, 0, deg, zp);
      IndexBound(last, 0, deg, zp);
    }
  }

  /** What a search returns, with the generator state it leaves behind. */
  datatype Outcome<T> = Outcome(result: Result<T>, last: Poly, endReached: bool)

  // ----- FindIrreducible -----

  /** The loop of `FindIrreducible`: while the end flag is down, the next
      candidate is generated and the first one that passes
      `TestIrreducibility` is returned; a raised flag means Exhausted. */
  ghost function IrreducibleFrom(last: Poly, endReached: bool, deg: nat, zp: nat): (o: Outcome<Poly>)
    requires zp > 1 && Ready(last, deg, zp)
    ensures Ready(o.last, deg, zp)
    ensures o.result.Ok? ==> IsState(o.result.value, deg, zp) && Irreducibility(o.result.value, zp) == Ok(true)
    decreases Remaining(last, endReached, deg, zp)
  {
    if endReached then Outcome(Err(Exhausted), last, endReached)
    else
      var next := Advance(last, deg, zp);
      AdvanceProgress(last, deg, zp);
      var t := Irreducibility(next.0, zp);
      if t.Err? then Outcome(Err(t.error), next.0, next.1)
      else if t.value then Outcome(Ok(next.0), next.0, next.1)
      else IrreducibleFrom(next.0, next.1, deg, zp)
  }

  /** x + randmod(draw) for Deg = 1, where draw is the random number drawn. */
  function RandomLinear(draw: int, zp: nat): (p: Poly)
    requires zp > 1
    ensures Reduced(p, zp) && |p| == 2 && p[1] == 1
  {
    ModOfSmall(1, zp);
    Modular.Normalize([Modular.Mod(draw, zp), 1], zp)
  }

  /** `FindIrreducible(generator)`: a random monic linear polynomial for
      Deg = 1, the loop otherwise. */
  ghost function FoundIrreducible(last: Poly, endReached: bool, deg: nat, zp: nat, draw: int): (o: Outcome<Poly>)
    requires zp > 1 && Ready(last, deg, zp)
    ensures Ready(o.last, deg, zp)
    ensures o.result.Ok? ==> Reduced(o.result.value, zp) && Deg(o.result.value) == deg
  {
    if deg == 1 then Outcome(Ok(RandomLinear(draw, zp)), last, endReached)
    else IrreducibleFrom(last, endReached, deg, zp)
  }

  method FindIrreducible(gen: ConsecutivePolynomialGenerator, draw: int) returns (res: Result<Poly>)
    requires gen.Valid()
    modifies gen
    ensures gen.Valid()
    ensures Outcome(res, gen.last, gen.endReached) == FoundIrreducible(old(gen.last), old(gen.endReached), gen.deg, gen.zp, draw)
  {
    if gen.deg == 1 {
      return Ok(RandomLinear(draw, gen.zp));
    }
    while !gen.End()
      invariant gen.Valid()
      invariant IrreducibleFrom(gen.last, gen.endReached, gen.deg, gen.zp) ==
                IrreducibleFrom(old(gen.last), old(gen.endReached), gen.deg, gen.zp)
      decreases Remaining(gen.last, gen.endReached, gen.deg, gen.zp)
    {
      AdvanceProgress(gen.last, gen.deg, gen.zp);
      var candidate := gen.Generate();
      var t := TestIrreducibility(candidate, gen.zp);
      if t.Err? {
        return Err(t.error);
      }
      if t.value {
        return Ok(candidate);
      }
    }
    return Err(Exhausted);
  }

  /** The state before call k + 1 of a fresh generator is Run(k), and the
      call moves it to Run(k + 1), or raises the flag and returns x^Deg
      after the last state. */
  lemma AdvanceRun(k: nat, deg: nat, zp: nat)
    requires zp > 1 && k < Count(deg, zp)
    ensures k + 1 < Count(deg, zp) ==> Advance(Run(k, deg, zp), deg, zp) == (Run(k + 1, deg, zp), false)
    ensures k + 1 == Count(deg, zp) ==> Advance(Run(k, deg, zp), deg, zp) == (Start(deg, zp), true)
  {
    if k + 1 < Count(deg, zp) {
      RunIndex(k + 1, deg, zp);
      assert Run(k + 1, deg, zp) == Call(k, deg, zp).0;
    } else {
      WrapsAround(deg, zp);
    }
  }

  /** The states a fresh generator still visits after Run(k): the later
      ones, and x^Deg again when the flag goes up. */
  ghost predicate StillVisited(v: Poly, k: nat, deg: nat, zp: nat)
  {
    IsState(v, deg, zp) && (Index(v, 0, deg, zp) > k || Index(v, 0, deg, zp) == 0)
  }

  /** A state v of index k + 1 is Run(k + 1); one of index 0 is x^Deg. */
  lemma StateAt(v: Poly, k: nat, deg: nat, zp: nat)
    requires zp > 1 && IsState(v, deg, zp)
    ensures Index(v, 0, deg, zp) < Count(deg, zp)
    ensures Index(v, 0, deg, zp) == k ==> v == Run(k, deg, zp)
    ensures Index(v, 0, deg, zp) == 0 ==> v == Start(deg, zp)
  {
    RunCovers(v, deg, zp);
  }

  /** One call of the search: Exhausted after it means the candidate
      failed the test and the rest of the search ran out too. */
  lemma ExhaustedStep(last: Poly, deg: nat, zp: nat)
    requires zp > 1 && Ready(last, deg, zp) && IrreducibleFrom(last, false, deg, zp).result == Err(Exhausted)
    ensures Irreducibility(Advance(last, deg, zp).0, zp) == Ok(false)
    ensures IrreducibleFrom(Advance(last, deg, zp).0, Advance(last, deg, zp).1, deg, zp).result == Err(Exhausted)
  {
  }

  /** A state still visited after Run(k) is the next one or one visited
      after it; after the last state only x^Deg is left. */
  lemma VisitedSplit(v: Poly, k: nat, deg: nat, zp: nat)
    requires zp > 1 && k < Count(deg, zp) && StillVisited(v, k, deg, zp)
    ensures k + 1 < Count(deg, zp) ==> v == Run(k + 1, deg, zp) || StillVisited(v, k + 1, deg, zp)
    ensures k + 1 == Count(deg, zp) ==> v == Start(deg, zp)
  {
    StateAt(v, k + 1, deg, zp);
  }

  lemma {:induction false} ExhaustedFrom(k: nat, deg: nat, zp: nat)
    requires zp > 1 && k < Count(deg, zp)
    requires IrreducibleFrom(Run(k, deg, zp), false, deg, zp).result == Err(Exhausted)
    ensures forall v :: StillVisited(v, k, deg, zp) ==> Irreducibility(v, zp) == Ok(false)
    decreases Count(deg, zp) - k
  {
    AdvanceRun(k, deg, zp);
    ExhaustedStep(Run(k, deg, zp), deg, zp);
    if k + 1 < Count(deg, zp) {
      ExhaustedFrom(k + 1, deg, zp);
    }
    forall v | StillVisited(v, k, deg, zp)
      ensures Irreducibility(v, zp) == Ok(false)
    {
      VisitedSplit(v, k, deg, zp);
    }
  }

  /** A fresh generator (Deg >= 2) ends the search with Exhausted only when
      no monic polynomial of degree Deg passes `TestIrreducibility`. */
  lemma ExhaustedMeansNoneIrreducible(deg: nat, zp: nat)
    requires zp > 1 && deg >= 2
    requires FoundIrreducible([], false, deg, zp, 0).result == Err(Exhausted)
    ensures forall v :: IsState(v, deg, zp) ==> Irreducibility(v, zp) == Ok(false)
  {
    AdvanceProgress([], deg, zp);
    assert Advance([], deg, zp) == (Run(0, deg, zp), false);
    ExhaustedFrom(0, deg, zp);
    forall v | IsState(v, deg, zp)
      ensures Irreducibility(v, zp) == Ok(false)
    {
      StateAt(v, 0, deg, zp);
      assert StillVisited(v, 0, deg, zp);
    }
  }

  // ----- FindAllIrreducibles -----

  /** The loop of `FindAllIrreducibles` from state (last, endReached), with
      the list found so far: every candidate generated before the end flag
      goes up is tested, and the ones that pass are appended. */
  ghost function CollectFrom(last: Poly, endReached: bool, found: seq<Poly>, deg: nat, zp: nat): (o: Outcome<seq<Poly>>)
    requires zp > 1 && Ready(last, deg, zp)
    decreases Remaining(last, endReached, deg, zp)
  {
    if endReached then Outcome(Ok(found), last, endReached)
    else
      var next := Advance(last, deg, zp);
      AdvanceProgress(last, deg, zp);
      var t := Irreducibility(next.0, zp);
      if t.Err? then Outcome(Err(t.error), next.0, next.1)
      else CollectFrom(next.0, next.1, Kept(found, next.0, zp), deg, zp)
  }

  /** `FindAllIrreducibles(generator)`: the consecutive generator supports
      its end, so the loop runs. */
  method FindAllIrreducibles(gen: ConsecutivePolynomialGenerator) returns (res: Result<seq<Poly>>)
    requires gen.Valid()
    modifies gen
    ensures gen.Valid()
    ensures Outcome(res, gen.last, gen.endReached) == CollectFrom(old(gen.last), old(gen.endReached), [], gen.deg, gen.zp)
  {
    var found: seq<Poly> := [];
    while !gen.End()
      invariant gen.Valid()
      invariant CollectFrom(gen.last, gen.endReached, found, gen.deg, gen.zp) ==
                CollectFrom(old(gen.last), old(gen.endReached), [], gen.deg, gen.zp)
      decreases Remaining(gen.last, gen.endReached, gen.deg, gen.zp)
    {
      AdvanceProgress(gen.last, gen.deg, gen.zp);
      var candidate := gen.Generate();
      var t := TestIrreducibility(candidate, gen.zp);
      if t.Err? {
        return Err(t.error);
      }
      if t.value {
        found := found + [candidate];
      }
    }
    return Ok(found);
  }

  /** found, with v appended when v passes the test. */
  ghost function Kept(found: seq<Poly>, v: Poly, zp: nat): seq<Poly>
    requires zp > 1 && Reduced(v, zp)
  {
    if Irreducibility(v, zp) == Ok(true) then found + [v] else found
  }

  lemma CollectStep(last: Poly, found: seq<Poly>, deg: nat, zp: nat)
    requires zp > 1 && Ready(last, deg, zp) && Irreducibility(Advance(last, deg, zp).0, zp).Ok?
    ensures CollectFrom(last, false, found, deg, zp) ==
              CollectFrom(Advance(last, deg, zp).0, Advance(last, deg, zp).1, Kept(found, Advance(last, deg, zp).0, zp), deg, zp)
  {
  }

  /** The states still visited after Run(k), one call further on. */
  lemma VisitedNext(v: Poly, k: nat, deg: nat, zp: nat)
    requires zp > 1 && k < Count(deg, zp)
    ensures k + 1 < Count(deg, zp) ==>
              (StillVisited(v, k, deg, zp) <==> v == Run(k + 1, deg, zp) || StillVisited(v, k + 1, deg, zp))
    ensures k + 1 == Count(deg, zp) ==> (StillVisited(v, k, deg, zp) <==> v == Start(deg, zp))
  {
    if k + 1 < Count(deg, zp) {
      RunIndex(k + 1, deg, zp);
    } else {
      StartIndex(0, deg, zp);
    }
    if StillVisited(v, k, deg, zp) {
      VisitedSplit(v, k, deg, zp);
    }
  }

  lemma KeptMembers(found: seq<Poly>, w: Poly, v: Poly, zp: nat)
    requires zp > 1 && Reduced(w, zp)
    ensures v in Kept(found, w, zp) <==> v in found || (v == w && Irreducibility(w, zp) == Ok(true))
  {
  }

  lemma {:induction false} CollectedFrom(k: nat, found: seq<Poly>, deg: nat, zp: nat)
    requires zp > 1 && k < Count(deg, zp)
    ensures CollectFrom(Run(k, deg, zp), false, found, deg, zp).result.Ok? ==>
              forall v :: v in CollectFrom(Run(k, deg, zp), false, found, deg, zp).result.value <==>
                v in found || (StillVisited(v, k, deg, zp) && Irreducibility(v, zp) == Ok(true))
    decreases Count(deg, zp) - k
  {
    AdvanceRun(k, deg, zp);
    var next := Advance(Run(k, deg, zp), deg, zp);
    if Irreducibility(next.0, zp).Ok? {
      CollectStep(Run(k, deg, zp), found, deg, zp);
      var found' := Kept(found, next.0, zp);
      if k + 1 < Count(deg, zp) {
        CollectedFrom(k + 1, found', deg, zp);
      }
      forall v
        ensures v in found' || (k + 1 < Count(deg, zp) && StillVisited(v, k + 1, deg, zp) && Irreducibility(v, zp) == Ok(true)) <==>
                  v in found || (StillVisited(v, k, deg, zp) && Irreducibility(v, zp) == Ok(true))
      {
        VisitedNext(v, k, deg, zp);
        KeptMembers(found, next.0, v, zp);
      }
    }
  }

  /** From a fresh generator the list holds exactly the monic polynomials of
      degree Deg that pass `TestIrreducibility` (x^Deg, tested again when
      the flag goes up, is listed twice when it passes). */
  lemma AllIrreduciblesListed(deg: nat, zp: nat)
    requires zp > 1
    ensures CollectFrom([], false, [], deg, zp).result.Ok? ==>
              forall v :: v in CollectFrom([], false, [], deg, zp).result.value <==>
                IsState(v, deg, zp) && Irreducibility(v, zp) == Ok(true)
  {
    assert Advance([], deg, zp) == (Run(0, deg, zp), false);
    if Irreducibility(Run(0, deg, zp), zp).Ok? {
      CollectStep([], [], deg, zp);
      var found := Kept([], Run(0, deg, zp), zp);
      CollectedFrom(0, found, deg, zp);
      forall v
        ensures v in found || (StillVisited(v, 0, deg, zp) && Irreducibility(v, zp) == Ok(true)) <==>
                  IsState(v, deg, zp) && Irreducibility(v, zp) == Ok(true)
      {
        if IsState(v, deg, zp) {
          StateAt(v, 0, deg, zp);
        }
      }
    }
  }

  // ----- FindPrimitive -----

  /** A generator polynomial with coefficient Deg set to 0, as
      `primitive.set(Deg, 0)` leaves it: a polynomial of degree below Deg. */
  function Candidate(v: Poly, deg: nat, zp: nat): (c: Poly)
    requires zp > 1 && IsState(v, deg, zp)
    ensures Reduced(c, zp) && |c| == deg + 1 && c[deg] == 0
    ensures forall i :: 0 <= i < deg ==> c[i] == v[i]
  {
    Set(v, deg, 0, zp)
  }

  /** The do/while of `FindPrimitive` after the reset: each round takes the
      next generator polynomial with coefficient Deg set to 0 and stops at
      the first candidate that passes `TestPrimitivity`. The loop never looks
      at the end flag: after `fuel` rounds without success the model reports
      Diverges where the source would go on for ever. */
  function PrimitiveFrom(last: Poly, endReached: bool, factor: Poly, deg: nat, zp: nat, fuel: nat): (o: Outcome<Poly>)
    requires zp > 1 && deg > 0 && IsState(last, deg, zp) && Reduced(factor, zp)
    ensures IsState(o.last, deg, zp)
    ensures o.result.Ok? ==>
              Reduced(o.result.value, zp) && |o.result.value| == deg + 1 && o.result.value[deg] == 0 &&
              Primitive(o.result.value, factor, zp, deg) == Ok(true)
    decreases fuel
  {
    if fuel == 0 then Outcome(Err(Diverges), last, endReached)
    else
      var next := Carry(last, 0, deg, zp);
      var candidate := Candidate(next.0, deg, zp);
      var t := Primitive(candidate, factor, zp, deg);
      if t.Err? then Outcome(Err(t.error), next.0, next.1)
      else if t.value then Outcome(Ok(candidate), next.0, next.1)
      else PrimitiveFrom(next.0, next.1, factor, deg, zp, fuel - 1)
  }

  /** `FindPrimitive(generator, factor)`: the default primitive x when it
      passes `TestPrimitivity` modulo factor; otherwise the generator is
      reset and searched, for one whole cycle of Zp^Deg calls. */
  function FoundPrimitive(last: Poly, endReached: bool, factor: Poly, deg: nat, zp: nat): (o: Outcome<Poly>)
    requires zp > 1 && deg > 0 && Ready(last, deg, zp) && Reduced(factor, zp)
    ensures Ready(o.last, deg, zp)
    ensures o.result.Ok? ==> Reduced(o.result.value, zp) && Primitive(o.result.value, factor, zp, deg) == Ok(true)
    ensures o.result.Ok? ==> o.result.value == X || (|o.result.value| == deg + 1 && o.result.value[deg] == 0)
  {
    var t := Primitive(X, factor, zp, deg);
    if t.Err? then Outcome(Err(t.error), last, endReached)
    else if t.value then Outcome(Ok(X), last, endReached)
    else PrimitiveFrom(Start(deg, zp), false, factor, deg, zp, Count(deg, zp))
  }

  method FindPrimitive(gen: ConsecutivePolynomialGenerator, factor: Poly) returns (res: Result<Poly>)
    requires gen.Valid() && gen.deg > 0 && Reduced(factor, gen.zp) && Pow(gen.zp, gen.deg) <= Word
    modifies gen
    ensures gen.Valid()
    ensures Outcome(res, gen.last, gen.endReached) ==
              FoundPrimitive(old(gen.last), old(gen.endReached), factor, gen.deg, gen.zp)
  {
    var t := TestPrimitivity(X, factor, gen.zp, gen.deg);
    if t.Err? {
      return Err(t.error);
    }
    if t.value {
      return Ok(X);
    }
    gen.Reset();
    res := SearchFromReset(gen, factor);
  }

  /** The do/while of `FindPrimitive`, from the reset generator. */
  method SearchFromReset(gen: ConsecutivePolynomialGenerator, factor: Poly) returns (res: Result<Poly>)
    requires gen.Valid() && gen.deg > 0 && Reduced(factor, gen.zp) && Pow(gen.zp, gen.deg) <= Word
    requires gen.last == Start(gen.deg, gen.zp) && !gen.endReached
    modifies gen
    ensures gen.Valid()
    ensures Outcome(res, gen.last, gen.endReached) ==
              PrimitiveFrom(Start(gen.deg, gen.zp), false, factor, gen.deg, gen.zp, Count(gen.deg, gen.zp))
  {
    ghost var target := PrimitiveFrom(gen.last, gen.endReached, factor, gen.deg, gen.zp, Count(gen.deg, gen.zp));
    var fuel := Count(gen.deg, gen.zp);
    while fuel > 0
      invariant gen.Valid() && IsState(gen.last, gen.deg, gen.zp)
      invariant PrimitiveFrom(gen.last, gen.endReached, factor, gen.deg, gen.zp, fuel) == target
    {
      var stop;
      stop, res := PrimitiveRound(gen, factor, fuel, target);
      if stop {
        return;
      }
      fuel := fuel - 1;
    }
    return Err(Diverges);
  }

  /** One round of the do/while of `FindPrimitive`: the next generator
      polynomial, coefficient Deg cleared, put to `TestPrimitivity`. */
  method PrimitiveRound(gen: ConsecutivePolynomialGenerator, factor: Poly, fuel: nat, ghost target: Outcome<Poly>)
    returns (stop: bool, res: Result<Poly>)
    requires gen.Valid() && gen.deg > 0 && IsState(gen.last, gen.deg, gen.zp)
    requires Reduced(factor, gen.zp) && Pow(gen.zp, gen.deg) <= Word && fuel > 0
    requires PrimitiveFrom(gen.last, gen.endReached, factor, gen.deg, gen.zp, fuel) == target
    modifies gen
    ensures gen.Valid() && IsState(gen.last, gen.deg, gen.zp)
    ensures stop ==> Outcome(res, gen.last, gen.endReached) == target
    ensures !stop ==> PrimitiveFrom(gen.last, gen.endReached, factor, gen.deg, gen.zp, fuel - 1) == target
  {
    var next := gen.Generate();
    var candidate := Set(next, gen.deg, 0, gen.zp);
    var p := TestPrimitivity(candidate, factor, gen.zp, gen.deg);
    if p.Err? {
      return true, Err(p.error);
    }
    if p.value {
      return true, Ok(candidate);
    }
    return false, Err(Diverges);
  }

  /** The search from (last, endReached) with `fuel` rounds left runs out. */
  predicate RunsOut(last: Poly, endReached: bool, factor: Poly, deg: nat, zp: nat, fuel: nat)
    requires zp > 1 && deg > 0 && IsState(last, deg, zp) && Reduced(factor, zp)
  {
    PrimitiveFrom(last, endReached, factor, deg, zp, fuel).result == Err(Diverges)
  }

  /** One round of the search that runs out: its candidate is not primitive
      and the rounds after it run out too. */
  lemma DivergesStep(last: Poly, endReached: bool, factor: Poly, deg: nat, zp: nat, fuel: nat)
    requires zp > 1 && deg > 0 && IsState(last, deg, zp) && Reduced(factor, zp) && fuel > 0
    requires RunsOut(last, endReached, factor, deg, zp, fuel)
    ensures Rejected(Carry(last, 0, deg, zp).0, factor, deg, zp)
    ensures RunsOut(Carry(last, 0, deg, zp).0, Carry(last, 0, deg, zp).1, factor, deg, zp, fuel - 1)
  {
    var next := Carry(last, 0, deg, zp);
    var t := Primitive(Candidate(next.0, deg, zp), factor, zp, deg);
    assert t.Ok? && !t.value;
  }

  /** The candidate made from v fails `TestPrimitivity` modulo factor. */
  predicate Rejected(v: Poly, factor: Poly, deg: nat, zp: nat)
    requires zp > 1 && deg > 0 && IsState(v, deg, zp) && Reduced(factor, zp)
  {
    Primitive(Candidate(v, deg, zp), factor, zp, deg) == Ok(false)
  }

  /** Every state the search reaches after Run(k) is rejected. */
  ghost predicate RejectedFrom(k: nat, factor: Poly, deg: nat, zp: nat)
  {
    zp > 1 && deg > 0 && Reduced(factor, zp) &&
    forall v :: StillVisited(v, k, deg, zp) ==> Rejected(v, factor, deg, zp)
  }

  /** The search resumed at Run(k) with the fuel left for it runs out. */
  predicate Diverging(k: nat, endReached: bool, factor: Poly, deg: nat, zp: nat)
  {
    zp > 1 && deg > 0 && k < Count(deg, zp) && Reduced(factor, zp) &&
    RunsOut(Run(k, deg, zp), endReached, factor, deg, zp, Count(deg, zp) - k)
  }

  /** Rejection of the next state and of all states after it covers all
      states after Run(k). */
  lemma RejectedBefore(k: nat, factor: Poly, deg: nat, zp: nat)
    requires zp > 1 && deg > 0 && k + 1 < Count(deg, zp) && Reduced(factor, zp)
    requires Rejected(Run(k + 1, deg, zp), factor, deg, zp) && RejectedFrom(k + 1, factor, deg, zp)
    ensures RejectedFrom(k, factor, deg, zp)
  {
    forall v | StillVisited(v, k, deg, zp)
      ensures Rejected(v, factor, deg, zp)
    {
      VisitedSplit(v, k, deg, zp);
    }
  }

  /** After the last state only x^Deg is left to visit. */
  lemma RejectedLast(k: nat, factor: Poly, deg: nat, zp: nat)
    requires zp > 1 && deg > 0 && k + 1 == Count(deg, zp) && Reduced(factor, zp)
    requires Rejected(Start(deg, zp), factor, deg, zp)
    ensures RejectedFrom(k, factor, deg, zp)
  {
    forall v | StillVisited(v, k, deg, zp)
      ensures Rejected(v, factor, deg, zp)
    {
      VisitedSplit(v, k, deg, zp);
    }
  }

  /** The carry from Run(k) is the next state, or x^Deg with the flag up
      after the last one. */
  lemma CarryRun(k: nat, deg: nat, zp: nat)
    requires zp > 1 && k < Count(deg, zp)
    ensures k + 1 < Count(deg, zp) ==> Carry(Run(k, deg, zp), 0, deg, zp) == (Run(k + 1, deg, zp), false)
    ensures k + 1 == Count(deg, zp) ==> Carry(Run(k, deg, zp), 0, deg, zp) == (Start(deg, zp), true)
  {
    AdvanceRun(k, deg, zp);
  }

  /** A search that runs out from Run(k) rejects every state after it. */
  lemma {:induction false} DivergedFrom(k: nat, endReached: bool, factor: Poly, deg: nat, zp: nat)
    requires Diverging(k, endReached, factor, deg, zp)
    ensures RejectedFrom(k, factor, deg, zp)
    decreases Count(deg, zp) - k, 1
  {
    if k + 1 < Count(deg, zp) {
      DivergedBefore(k, endReached, factor, deg, zp);
    } else {
      DivergedLast(k, endReached, factor, deg, zp);
    }
  }

  /** `DivergedFrom` for a state that is not the last one. */
  lemma {:induction false} DivergedBefore(k: nat, endReached: bool, factor: Poly, deg: nat, zp: nat)
    requires Diverging(k, endReached, factor, deg, zp) && k + 1 < Count(deg, zp)
    ensures RejectedFrom(k, factor, deg, zp)
    decreases Count(deg, zp) - k, 0
  {
    NextRunsOut(k, endReached, factor, deg, zp);
    DivergedFrom(k + 1, false, factor, deg, zp);
    RejectedBefore(k, factor, deg, zp);
  }

  /** The round after Run(k) starts from Run(k + 1) and runs out too. */
  lemma NextRunsOut(k: nat, endReached: bool, factor: Poly, deg: nat, zp: nat)
    requires Diverging(k, endReached, factor, deg, zp) && k + 1 < Count(deg, zp)
    ensures Rejected(Run(k + 1, deg, zp), factor, deg, zp)
    ensures Diverging(k + 1, false, factor, deg, zp)
  {
    var fuel := Count(deg, zp) - k;
    DivergesStep(Run(k, deg, zp), endReached, factor, deg, zp, fuel);
    CarryRun(k, deg, zp);
    assert fuel - 1 == Count(deg, zp) - (k + 1);
  }

  /** `DivergedFrom` for the last state: the carry wraps to x^Deg. */
  lemma DivergedLast(k: nat, endReached: bool, factor: Poly, deg: nat, zp: nat)
    requires Diverging(k, endReached, factor, deg, zp) && k + 1 == Count(deg, zp)
    ensures RejectedFrom(k, factor, deg, zp)
  {
    DivergesStep(Run(k, deg, zp), endReached, factor, deg, zp, Count(deg, zp) - k);
    CarryRun(k, deg, zp);
    RejectedLast(k, factor, deg, zp);
  }

  /** A search that runs out rejected x and then ran out from the reset. */
  lemma DefaultRejected(last: Poly, endReached: bool, factor: Poly, deg: nat, zp: nat)
    requires zp > 1 && deg > 0 && Ready(last, deg, zp) && Reduced(factor, zp)
    requires FoundPrimitive(last, endReached, factor, deg, zp).result == Err(Diverges)
    ensures Primitive(X, factor, zp, deg) == Ok(false)
    ensures RunsOut(Run(0, deg, zp), false, factor, deg, zp, Count(deg, zp) - 0)
  {
    var t := Primitive(X, factor, zp, deg);
    assert t.Ok? && !t.value;
    assert Run(0, deg, zp) == Start(deg, zp);
  }

  /** A search that runs out has tried x and every polynomial of degree
      below Deg, and none of them passed `TestPrimitivity`. */
  lemma DivergesMeansNonePrimitive(last: Poly, endReached: bool, factor: Poly, deg: nat, zp: nat)
    requires zp > 1 && deg > 0 && Ready(last, deg, zp) && Reduced(factor, zp)
    requires FoundPrimitive(last, endReached, factor, deg, zp).result == Err(Diverges)
    ensures Primitive(X, factor, zp, deg) == Ok(false)
    ensures forall v :: IsState(v, deg, zp) ==> Rejected(v, factor, deg, zp)
  {
    DefaultRejected(last, endReached, factor, deg, zp);
    AllRejected(factor, deg, zp);
  }

  /** A search from the reset that runs out has rejected every state. */
  lemma AllRejected(factor: Poly, deg: nat, zp: nat)
    requires zp > 1 && deg > 0 && Reduced(factor, zp)
    requires RunsOut(Run(0, deg, zp), false, factor, deg, zp, Count(deg, zp) - 0)
    ensures forall v :: IsState(v, deg, zp) ==> Rejected(v, factor, deg, zp)
  {
    DivergedFrom(0, false, factor, deg, zp);
    forall v | IsState(v, deg, zp)
      ensures Rejected(v, factor, deg, zp)
    {
      StateAt(v, 0, deg, zp);
      assert StillVisited(v, 0, deg, zp);
    }
  }

  // ----- Build and BuildByPrimitive -----

  /** The checks of `BuildByPrimitive(factor, primitive, test_irreducibility,
      test_primitivity)`: a factor of degree below Deg is refused; a factor
      failing `TestIrreducibility` is refused when the first flag is set; a
      primitive failing `TestPrimitivity` is refused when the second flag is
      set; then the table is built. */
  ghost function BuiltByPrimitive(factor: Poly, primitive: Poly, deg: nat, zp: nat,
                                  testIrreducibility: bool, testPrimitivity: bool): (res: Result<Field>)
    requires zp > 1 && deg > 0 && Reduced(factor, zp) && Reduced(primitive, zp)
    ensures Deg(factor) < deg ==> res == Err(DegreeTooSmall)
    ensures res.Ok? ==> res.value.factor == factor && res.value.generator == primitive
    ensures res.Ok? ==> Deg(factor) >= deg && res == FieldOf(factor, primitive, zp)
    ensures res.Ok? && testIrreducibility ==> Irreducibility(factor, zp) == Ok(true)
    ensures res.Ok? && testPrimitivity ==> Primitive(primitive, factor, zp, deg) == Ok(true)
    ensures testIrreducibility && Deg(factor) >= deg && Irreducibility(factor, zp) == Ok(false) ==> res == Err(Reducible)
  {
    if Deg(factor) < deg then Err(DegreeTooSmall)
    else
      var irreducible :- if testIrreducibility then Irreducibility(factor, zp) else Ok(true);
      if !irreducible then Err(Reducible)
      else
        var primitiveOk :- if testPrimitivity then Primitive(primitive, factor, zp, deg) else Ok(true);
        if !primitiveOk then Err(NotPrimitive)
        else FieldOf(factor, primitive, zp)
  }

  method BuildByPrimitive(factor: Poly, primitive: Poly, deg: nat, zp: nat,
                          testIrreducibility: bool, testPrimitivity: bool) returns (res: Result<Field>)
    requires zp > 1 && deg > 0 && Reduced(factor, zp) && Reduced(primitive, zp) && Pow(zp, deg) <= Word
    ensures res == BuiltByPrimitive(factor, primitive, deg, zp, testIrreducibility, testPrimitivity)
  {
    if Deg(factor) < deg {
      return Err(DegreeTooSmall);
    }
    if testIrreducibility {
      var irreducible :- TestIrreducibility(factor, zp);
      if !irreducible {
        return Err(Reducible);
      }
    }
    if testPrimitivity {
      var primitiveOk :- TestPrimitivity(primitive, factor, zp, deg);
      if !primitiveOk {
        return Err(NotPrimitive);
      }
    }
    res := BuildMultGroup(factor, primitive, zp);
  }

  /** `Build(factor, primitive, test_irreducibility, test_primitivity)`: the
      same checks, except that primitivity is always checked and the last
      flag is never read. */
  ghost function Built(factor: Poly, primitive: Poly, deg: nat, zp: nat,
                       testIrreducibility: bool, testPrimitivity: bool): (res: Result<Field>)
    requires zp > 1 && deg > 0 && Reduced(factor, zp) && Reduced(primitive, zp)
    ensures res == BuiltByPrimitive(factor, primitive, deg, zp, testIrreducibility, true)
    ensures res.Ok? ==> Primitive(primitive, factor, zp, deg) == Ok(true)
  {
    BuiltByPrimitive(factor, primitive, deg, zp, testIrreducibility, true)
  }

  method Build(factor: Poly, primitive: Poly, deg: nat, zp: nat,
               testIrreducibility: bool, testPrimitivity: bool) returns (res: Result<Field>)
    requires zp > 1 && deg > 0 && Reduced(factor, zp) && Reduced(primitive, zp) && Pow(zp, deg) <= Word
    ensures res == Built(factor, primitive, deg, zp, testIrreducibility, testPrimitivity)
  {
    res := BuildByPrimitive(factor, primitive, deg, zp, testIrreducibility, true);
  }

  /** `Build(generator)`: an irreducible factor from the generator (a random
      linear one, from the draw, for Deg = 1), a primitive element for it
      from the same generator, then the table, without further checks. */
  ghost function BuiltFromGenerator(last: Poly, endReached: bool, deg: nat, zp: nat, draw: int): (o: Outcome<Field>)
    requires zp > 1 && deg > 0 && Ready(last, deg, zp)
    ensures o.result.Ok? ==> Reduced(o.result.value.factor, zp) && Reduced(o.result.value.generator, zp)
    ensures o.result.Ok? ==> deg == 1 || Irreducibility(o.result.value.factor, zp) == Ok(true)
    ensures o.result.Ok? ==> Primitive(o.result.value.generator, o.result.value.factor, zp, deg) == Ok(true)
    ensures o.result.Ok? ==> o.result == FieldOf(o.result.value.factor, o.result.value.generator, zp)
  {
    var f := FoundIrreducible(last, endReached, deg, zp, draw);
    if f.result.Err? then Outcome(Err(f.result.error), f.last, f.endReached)
    else
      var p := FoundPrimitive(f.last, f.endReached, f.result.value, deg, zp);
      if p.result.Err? then Outcome(Err(p.result.error), p.last, p.endReached)
      else Outcome(FieldOf(f.result.value, p.result.value, zp), p.last, p.endReached)
  }

  method BuildFromGenerator(gen: ConsecutivePolynomialGenerator, draw: int) returns (res: Result<Field>)
    requires gen.Valid() && gen.deg > 0 && Pow(gen.zp, gen.deg) <= Word
    modifies gen
    ensures gen.Valid()
    ensures Outcome(res, gen.last, gen.endReached) == BuiltFromGenerator(old(gen.last), old(gen.endReached), gen.deg, gen.zp, draw)
  {
    var factor :- FindIrreducible(gen, draw);
    var primitive :- FindPrimitive(gen, factor);
    res := BuildMultGroup(factor, primitive, gen.zp);
  }

  /** `BuildByPrimitive(primitive, generator, test_primitivity)`: an
      irreducible factor from the generator, then the checks with the
      irreducibility test switched off. */
  ghost function BuiltByPrimitiveFrom(primitive: Poly, last: Poly, endReached: bool, deg: nat, zp: nat,
                                      testPrimitivity: bool, draw: int): (o: Outcome<Field>)
    requires zp > 1 && deg > 0 && Ready(last, deg, zp) && Reduced(primitive, zp)
    ensures o.result.Ok? ==> Reduced(o.result.value.factor, zp) && o.result.value.generator == primitive
    ensures o.result.Ok? ==> deg == 1 || Irreducibility(o.result.value.factor, zp) == Ok(true)
    ensures o.result.Ok? && testPrimitivity ==> Primitive(primitive, o.result.value.factor, zp, deg) == Ok(true)
    ensures o.result.Ok? ==> o.result.value.generator == primitive
  {
    var f := FoundIrreducible(last, endReached, deg, zp, draw);
    if f.result.Err? then Outcome(Err(f.result.error), f.last, f.endReached)
    else Outcome(BuiltByPrimitive(f.result.value, primitive, deg, zp, false, testPrimitivity), f.last, f.endReached)
  }

  method BuildByPrimitiveFrom(primitive: Poly, gen: ConsecutivePolynomialGenerator, testPrimitivity: bool, draw: int)
    returns (res: Result<Field>)
    requires gen.Valid() && gen.deg > 0 && Reduced(primitive, gen.zp) && Pow(gen.zp, gen.deg) <= Word
    modifies gen
    ensures gen.Valid()
    ensures Outcome(res, gen.last, gen.endReached) ==
              BuiltByPrimitiveFrom(primitive, old(gen.last), old(gen.endReached), gen.deg, gen.zp, testPrimitivity, draw)
  {
    var factor :- FindIrreducible(gen, draw);
    res := BuildByPrimitive(factor, primitive, gen.deg, gen.zp, false, testPrimitivity);
  }
}
