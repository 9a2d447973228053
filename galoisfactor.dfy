/** `FactorizeByFieldElements` of src/algebra/GaloisFieldExtension.h: the
    linear factors X - e, for e the zero element and every table entry, are
    divided out of a polynomial as often as they go in; what is left, when it
    is not a constant, is recorded as one more factor of arity 1. */
module FieldFactoring {
  import opened Arith
  import opened Modular
  import opened Wrappers
  import opened Polynomials
  import opened PolyRing
  import opened PolyDivision
  import opened PolyPower
  import opened PolyGcd
  import opened PolyInverse
  import opened GaloisField
  import opened GaloisOps

  /** A list of (factor, arity) pairs. */
  type Factors = seq<(Poly, nat)>

  predicate AllFactorsReduced(fs: Factors, zp: nat)
  {
    forall j :: 0 <= j < |fs| ==> Reduced(fs[j].0, zp)
  }

  /** The product of factor^arity over the list, left to right from One. */
  function FactorProduct(fs: Factors, zp: nat): (r: Poly)
    requires zp > 1 && AllFactorsReduced(fs, zp)
    ensures Reduced(r, zp)
  {
    if |fs| == 0 then One
    else Mul(FactorProduct(fs[..|fs| - 1], zp), Power(fs[|fs| - 1].0, fs[|fs| - 1].1, zp), zp)
  }

  // ----- the inner loop: dividing one root out -----

  /** The polynomial left after dividing root out, and how often it went in. */
  datatype Stripped = Stripped(cur: Poly, arity: nat)

  /** A constant root c that shares no divisor above 1 with Zp, that is
      gcd(c, Zp) = 1 (`UnitRootGcd`). Dividing by it is always exact and
      keeps the degree, so the loop never ends (`UnitLoopsForever`). */
  predicate UnitRoot(root: Poly, zp: nat)
  {
    Deg(root) == 0 && forall d: nat :: 1 < d <= zp && Divides(d, Coef(root, 0)) ==> !Divides(d, zp)
  }

  lemma UnitRootGcd(root: Poly, zp: nat)
    requires zp > 1 && Reduced(root, zp) && UnitRoot(root, zp)
    ensures GcdSpec(Coef(root, 0) % zp, zp) == 1
  {
    var c := Coef(root, 0);
    ModOfSmall(c, zp);
    var g := GcdSpec(c, zp);
    Modular.GcdDivides(c, zp);
    GcdPositive(c, zp);
    DividesLe(g, zp);
  }

  /** The bound on divisions that do not lower the degree: Zp^(deg + 1),
      the number of reduced polynomials of degree at most deg
      (`PowBySumsIsPow`). */
  function StripFuel(cur: Poly, zp: nat): (n: nat)
    requires zp > 1
    ensures n > 0
  {
    PowBySums(zp, Deg(cur) + 1)
  }

  /** The while-loop of one root: `divide` by root while the remainder is
      Zero, counting the divisions. A division that lowers the degree goes
      on. One that keeps it (a constant root, or a Zero dividend) goes on
      too, except that the model stops with Diverges on a unit root, where
      the loop never ends, and after `fuel` such divisions. */
  function StripFrom(cur: Poly, root: Poly, arity: nat, fuel: nat, zp: nat): (res: Result<Stripped>)
    requires zp > 1 && Reduced(cur, zp) && Reduced(root, zp)
    ensures res.Ok? ==> Reduced(res.value.cur, zp) && res.value.arity >= arity
    ensures res.Err? ==> res.error in {DivisionByZero, Unsolvable, Diverges}
    ensures res.Err? && res.error == DivisionByZero ==> Equals(root, Zero)
    decreases fuel, Deg(cur)
  {
    match Division(cur, root, zp)
    case Err(e) => Err(e)
    case Ok(qr) =>
      if !Equals(qr.1, Zero) then Ok(Stripped(cur, arity))
      else if Deg(qr.0) < Deg(cur) then StripFrom(qr.0, root, arity + 1, fuel, zp)
      else if UnitRoot(root, zp) || fuel == 0 then Err(Diverges)
      else StripFrom(qr.0, root, arity + 1, fuel - 1, zp)
  }

  /** `divide` by root, then the loop of `FactorizeByFieldElements` over the
      remainders. */
  method Strip(cur: Poly, root: Poly, zp: nat) returns (res: Result<Stripped>)
    requires zp > 1 && Reduced(cur, zp) && Reduced(root, zp)
    ensures res == StripFrom(cur, root, 0, StripFuel(cur, zp), zp)
  {
    var poly := cur;
    var divRes := Divide(poly, root, zp);
    var arity := 0;
    var fuel := StripFuel(cur, zp);
    var unit := UnitRoot(root, zp);
    ghost var whole := StripFrom(cur, root, 0, fuel, zp);
    while divRes.Ok? && Equals(divRes.value.1, Zero)
      invariant Reduced(poly, zp) && divRes == Division(poly, root, zp)
      invariant StripFrom(poly, root, arity, fuel, zp) == whole
      decreases fuel, Deg(poly)
    {
      var q := divRes.value.0;
      var next := fuel;
      if Deg(q) >= Deg(poly) {
        if unit || fuel == 0 {
          StripUnfold(poly, root, arity, fuel, zp);
          return Err(Diverges);
        }
        next := fuel - 1;
      }
      StripAdvance(poly, q, root, arity, fuel, next, zp);
      arity, fuel, poly := arity + 1, next, q;
      divRes := Divide(poly, root, zp);
    }
    StripUnfold(poly, root, arity, fuel, zp);
    if divRes.Err? {
      return Err(divRes.error);
    }
    return Ok(Stripped(poly, arity));
  }

  /** An exact division that does not stop the loop moves it to the quotient. */
  lemma StripAdvance(cur: Poly, q: Poly, root: Poly, arity: nat, fuel: nat, next: nat, zp: nat)
    requires zp > 1 && Reduced(cur, zp) && Reduced(root, zp)
    requires Division(cur, root, zp).Ok? && Equals(Division(cur, root, zp).value.1, Zero)
    requires q == Division(cur, root, zp).value.0
    requires Deg(q) >= Deg(cur) ==> !UnitRoot(root, zp) && fuel > 0 && next == fuel - 1
    requires Deg(q) < Deg(cur) ==> next == fuel
    ensures Reduced(q, zp)
    ensures StripFrom(cur, root, arity, fuel, zp) == StripFrom(q, root, arity + 1, next, zp)
  {
    StripUnfold(cur, root, arity, fuel, zp);
  }

  /** One turn of `StripFrom`, case by case. */
  lemma StripUnfold(cur: Poly, root: Poly, arity: nat, fuel: nat, zp: nat)
    requires zp > 1 && Reduced(cur, zp) && Reduced(root, zp)
    ensures Division(cur, root, zp).Err? ==> StripFrom(cur, root, arity, fuel, zp) == Err(Division(cur, root, zp).error)
    ensures Division(cur, root, zp).Ok? && !Equals(Division(cur, root, zp).value.1, Zero) ==>
              StripFrom(cur, root, arity, fuel, zp) == Ok(Stripped(cur, arity))
    ensures Division(cur, root, zp).Ok? && Equals(Division(cur, root, zp).value.1, Zero) ==>
              var q := Division(cur, root, zp).value.0;
              Reduced(q, zp) &&
              (Deg(q) < Deg(cur) ==> StripFrom(cur, root, arity, fuel, zp) == StripFrom(q, root, arity + 1, fuel, zp)) &&
              (Deg(q) >= Deg(cur) && (UnitRoot(root, zp) || fuel == 0) ==> StripFrom(cur, root, arity, fuel, zp) == Err(Diverges)) &&
              (Deg(q) >= Deg(cur) && !UnitRoot(root, zp) && fuel > 0 ==>
                 StripFrom(cur, root, arity, fuel, zp) == StripFrom(q, root, arity + 1, fuel - 1, zp))
  {
  }

  /** A division with remainder Zero is a factorisation q * root. */
  lemma ExactDivision(cur: Poly, root: Poly, zp: nat)
    requires zp > 1 && Reduced(cur, zp) && Reduced(root, zp)
    requires Division(cur, root, zp).Ok? && Equals(Division(cur, root, zp).value.1, Zero)
    ensures Reduced(Division(cur, root, zp).value.0, zp)
    ensures Same(Mul(Division(cur, root, zp).value.0, root, zp), cur)
  {
    var qr := Division(cur, root, zp).value;
    DivisionCorrect(cur, root, zp);
    EqualsIffSame(qr.1, Zero);
    AddZero(Mul(qr.0, root, zp), qr.1, zp);
    SameTrans(Mul(qr.0, root, zp), Add(Mul(qr.0, root, zp), qr.1, zp), cur);
  }

  /** One more factor root in the power: if root^k * rest is q and
      q * root is cur, then root^n * rest is cur for n = k + 1. */
  lemma PowerPeel(root: Poly, k: nat, n: nat, rest: Poly, q: Poly, cur: Poly, zp: nat)
    requires zp > 1 && Reduced(root, zp) && Reduced(rest, zp) && Reduced(q, zp) && n == k + 1
    requires Same(Mul(Power(root, k, zp), rest, zp), q) && Same(Mul(q, root, zp), cur)
    ensures Same(Mul(Power(root, n, zp), rest, zp), cur)
  {
    var P := Power(root, k, zp);
    assert Power(root, n, zp) == Mul(P, root, zp);
    MulAssociates(P, root, rest, zp);
    MulCommutes(root, rest, zp);
    MulCongruent(P, P, Mul(root, rest, zp), Mul(rest, root, zp), zp);
    MulAssociates(P, rest, root, zp);
    SameTrans(Mul(Mul(P, root, zp), rest, zp), Mul(P, Mul(root, rest, zp), zp), Mul(P, Mul(rest, root, zp), zp));
    SameTrans(Mul(Mul(P, root, zp), rest, zp), Mul(P, Mul(rest, root, zp), zp), Mul(Mul(P, rest, zp), root, zp));
    MulCongruent(Mul(P, rest, zp), q, root, root, zp);
    SameTrans(Mul(Mul(P, root, zp), rest, zp), Mul(Mul(P, rest, zp), root, zp), Mul(q, root, zp));
    SameTrans(Mul(Mul(P, root, zp), rest, zp), Mul(q, root, zp), cur);
  }

  /** A loop that stopped at once left cur as it was. */
  lemma StripNone(cur: Poly, root: Poly, arity: nat, fuel: nat, zp: nat, s: Stripped)
    requires zp > 1 && Reduced(cur, zp) && Reduced(root, zp)
    requires StripFrom(cur, root, arity, fuel, zp) == Ok(s) && s.arity == arity
    ensures s.cur == cur
  {
  }

  /** A loop that went on divided exactly once first: cur is q * root and
      the loop carried on from q, with fuel' left. */
  lemma StripExact(cur: Poly, root: Poly, arity: nat, fuel: nat, zp: nat, s: Stripped) returns (q: Poly, fuel': nat)
    requires zp > 1 && Reduced(cur, zp) && Reduced(root, zp)
    requires StripFrom(cur, root, arity, fuel, zp) == Ok(s) && s.arity > arity
    ensures Reduced(q, zp) && Same(Mul(q, root, zp), cur)
    ensures StripFrom(q, root, arity + 1, fuel', zp) == Ok(s)
  {
    q := Division(cur, root, zp).value.0;
    fuel' := if Deg(q) < Deg(cur) then fuel else fuel - 1;
    ExactDivision(cur, root, zp);
  }

  /** The loop that went on from `arity` to `s.arity` = `arity + n` divided
      cur by root^n and left s.cur. */
  lemma {:induction false} StripProduct(cur: Poly, root: Poly, arity: nat, fuel: nat, zp: nat, s: Stripped, n: nat)
    requires zp > 1 && Reduced(cur, zp) && Reduced(root, zp)
    requires StripFrom(cur, root, arity, fuel, zp) == Ok(s) && s.arity == arity + n
    ensures Same(Mul(Power(root, n, zp), s.cur, zp), cur)
    decreases n, 2
  {
    if n == 0 {
      StripProductNone(cur, root, arity, fuel, zp, s);
    } else {
      StripProductMore(cur, root, arity, fuel, zp, s, n);
    }
  }

  /** `StripProduct` when the loop divided at least once. */
  lemma {:induction false} StripProductMore(cur: Poly, root: Poly, arity: nat, fuel: nat, zp: nat, s: Stripped, n: nat)
    requires zp > 1 && Reduced(cur, zp) && Reduced(root, zp)
    requires StripFrom(cur, root, arity, fuel, zp) == Ok(s) && s.arity == arity + n && n > 0
    ensures Same(Mul(Power(root, n, zp), s.cur, zp), cur)
    decreases n, 1
  {
    var q, fuel' := StripExact(cur, root, arity, fuel, zp, s);
    StripProductStep(cur, root, arity + 1, fuel', zp, s, q, n - 1, n);
  }

  /** `StripProduct` when the loop stopped at once. */
  lemma StripProductNone(cur: Poly, root: Poly, arity: nat, fuel: nat, zp: nat, s: Stripped)
    requires zp > 1 && Reduced(cur, zp) && Reduced(root, zp)
    requires StripFrom(cur, root, arity, fuel, zp) == Ok(s) && s.arity == arity
    ensures Same(Mul(Power(root, 0, zp), s.cur, zp), cur)
  {
    StripNone(cur, root, arity, fuel, zp, s);
    assert Power(root, 0, zp) == One;
    MulOneLeft(cur, zp);
  }

  /** `StripProduct` after the first exact division, which left q and
      arity a1 with m = n - 1 divisions to go. */
  lemma {:induction false} StripProductStep(cur: Poly, root: Poly, a1: nat, fuel: nat, zp: nat, s: Stripped, q: Poly, m: nat, n: nat)
    requires zp > 1 && Reduced(cur, zp) && Reduced(root, zp) && Reduced(q, zp)
    requires Same(Mul(q, root, zp), cur) && StripFrom(q, root, a1, fuel, zp) == Ok(s)
    requires n == m + 1 && s.arity == a1 + m
    ensures Same(Mul(Power(root, n, zp), s.cur, zp), cur)
    decreases n, 0
  {
    StripProduct(q, root, a1, fuel, zp, s, m);
    PowerPeel(root, m, n, s.cur, q, cur, zp);
  }

  /** `Strip` divides cur into root^arity times what it leaves. */
  lemma StripCorrect(cur: Poly, root: Poly, zp: nat, s: Stripped)
    requires zp > 1 && Reduced(cur, zp) && Reduced(root, zp)
    requires StripFrom(cur, root, 0, StripFuel(cur, zp), zp) == Ok(s)
    ensures Same(Mul(Power(root, s.arity, zp), s.cur, zp), cur)
  {
    StripProduct(cur, root, 0, StripFuel(cur, zp), zp, s, s.arity);
  }

  // ----- the loop without a bound: when the model's Diverges is an endless loop -----

  /** Where the source's while-loop stands after some turns: still running
      on an exact quotient, or stopped by a remainder or by a division that
      throws. */
  datatype Loop = Running(poly: Poly) | Stopped

  /** k turns of a loop whose one turn is `next`, with no bound on k. */
  function Iterate(next: Poly -> Loop, cur: Poly, k: nat): Loop
    decreases k
  {
    if k == 0 then Running(cur)
    else if next(cur).Running? then Iterate(next, next(cur).poly, k - 1)
    else Stopped
  }

  /** A running loop after k = k0 + 1 turns stands where its first turn
      leads after k0. */
  lemma IterateFront(next: Poly -> Loop, cur: Poly, k: nat, k0: nat)
    requires k == k0 + 1 && next(cur).Running?
    ensures Iterate(next, cur, k) == Iterate(next, next(cur).poly, k0)
  {
  }

  /** After s running turns, the loop goes on from where it stands. */
  lemma {:induction false} IterateShift(next: Poly -> Loop, cur: Poly, s: nat, j: nat)
    requires Iterate(next, cur, s).Running?
    ensures Iterate(next, cur, s + j) == Iterate(next, Iterate(next, cur, s).poly, j)
    decreases s
  {
    if s > 0 {
      var q := next(cur).poly;
      var s0, k := s - 1, s + j;
      IterateFront(next, cur, s, s0);
      IterateFront(next, cur, k, s0 + j);
      IterateShift(next, q, s0, j);
    }
  }

  /** A loop running up to t whose state at t takes the same turn as its
      state at s < t runs for ever. */
  lemma {:induction false} IterateRepeats(next: Poly -> Loop, cur: Poly, s: nat, t: nat, k: nat)
    requires s < t && forall j :: 0 <= j <= t ==> Iterate(next, cur, j).Running?
    requires next(Iterate(next, cur, s).poly) == next(Iterate(next, cur, t).poly)
    ensures Iterate(next, cur, k).Running?
    decreases k
  {
    if k > t {
      var j := k - t;
      var j0, k' := j - 1, s + j;
      var a, b := Iterate(next, cur, s).poly, Iterate(next, cur, t).poly;
      IterateShift(next, cur, t, j);
      IterateShift(next, cur, s, j);
      if next(a).Running? {
        IterateFront(next, a, j, j0);
        IterateFront(next, b, j, j0);
      }
      IterateRepeats(next, cur, s, t, k');
    }
  }

  /** A quotient has degree at most that of the dividend, and below it for a
      divisor of positive degree. A divisor of higher degree leaves the
      dividend as the remainder. */
  lemma QuotientDeg(n: Poly, p: Poly, zp: nat)
    requires zp > 1 && Reduced(n, zp) && Reduced(p, zp) && Division(n, p, zp).Ok?
    ensures Deg(Division(n, p, zp).value.0) <= Deg(n)
    ensures 0 < Deg(p) <= Deg(n) ==> Deg(Division(n, p, zp).value.0) < Deg(n)
    ensures Deg(p) > Deg(n) ==> Division(n, p, zp).value.1 == n
  {
  }

  /** One turn of the source's while-loop: `divide` by root, and go on with
      the quotient when the remainder is Zero. */
  function NextLoop(cur: Poly, root: Poly, zp: nat): (r: Loop)
    requires zp > 1 && Reduced(cur, zp) && Reduced(root, zp)
    ensures r.Running? ==> Reduced(r.poly, zp) && Deg(r.poly) <= Deg(cur)
  {
    match Division(cur, root, zp)
    case Err(_) => Stopped
    case Ok(qr) =>
      if Equals(qr.1, Zero) then
        QuotientDeg(cur, root, zp);
        Running(qr.0)
      else Stopped
  }

  /** The turn as a step map; it never applies to unreduced polynomials. */
  function Turn(root: Poly, zp: nat): Poly -> Loop
    requires zp > 1 && Reduced(root, zp)
  {
    p => if Reduced(p, zp) then NextLoop(p, root, zp) else Stopped
  }

  /** The loop runs on exactly when `divide` succeeds with remainder Zero,
      and then on the quotient. */
  lemma TurnMeans(cur: Poly, root: Poly, zp: nat)
    requires zp > 1 && Reduced(cur, zp) && Reduced(root, zp)
    ensures Turn(root, zp)(cur) == NextLoop(cur, root, zp)
    ensures Turn(root, zp)(cur).Running? <==>
              Division(cur, root, zp).Ok? && Equals(Division(cur, root, zp).value.1, Zero)
    ensures Turn(root, zp)(cur).Running? ==> Turn(root, zp)(cur).poly == Division(cur, root, zp).value.0
  {
  }

  /** Every turn of the loop divides exactly: the loop never ends. */
  ghost predicate LoopsForever(cur: Poly, root: Poly, zp: nat)
    requires zp > 1 && Reduced(root, zp)
  {
    forall k: nat :: Iterate(Turn(root, zp), cur, k).Running?
  }

  /** Every state the loop reaches is reduced and of degree at most that of
      the start. */
  lemma {:induction false} TurnsKeep(cur: Poly, root: Poly, k: nat, zp: nat)
    requires zp > 1 && Reduced(cur, zp) && Reduced(root, zp)
    requires Iterate(Turn(root, zp), cur, k).Running?
    ensures Reduced(Iterate(Turn(root, zp), cur, k).poly, zp)
    ensures Deg(Iterate(Turn(root, zp), cur, k).poly) <= Deg(cur)
    decreases k
  {
    if k > 0 {
      var T, k0 := Turn(root, zp), k - 1;
      TurnMeans(cur, root, zp);
      var q := T(cur).poly;
      IterateFront(T, cur, k, k0);
      TurnsKeep(q, root, k0, zp);
    }
  }

  /** A loop that never ends from cur divides it exactly and never ends
      from the quotient either. */
  lemma ForeverStep(cur: Poly, root: Poly, zp: nat)
    requires zp > 1 && Reduced(cur, zp) && Reduced(root, zp) && LoopsForever(cur, root, zp)
    ensures Turn(root, zp)(cur).Running? && LoopsForever(Turn(root, zp)(cur).poly, root, zp)
  {
    var T := Turn(root, zp);
    assert Iterate(T, cur, 1).Running?;
    forall k: nat
      ensures Iterate(T, T(cur).poly, k).Running?
    {
      var k1 := k + 1;
      assert Iterate(T, cur, k1).Running?;
      IterateFront(T, cur, k1, k);
    }
  }

  /** Dividing by a unit root always works and leaves no remainder. */
  lemma {:induction false} DivStepsByUnit(p: Poly, q: Poly, r: Poly, zp: nat)
    requires zp > 1 && Reduced(p, zp) && Reduced(q, zp) && Reduced(r, zp) && UnitRoot(p, zp)
    requires !Equals(p, Zero) && Deg(r) < Deg(p) + |q|
    ensures DivSteps(p, q, r, zp).Ok? && Equals(DivSteps(p, q, r, zp).value.1, Zero)
    decreases Size(r)
  {
    UnitRootGcd(p, zp);
    if !Equals(r, Zero) {
      assert DivSteps(p, q, r, zp) == DivTurn(p, q, r, zp);
      SolveStep(p, r, zp);
      SolveCorrect(Coef(p, Deg(p)), Coef(r, Deg(r)), zp);
      var next := PolyDivision.Step(p, q, r, Solve(Coef(p, Deg(p)), Coef(r, Deg(r)), zp).x, zp);
      DivStepsByUnit(p, next.0, next.1, zp);
    }
  }

  lemma DivisionByUnit(n: Poly, p: Poly, zp: nat)
    requires zp > 1 && Reduced(n, zp) && Reduced(p, zp) && UnitRoot(p, zp)
    ensures Division(n, p, zp).Ok? && Equals(Division(n, p, zp).value.1, Zero)
  {
    EqualsZero(p);
    GcdZeroLeft(zp);
    UnitRootGcd(p, zp);
    DivStepsByUnit(p, Zeros(Deg(n) + 1), n, zp);
  }

  /** The loop by a unit root never ends. */
  lemma UnitLoopsForever(cur: Poly, root: Poly, zp: nat)
    requires zp > 1 && Reduced(cur, zp) && Reduced(root, zp) && UnitRoot(root, zp)
    ensures LoopsForever(cur, root, zp)
  {
    forall k: nat
      ensures Iterate(Turn(root, zp), cur, k).Running?
    {
      UnitRunning(cur, root, k, zp);
    }
  }

  lemma {:induction false} UnitRunning(cur: Poly, root: Poly, k: nat, zp: nat)
    requires zp > 1 && Reduced(cur, zp) && Reduced(root, zp) && UnitRoot(root, zp)
    ensures Iterate(Turn(root, zp), cur, k).Running?
    decreases k
  {
    if k > 0 {
      DivisionByUnit(cur, root, zp);
      TurnMeans(cur, root, zp);
      var q := Turn(root, zp)(cur).poly;
      IterateFront(Turn(root, zp), cur, k, k - 1);
      UnitRunning(q, root, k - 1, zp);
    }
  }

  /** Equal polynomials take the same turn. */
  lemma TurnAgree(a: Poly, b: Poly, root: Poly, zp: nat)
    requires zp > 1 && Reduced(a, zp) && Reduced(b, zp) && Reduced(root, zp) && Equals(a, b)
    ensures Turn(root, zp)(a) == Turn(root, zp)(b)
  {
    EqualsIffSame(a, b);
    DivisionSame(a, b, root, zp);
    TurnMeans(a, root, zp);
    TurnMeans(b, root, zp);
    if Division(a, root, zp).Ok? {
      var r, r' := Division(a, root, zp).value.1, Division(b, root, zp).value.1;
      EqualsIffSame(r, Zero);
      EqualsIffSame(r', Zero);
    }
  }

  /** The reading of the loop's polynomial after k turns, 0 once it stopped. */
  function LoopCode(cur: Poly, root: Poly, k: nat, zp: nat): (c: nat)
    requires zp > 1 && Reduced(cur, zp) && Reduced(root, zp)
    ensures c < StripFuel(cur, zp)
  {
    var l := Iterate(Turn(root, zp), cur, k);
    if l.Running? then
      TurnsKeep(cur, root, k, zp);
      CodeBelowFuel(l.poly, cur, zp);
      ResidueCode(l.poly, Deg(cur) + 1, zp)
    else 0
  }

  /** A reduced polynomial reads below the bound of the loop. */
  lemma CodeBelowFuel(p: Poly, cur: Poly, zp: nat)
    requires zp > 1 && Reduced(p, zp)
    ensures ResidueCode(p, Deg(cur) + 1, zp) < StripFuel(cur, zp)
  {
    PowBySumsIsPow(zp, Deg(cur) + 1);
    CodeBound(p, 0, Deg(cur) + 1, zp);
  }

  /** Two running states with the same reading take the same turn. */
  lemma LoopCodeEqual(cur: Poly, root: Poly, s: nat, t: nat, zp: nat)
    requires zp > 1 && Reduced(cur, zp) && Reduced(root, zp)
    requires Iterate(Turn(root, zp), cur, s).Running? && Iterate(Turn(root, zp), cur, t).Running?
    requires LoopCode(cur, root, s, zp) == LoopCode(cur, root, t, zp)
    ensures Turn(root, zp)(Iterate(Turn(root, zp), cur, s).poly) == Turn(root, zp)(Iterate(Turn(root, zp), cur, t).poly)
  {
    var a, b := Iterate(Turn(root, zp), cur, s).poly, Iterate(Turn(root, zp), cur, t).poly;
    TurnsKeep(cur, root, s, zp);
    TurnsKeep(cur, root, t, zp);
    ResidueCodeInjective(a, b, Deg(cur) + 1, zp);
    TurnAgree(a, b, root, zp);
  }

  /** The readings after 0 .. n - 1 turns. */
  function LoopCodes(cur: Poly, root: Poly, n: nat, zp: nat): (cs: seq<nat>)
    requires zp > 1 && Reduced(cur, zp) && Reduced(root, zp)
    ensures |cs| == n
    ensures forall j :: 0 <= j < n ==> cs[j] == LoopCode(cur, root, j, zp) && cs[j] < StripFuel(cur, zp)
  {
    seq(n, j requires 0 <= j => LoopCode(cur, root, j, zp))
  }

  /** A loop that runs through Zp^(deg + 1) + 1 states repeats one, so it
      never ends. */
  lemma RunningLongForever(cur: Poly, root: Poly, zp: nat)
    requires zp > 1 && Reduced(cur, zp) && Reduced(root, zp)
    requires forall j :: 0 <= j <= StripFuel(cur, zp) ==> Iterate(Turn(root, zp), cur, j).Running?
    ensures LoopsForever(cur, root, zp)
  {
    var n := StripFuel(cur, zp);
    var s, t := Pigeonhole(LoopCodes(cur, root, n + 1, zp), n);
    LoopCodeEqual(cur, root, s, t, zp);
    forall k: nat
      ensures Iterate(Turn(root, zp), cur, k).Running?
    {
      IterateRepeats(Turn(root, zp), cur, s, t, k);
    }
  }

  /** A Diverges of the model comes from a unit root, or from a loop that
      ran through fuel + 1 exact divisions. */
  lemma {:induction false} DivergesReach(cur: Poly, root: Poly, arity: nat, fuel: nat, zp: nat)
    requires zp > 1 && Reduced(cur, zp) && Reduced(root, zp)
    requires StripFrom(cur, root, arity, fuel, zp) == Err(Diverges)
    ensures UnitRoot(root, zp) || forall k :: 0 <= k <= fuel + 1 ==> Iterate(Turn(root, zp), cur, k).Running?
    decreases fuel, Deg(cur)
  {
    if !UnitRoot(root, zp) {
      TurnMeans(cur, root, zp);
      var q := Division(cur, root, zp).value.0;
      if Deg(q) < Deg(cur) {
        DivergesReach(q, root, arity + 1, fuel, zp);
      } else if fuel > 0 {
        DivergesReach(q, root, arity + 1, fuel - 1, zp);
      }
      forall k | 0 <= k <= fuel + 1
        ensures Iterate(Turn(root, zp), cur, k).Running?
      {
        if k > 0 {
          IterateFront(Turn(root, zp), cur, k, k - 1);
        }
      }
    }
  }

  /** A loop that never ends makes the model stop with Diverges. */
  lemma {:induction false} ForeverDiverges(cur: Poly, root: Poly, arity: nat, fuel: nat, zp: nat)
    requires zp > 1 && Reduced(cur, zp) && Reduced(root, zp) && LoopsForever(cur, root, zp)
    ensures StripFrom(cur, root, arity, fuel, zp) == Err(Diverges)
    decreases fuel, Deg(cur)
  {
    ForeverStep(cur, root, zp);
    TurnMeans(cur, root, zp);
    var q := Division(cur, root, zp).value.0;
    if Deg(q) < Deg(cur) {
      ForeverDiverges(q, root, arity + 1, fuel, zp);
    } else if !UnitRoot(root, zp) && fuel > 0 {
      ForeverDiverges(q, root, arity + 1, fuel - 1, zp);
    }
  }

  /** `Strip` stops with Diverges exactly when the source's while-loop
      divides exactly for ever. */
  lemma StripDivergesForever(cur: Poly, root: Poly, zp: nat)
    requires zp > 1 && Reduced(cur, zp) && Reduced(root, zp)
    ensures StripFrom(cur, root, 0, StripFuel(cur, zp), zp) == Err(Diverges) <==> LoopsForever(cur, root, zp)
  {
    if StripFrom(cur, root, 0, StripFuel(cur, zp), zp) == Err(Diverges) {
      DivergesReach(cur, root, 0, StripFuel(cur, zp), zp);
      if UnitRoot(root, zp) {
        UnitLoopsForever(cur, root, zp);
      } else {
        RunningLongForever(cur, root, zp);
      }
    }
    if LoopsForever(cur, root, zp) {
      ForeverDiverges(cur, root, 0, StripFuel(cur, zp), zp);
    }
  }

  // ----- the outer loop over the field elements -----

  /** The working state: the factors recorded so far and the polynomial left. */
  datatype Progress = Progress(factors: Factors, cur: Poly)

  /** The field's table and the state hold residues modulo zp. */
  predicate Fits(f: Field, acc: Progress, zp: nat)
  {
    zp > 1 && AllReduced(f.elements, zp) && Reduced(acc.cur, zp) && AllFactorsReduced(acc.factors, zp)
  }

  /** The element of round i: Zero for i = 0, elements[i - 1] after. */
  function Candidate(f: Field, i: nat): Poly
    requires 0 < i ==> i - 1 < |f.elements|
  {
    if i == 0 then Zero else f.elements[i - 1]
  }

  /** The factor list after a root went in k times: unchanged for k = 0. */
  function Record(fs: Factors, root: Poly, k: nat): (r: Factors)
    ensures k == 0 ==> r == fs
    ensures k != 0 ==> |r| == |fs| + 1 && r[..|fs|] == fs && r[|fs|] == (root, k)
  {
    if k != 0 then fs + [(root, k)] else fs
  }

  /** One round of the for-loop of `FactorizeByFieldElements`: it skips an
      element of higher degree than the polynomial left, the element X and a
      root X - e equal to One; otherwise it divides the root out and records
      it when it went in at least once. */
  function FactorRound(f: Field, i: nat, acc: Progress, zp: nat): (res: Result<Progress>)
    requires Fits(f, acc, zp)
    requires i < Order(f)
    ensures res.Ok? ==> Fits(f, res.value, zp)
    ensures res.Err? ==> res.error in {DivisionByZero, Unsolvable, Diverges}
  {
    var elem := Candidate(f, i);
    if Deg(acc.cur) >= Deg(elem) && !Equals(elem, X) && !Equals(Linear(elem, zp), One) then
      var root := Linear(elem, zp);
      var s :- StripFrom(acc.cur, root, 0, StripFuel(acc.cur, zp), zp);
      Ok(Progress(Record(acc.factors, root, s.arity), s.cur))
    else Ok(acc)
  }

  /** Rounds i .. n - 1 of a for-loop that also stops once the polynomial
      left is a constant, for a given round. */
  function Scan(round: (nat, Progress) -> Result<Progress>, n: nat, i: nat, acc: Progress): Result<Progress>
    decreases n - i
  {
    if i >= n || Deg(acc.cur) == 0 then Ok(acc)
    else
      var next :- round(i, acc);
      Scan(round, n, i + 1, next)
  }

  /** What every round keeps, the scan keeps. */
  lemma {:induction false} ScanKeeps(round: (nat, Progress) -> Result<Progress>, n: nat, i: nat, acc: Progress,
                                     inv: Progress -> bool)
    requires inv(acc)
    requires forall j: nat, a: Progress :: inv(a) && round(j, a).Ok? ==> inv(round(j, a).value)
    ensures Scan(round, n, i, acc).Ok? ==> inv(Scan(round, n, i, acc).value)
    decreases n - i
  {
    if i < n && Deg(acc.cur) != 0 && round(i, acc).Ok? {
      ScanKeeps(round, n, i + 1, round(i, acc).value, inv);
    }
  }

  /** A scan fails only as one of its rounds on a non-constant polynomial
      does. */
  lemma {:induction false} ScanFailsAs(round: (nat, Progress) -> Result<Progress>, n: nat, i: nat, acc: Progress,
                                       errs: set<Error>)
    requires forall j: nat, a: Progress :: Deg(a.cur) != 0 && round(j, a).Err? ==> round(j, a).error in errs
    ensures Scan(round, n, i, acc).Err? ==> Scan(round, n, i, acc).error in errs
    decreases n - i
  {
    if i < n && Deg(acc.cur) != 0 && round(i, acc).Ok? {
      ScanFailsAs(round, n, i + 1, round(i, acc).value, errs);
    }
  }

  /** The scan from round i reaches a round, on a non-constant polynomial,
      where `hit` holds. */
  ghost predicate Reaches(round: (nat, Progress) -> Result<Progress>, hit: (nat, Progress) -> bool,
                          n: nat, i: nat, acc: Progress)
    decreases n - i
  {
    if i >= n || Deg(acc.cur) == 0 then false
    else if hit(i, acc) then true
    else match round(i, acc)
      case Err(_) => false
      case Ok(next) => Reaches(round, hit, n, i + 1, next)
  }

  /** When a round on a non-constant polynomial fails exactly where `hit`
      holds, the scan fails exactly when it reaches such a round. */
  lemma {:induction false} ScanFailsWhere(round: (nat, Progress) -> Result<Progress>, hit: (nat, Progress) -> bool,
                                          n: nat, i: nat, acc: Progress)
    requires forall j: nat, a: Progress :: Deg(a.cur) != 0 ==> (round(j, a).Err? <==> hit(j, a))
    ensures Scan(round, n, i, acc).Err? <==> Reaches(round, hit, n, i, acc)
    decreases n - i
  {
    if i < n && Deg(acc.cur) != 0 && round(i, acc).Ok? {
      ScanFailsWhere(round, hit, n, i + 1, round(i, acc).value);
    }
  }

  /** One round of `FactorizeByFieldElements` as a step of the scan; it
      never applies outside the loop's states. */
  function Round(f: Field, zp: nat): (nat, Progress) -> Result<Progress>
  {
    (i: nat, acc: Progress) => if Fits(f, acc, zp) && i < Order(f) then FactorRound(f, i, acc, zp) else Ok(acc)
  }

  /** The for-loop of `FactorizeByFieldElements` from round i: it stops after
      `order()` rounds or once the polynomial left is a constant. */
  function ScanFrom(f: Field, i: nat, acc: Progress, zp: nat): (res: Result<Progress>)
    requires Fits(f, acc, zp)
    requires i <= Order(f)
    ensures res.Ok? ==> Fits(f, res.value, zp)
    ensures res.Err? ==> res.error in {DivisionByZero, Unsolvable, Diverges}
    decreases Order(f) - i, 1
  {
    if i == Order(f) || Deg(acc.cur) == 0 then Ok(acc) else ScanNext(f, i, acc, zp)
  }

  /** Round i, then the scan from round i + 1. */
  function ScanNext(f: Field, i: nat, acc: Progress, zp: nat): (res: Result<Progress>)
    requires Fits(f, acc, zp)
    requires i < Order(f)
    ensures res.Ok? ==> Fits(f, res.value, zp)
    ensures res.Err? ==> res.error in {DivisionByZero, Unsolvable, Diverges}
    decreases Order(f) - i, 0
  {
    var next :- FactorRound(f, i, acc, zp);
    ScanFrom(f, i + 1, next, zp)
  }

  /** The loop is the scan with `Round`. */
  lemma {:induction false} ScanFromIsScan(f: Field, i: nat, acc: Progress, zp: nat)
    requires Fits(f, acc, zp) && i <= Order(f)
    ensures ScanFrom(f, i, acc, zp) == Scan(Round(f, zp), Order(f), i, acc)
    decreases Order(f) - i
  {
    if i < Order(f) && Deg(acc.cur) != 0 {
      assert ScanFrom(f, i, acc, zp) == ScanNext(f, i, acc, zp);
      if FactorRound(f, i, acc, zp).Ok? {
        ScanFromIsScan(f, i + 1, FactorRound(f, i, acc, zp).value, zp);
      }
    }
  }

  /** `FactorizeByFieldElements(poly)`: the scan from the whole polynomial,
      then the polynomial left appended with arity 1 when not a constant. */
  function Factorization(f: Field, poly: Poly, zp: nat): (res: Result<Factors>)
    requires zp > 1 && AllReduced(f.elements, zp) && Reduced(poly, zp)
    ensures res.Ok? ==> AllFactorsReduced(res.value, zp)
  {
    var p :- ScanFrom(f, 0, Progress([], poly), zp);
    if Deg(p.cur) != 0 then Ok(p.factors + [(p.cur, 1)]) else Ok(p.factors)
  }

  /** The body of the for-loop of `FactorizeByFieldElements`. */
  method DivideOutElement(f: Field, i: nat, acc: Progress, zp: nat) returns (res: Result<Progress>)
    requires Fits(f, acc, zp)
    requires i < Order(f)
    ensures res == FactorRound(f, i, acc, zp)
  {
    var elem := if i > 0 then f.elements[i - 1] else Zero;
    if Deg(acc.cur) >= Deg(elem) && !Equals(elem, X) {
      var root := Linear(elem, zp);
      if !Equals(root, One) {
        var s :- Strip(acc.cur, root, zp);
        var factors := acc.factors;
        if s.arity != 0 {
          factors := factors + [(root, s.arity)];
        }
        return Ok(Progress(factors, s.cur));
      }
    }
    return Ok(acc);
  }

  method FactorizeByFieldElements(f: Field, poly: Poly, zp: nat) returns (res: Result<Factors>)
    requires zp > 1 && AllReduced(f.elements, zp) && Reduced(poly, zp)
    ensures res == Factorization(f, poly, zp)
  {
    var scan := ScanRounds(f, poly, zp);
    if scan.Err? {
      return Err(scan.error);
    }
    var acc := scan.value;
    var factors := acc.factors;
    if Deg(acc.cur) != 0 {
      factors := factors + [(acc.cur, 1)];
    }
    return Ok(factors);
  }

  /** The for-loop of `FactorizeByFieldElements` over the field's elements. */
  method ScanRounds(f: Field, poly: Poly, zp: nat) returns (scan: Result<Progress>)
    requires zp > 1 && AllReduced(f.elements, zp) && Reduced(poly, zp)
    ensures scan == ScanFrom(f, 0, Progress([], poly), zp)
  {
    var acc := Progress([], poly);
    var cdeg := Deg(poly);
    var i := 0;
    var sz := Order(f);
    ghost var whole := ScanFrom(f, 0, acc, zp);
    while i < sz && cdeg != 0
      invariant Fits(f, acc, zp) && i <= sz
      invariant ScanFrom(f, i, acc, zp) == whole
      invariant cdeg == Deg(acc.cur)
    {
      var round := ScanRound(f, i, acc, whole, zp);
      if round.Err? {
        return Err(round.error);
      }
      acc := round.value;
      cdeg := Deg(acc.cur);
      i := i + 1;
    }
    ScanEnds(f, i, acc, zp);
    return Ok(acc);
  }

  /** One round of the loop of `FactorizeByFieldElements`, with what it
      means for the scan: a failure is the failure of the scan, a success
      hands the scan on to round i + 1. */
  method ScanRound(f: Field, i: nat, acc: Progress, ghost whole: Result<Progress>, zp: nat) returns (round: Result<Progress>)
    requires Fits(f, acc, zp) && i < Order(f) && Deg(acc.cur) != 0
    requires ScanFrom(f, i, acc, zp) == whole
    ensures round.Err? ==> whole == Err(round.error)
    ensures round.Ok? ==> Fits(f, round.value, zp)
    ensures round.Ok? ==> ScanFrom(f, i + 1, round.value, zp) == whole
  {
    round := DivideOutElement(f, i, acc, zp);
    if round.Ok? {
      ScanStep(f, i, acc, zp);
    }
  }

  /** Once the rounds run out or the polynomial left is a constant, the
      scan holds what it has. */
  lemma ScanEnds(f: Field, i: nat, acc: Progress, zp: nat)
    requires Fits(f, acc, zp) && i <= Order(f)
    requires i == Order(f) || Deg(acc.cur) == 0
    ensures ScanFrom(f, i, acc, zp) == Ok(acc)
  {
  }

  // ----- what the result means -----

  /** X - e is Zero only for e equal to X: skipping X is what keeps the
      division away from a Zero divisor. */
  lemma LinearNonZero(e: Poly, zp: nat)
    requires zp > 1 && Reduced(e, zp) && !Equals(e, X)
    ensures !Equals(Linear(e, zp), Zero)
  {
    EqualsIffSame(e, X);
    EqualsIffSame(Linear(e, zp), Zero);
    if Same(Linear(e, zp), Zero) {
      forall i: nat
        ensures Coef(e, i) == Coef(X, i)
      {
        SubCoef(X, e, zp, i);
        ResidueDifference(Coef(X, i), Coef(e, i), zp);
      }
      assert Same(e, X);
    }
  }

  /** Two residues whose difference is 0 mod zp are equal. */
  lemma ResidueDifference(x: nat, y: nat, zp: nat)
    requires zp > 1 && x < zp && y < zp && (x - y) % zp == 0
    ensures x == y
  {
    if x > y {
      ModOfSmall(x - y, zp);
    } else if x < y {
      DivMod(x - y, zp);
      var q := (x - y) / zp;
      if q <= -2 {
        MulMono(zp, -q, 2);
      } else if q >= 0 {
        MulNonNeg(zp, q);
      }
    }
  }

  /** Every recorded arity is at least 1. */
  predicate PositiveArities(fs: Factors)
  {
    forall j :: 0 <= j < |fs| ==> fs[j].1 >= 1
  }

  lemma RecordArities(fs: Factors, root: Poly, k: nat, zp: nat)
    requires zp > 1 && AllFactorsReduced(fs, zp) && Reduced(root, zp) && PositiveArities(fs)
    ensures AllFactorsReduced(Record(fs, root, k), zp) && PositiveArities(Record(fs, root, k))
  {
    if k != 0 {
      assert Record(fs, root, k) == fs + [(root, k)];
    }
  }

  /** Recording a root with its arity keeps the product of the factors times
      the polynomial left equal to the input. */
  lemma RecordProduct(fs: Factors, cur: Poly, root: Poly, s: Stripped, poly: Poly, zp: nat)
    requires zp > 1 && AllFactorsReduced(fs, zp) && Reduced(cur, zp) && Reduced(root, zp) && Reduced(s.cur, zp)
    requires Same(Mul(FactorProduct(fs, zp), cur, zp), poly)
    requires Same(Mul(Power(root, s.arity, zp), s.cur, zp), cur)
    requires AllFactorsReduced(Record(fs, root, s.arity), zp)
    ensures Same(Mul(FactorProduct(Record(fs, root, s.arity), zp), s.cur, zp), poly)
  {
    var P := FactorProduct(fs, zp);
    if s.arity != 0 {
      assert Record(fs, root, s.arity) == fs + [(root, s.arity)];
      FactorProductAppend(fs, root, s.arity, zp);
      ProductRegroups(P, Power(root, s.arity, zp), s.cur, cur, poly, zp);
    } else {
      assert Power(root, s.arity, zp) == One;
      MulOneLeft(s.cur, zp);
      MulCongruent(P, P, s.cur, cur, zp);
      SameTrans(Mul(P, s.cur, zp), Mul(P, cur, zp), poly);
    }
  }

  /** P * cur is poly and W * rest is cur: then (P * W) * rest is poly. */
  lemma ProductRegroups(P: Poly, W: Poly, rest: Poly, cur: Poly, poly: Poly, zp: nat)
    requires zp > 1 && Reduced(P, zp) && Reduced(W, zp) && Reduced(rest, zp) && Reduced(cur, zp)
    requires Same(Mul(P, cur, zp), poly) && Same(Mul(W, rest, zp), cur)
    ensures Same(Mul(Mul(P, W, zp), rest, zp), poly)
  {
    MulCongruent(P, P, Mul(W, rest, zp), cur, zp);
    SameTrans(Mul(P, Mul(W, rest, zp), zp), Mul(P, cur, zp), poly);
    MulAssociates(P, W, rest, zp);
    SameTrans(Mul(Mul(P, W, zp), rest, zp), Mul(P, Mul(W, rest, zp), zp), poly);
  }

  lemma FactorProductAppend(fs: Factors, root: Poly, k: nat, zp: nat)
    requires zp > 1 && AllFactorsReduced(fs, zp) && Reduced(root, zp)
    ensures AllFactorsReduced(fs + [(root, k)], zp)
    ensures FactorProduct(fs + [(root, k)], zp) == Mul(FactorProduct(fs, zp), Power(root, k, zp), zp)
  {
    var fs' := fs + [(root, k)];
    assert fs'[..|fs'| - 1] == fs;
  }

  /** What the loop keeps about its state: the product of the factors times
      the polynomial left is the input. */
  ghost predicate Accounts(p: Progress, poly: Poly, zp: nat)
    requires zp > 1 && AllFactorsReduced(p.factors, zp)
  {
    Same(Mul(FactorProduct(p.factors, zp), p.cur, zp), poly)
  }

  /** One round keeps `Accounts`. */
  lemma RoundAccounts(f: Field, i: nat, acc: Progress, poly: Poly, zp: nat)
    requires Fits(f, acc, zp)
    requires i < Order(f) && FactorRound(f, i, acc, zp).Ok? && Accounts(acc, poly, zp)
    ensures Accounts(FactorRound(f, i, acc, zp).value, poly, zp)
  {
    var elem := Candidate(f, i);
    if Deg(acc.cur) >= Deg(elem) && !Equals(elem, X) && !Equals(Linear(elem, zp), One) {
      var root := Linear(elem, zp);
      var s := StripFrom(acc.cur, root, 0, StripFuel(acc.cur, zp), zp).value;
      StripCorrect(acc.cur, root, zp, s);
      RecordProduct(acc.factors, acc.cur, root, s, poly, zp);
    }
  }

  /** One round keeps every arity at least 1. */
  lemma RoundArities(f: Field, i: nat, acc: Progress, zp: nat)
    requires Fits(f, acc, zp)
    requires i < Order(f) && FactorRound(f, i, acc, zp).Ok? && PositiveArities(acc.factors)
    ensures PositiveArities(FactorRound(f, i, acc, zp).value.factors)
  {
    var elem := Candidate(f, i);
    if Deg(acc.cur) >= Deg(elem) && !Equals(elem, X) && !Equals(Linear(elem, zp), One) {
      var root := Linear(elem, zp);
      var s := StripFrom(acc.cur, root, 0, StripFuel(acc.cur, zp), zp).value;
      RecordArities(acc.factors, root, s.arity, zp);
    }
  }

  /** No round divides by Zero: each root X - e it divides by has e
      different from X. */
  lemma RoundNeverByZero(f: Field, i: nat, acc: Progress, zp: nat)
    requires Fits(f, acc, zp)
    requires i < Order(f)
    ensures FactorRound(f, i, acc, zp).Err? ==> FactorRound(f, i, acc, zp).error in {Unsolvable, Diverges}
  {
    var elem := Candidate(f, i);
    assert Reduced(elem, zp);
    if Deg(acc.cur) >= Deg(elem) && !Equals(elem, X) && !Equals(Linear(elem, zp), One) {
      LinearNonZero(elem, zp);
    }
  }

  /** The scan at round i: the state fits and i is at most `order()`. */
  predicate Scanning(f: Field, i: nat, acc: Progress, zp: nat)
  {
    Fits(f, acc, zp) && i <= Order(f)
  }

  /** The whole scan keeps `Accounts`. */
  lemma ScanAccounts(f: Field, i: nat, acc: Progress, poly: Poly, zp: nat)
    requires Scanning(f, i, acc, zp) && ScanFrom(f, i, acc, zp).Ok? && Accounts(acc, poly, zp)
    ensures Accounts(ScanFrom(f, i, acc, zp).value, poly, zp)
  {
    var inv := (a: Progress) => Fits(f, a, zp) && Accounts(a, poly, zp);
    forall j: nat, a: Progress | inv(a) && Round(f, zp)(j, a).Ok?
      ensures inv(Round(f, zp)(j, a).value)
    {
      if j < Order(f) {
        RoundAccounts(f, j, a, poly, zp);
      }
    }
    ScanFromIsScan(f, i, acc, zp);
    ScanKeeps(Round(f, zp), Order(f), i, acc, inv);
  }

  /** The whole scan keeps every arity at least 1. */
  lemma ScanArities(f: Field, i: nat, acc: Progress, zp: nat)
    requires Scanning(f, i, acc, zp) && ScanFrom(f, i, acc, zp).Ok? && PositiveArities(acc.factors)
    ensures PositiveArities(ScanFrom(f, i, acc, zp).value.factors)
  {
    var inv := (a: Progress) => Fits(f, a, zp) && PositiveArities(a.factors);
    forall j: nat, a: Progress | inv(a) && Round(f, zp)(j, a).Ok?
      ensures inv(Round(f, zp)(j, a).value)
    {
      if j < Order(f) {
        RoundArities(f, j, a, zp);
      }
    }
    ScanFromIsScan(f, i, acc, zp);
    ScanKeeps(Round(f, zp), Order(f), i, acc, inv);
  }

  /** A round that succeeds hands the scan on to the next index. */
  lemma ScanStep(f: Field, i: nat, acc: Progress, zp: nat)
    requires Scanning(f, i, acc, zp) && i < Order(f) && Deg(acc.cur) != 0
    requires FactorRound(f, i, acc, zp).Ok?
    ensures Scanning(f, i + 1, FactorRound(f, i, acc, zp).value, zp)
    ensures ScanFrom(f, i + 1, FactorRound(f, i, acc, zp).value, zp) == ScanFrom(f, i, acc, zp)
  {
    assert ScanFrom(f, i, acc, zp) == ScanNext(f, i, acc, zp);
  }

  /** The whole scan never divides by Zero. */
  lemma ScanNeverByZero(f: Field, i: nat, acc: Progress, zp: nat)
    requires Scanning(f, i, acc, zp)
    ensures ScanFrom(f, i, acc, zp).Err? ==> ScanFrom(f, i, acc, zp).error in {Unsolvable, Diverges}
  {
    forall j: nat, a: Progress | Deg(a.cur) != 0 && Round(f, zp)(j, a).Err?
      ensures Round(f, zp)(j, a).error in {Unsolvable, Diverges}
    {
      if Fits(f, a, zp) && j < Order(f) {
        RoundNeverByZero(f, j, a, zp);
      }
    }
    ScanFromIsScan(f, i, acc, zp);
    ScanFailsAs(Round(f, zp), Order(f), i, acc, {Unsolvable, Diverges});
  }

  /** `FactorizeByFieldElements` never fails with a division by Zero. When it
      succeeds, every arity is at least 1; the list is the scan's factors,
      followed by the polynomial left with arity 1 exactly when that is not
      a constant; and the product of factor^arity, times the constant left
      when it was not appended, is the input. */
  lemma FactorizationCorrect(f: Field, poly: Poly, zp: nat)
    requires zp > 1 && AllReduced(f.elements, zp) && Reduced(poly, zp)
    ensures Factorization(f, poly, zp).Err? ==> Factorization(f, poly, zp).error in {Unsolvable, Diverges}
    ensures Factorization(f, poly, zp).Ok? ==>
              var fs := Factorization(f, poly, zp).value;
              var p := ScanFrom(f, 0, Progress([], poly), zp).value;
              PositiveArities(fs) &&
              fs[..|p.factors|] == p.factors &&
              (Deg(p.cur) != 0 <==> |fs| == |p.factors| + 1) &&
              (Deg(p.cur) != 0 ==> fs[|fs| - 1] == (p.cur, 1)) &&
              Same(Mul(FactorProduct(fs, zp), if Deg(p.cur) == 0 then p.cur else One, zp), poly)
  {
    var start := Progress([], poly);
    ScanNeverByZero(f, 0, start, zp);
    if Factorization(f, poly, zp).Ok? {
      var fs := Factorization(f, poly, zp).value;
      var p := ScanFrom(f, 0, start, zp).value;
      MulOneLeft(poly, zp);
      ScanAccounts(f, 0, start, poly, zp);
      ScanArities(f, 0, start, zp);
      if Deg(p.cur) != 0 {
        FactorProductAppend(p.factors, p.cur, 1, zp);
        MulOneLeft(p.cur, zp);
        assert Power(p.cur, 1, zp) == p.cur;
        MulOneRight(FactorProduct(fs, zp), zp);
        SameTrans(Mul(FactorProduct(fs, zp), One, zp), FactorProduct(fs, zp), poly);
      }
    }
  }

  // ----- over a prime field: which scans end in Diverges -----

  /** Modulo a prime, a non-zero constant root is a unit root. */
  lemma ConstantRootUnit(root: Poly, zp: nat)
    requires IsPrime(zp) && Reduced(root, zp) && Deg(root) == 0 && !Equals(root, Zero)
    ensures UnitRoot(root, zp)
  {
    EqualsZero(root);
    var c := Coef(root, 0);
    assert 0 < c < zp;
    forall d: nat | 1 < d <= zp && Divides(d, c)
      ensures !Divides(d, zp)
    {
      DividesLe(d, c);
    }
  }

  /** A polynomial of positive degree is not Zero. */
  lemma PositiveDegNonZero(p: Poly)
    requires Deg(p) > 0
    ensures !Equals(p, Zero)
  {
    EqualsZero(p);
  }

  /** A quotient of an exact division of a non-zero polynomial is not Zero. */
  lemma ExactQuotientNonZero(cur: Poly, root: Poly, zp: nat)
    requires zp > 1 && Reduced(cur, zp) && Reduced(root, zp) && !Equals(cur, Zero)
    requires Division(cur, root, zp).Ok? && Equals(Division(cur, root, zp).value.1, Zero)
    ensures !Equals(Division(cur, root, zp).value.0, Zero)
  {
    var q := Division(cur, root, zp).value.0;
    ExactDivision(cur, root, zp);
    if Equals(q, Zero) {
      EqualsIffSame(q, Zero);
      assert Reduced(Zero, zp);
      MulCongruent(q, Zero, root, root, zp);
      MulZeroLeft(root, zp);
      EqualsIffSame(cur, Zero);
      assert false;
    }
  }

  /** Modulo a prime, the loop of a root of positive degree stops on every
      non-zero polynomial: the degree goes down with every exact division. */
  lemma {:induction false} StripNonConstant(cur: Poly, root: Poly, arity: nat, fuel: nat, zp: nat)
    requires IsPrime(zp) && Reduced(cur, zp) && Reduced(root, zp)
    requires Deg(root) > 0 && !Equals(cur, Zero)
    ensures StripFrom(cur, root, arity, fuel, zp).Ok?
    decreases Deg(cur)
  {
    PositiveDegNonZero(root);
    DivisionTotalModPrime(cur, root, zp);
    StripUnfold(cur, root, arity, fuel, zp);
    var qr := Division(cur, root, zp).value;
    if Equals(qr.1, Zero) {
      QuotientDeg(cur, root, zp);
      if Deg(root) > Deg(cur) {
        assert false;
      }
      ExactQuotientNonZero(cur, root, zp);
      StripNonConstant(qr.0, root, arity + 1, fuel, zp);
    }
  }

  /** The round of element i divides by a constant root X - e other than
      One: e is X + c for a c other than 0 and -1. */
  predicate ConstantRoot(f: Field, i: nat, acc: Progress, zp: nat)
    requires Fits(f, acc, zp) && i < Order(f)
  {
    var elem := Candidate(f, i);
    Deg(acc.cur) >= Deg(elem) && !Equals(elem, X) && !Equals(Linear(elem, zp), One)
    && Deg(Linear(elem, zp)) == 0
  }

  /** Modulo a prime, a round on a non-constant polynomial fails exactly when
      its root is a constant, and then with Diverges: the source's loop
      divides by that constant for ever. */
  lemma RoundModPrime(f: Field, i: nat, acc: Progress, zp: nat)
    requires Fits(f, acc, zp) && i < Order(f) && IsPrime(zp) && Deg(acc.cur) > 0
    ensures FactorRound(f, i, acc, zp).Err? <==> ConstantRoot(f, i, acc, zp)
    ensures FactorRound(f, i, acc, zp).Err? ==> FactorRound(f, i, acc, zp).error == Diverges
  {
    var elem := Candidate(f, i);
    assert Reduced(elem, zp);
    if Deg(acc.cur) >= Deg(elem) && !Equals(elem, X) && !Equals(Linear(elem, zp), One) {
      var root := Linear(elem, zp);
      LinearNonZero(elem, zp);
      if Deg(root) == 0 {
        ConstantRootUnit(root, zp);
        UnitLoopsForever(acc.cur, root, zp);
        StripDivergesForever(acc.cur, root, zp);
      } else {
        PositiveDegNonZero(acc.cur);
        StripNonConstant(acc.cur, root, 0, StripFuel(acc.cur, zp), zp);
      }
    }
  }

  /** `ConstantRoot` as a test on the scan's states. */
  function ConstantRootAt(f: Field, zp: nat): (nat, Progress) -> bool
  {
    (i: nat, acc: Progress) => Fits(f, acc, zp) && i < Order(f) && ConstantRoot(f, i, acc, zp)
  }

  /** The scan from round i reaches a round, on a non-constant polynomial,
      whose root is a constant other than One. */
  ghost predicate MeetsConstantRoot(f: Field, i: nat, acc: Progress, zp: nat)
  {
    Reaches(Round(f, zp), ConstantRootAt(f, zp), Order(f), i, acc)
  }

  /** Modulo a prime, the scan fails exactly when it meets a constant root,
      and then with Diverges. */
  lemma ScanModPrime(f: Field, i: nat, acc: Progress, zp: nat)
    requires Scanning(f, i, acc, zp) && IsPrime(zp)
    ensures ScanFrom(f, i, acc, zp).Err? <==> MeetsConstantRoot(f, i, acc, zp)
    ensures ScanFrom(f, i, acc, zp).Err? ==> ScanFrom(f, i, acc, zp).error == Diverges
  {
    forall j: nat, a: Progress | Deg(a.cur) != 0
      ensures Round(f, zp)(j, a).Err? <==> ConstantRootAt(f, zp)(j, a)
      ensures Round(f, zp)(j, a).Err? ==> Round(f, zp)(j, a).error in {Diverges}
    {
      if Fits(f, a, zp) && j < Order(f) {
        RoundModPrime(f, j, a, zp);
      }
    }
    ScanFromIsScan(f, i, acc, zp);
    ScanFailsWhere(Round(f, zp), ConstantRootAt(f, zp), Order(f), i, acc);
    ScanFailsAs(Round(f, zp), Order(f), i, acc, {Diverges});
  }

  /** Modulo a prime, `FactorizeByFieldElements` fails exactly when its scan
      meets a round, on a non-constant polynomial, whose root X - e is a
      constant other than One; it then fails with Diverges, because the
      source's inner while-loop divides by that constant for ever. */
  lemma FactorizationDivergesModPrime(f: Field, poly: Poly, zp: nat)
    requires IsPrime(zp) && AllReduced(f.elements, zp) && Reduced(poly, zp)
    ensures Factorization(f, poly, zp).Err? <==> MeetsConstantRoot(f, 0, Progress([], poly), zp)
    ensures Factorization(f, poly, zp).Err? ==> Factorization(f, poly, zp).error == Diverges
  {
    ScanModPrime(f, 0, Progress([], poly), zp);
  }
}
