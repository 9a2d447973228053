/** Long division of polynomials over Z_p (`divide`, `%`, `/` in
    src/algebra/Polynomial.h) under the THROW policy: each step solves
    lc(p) * c = lc(remainder) (mod Zp) with `expanded_gcd`, records c at
    x^(deg remainder - deg p) in the quotient and subtracts c * x^shift * p. */
module PolyDivision {
  import opened Arith
  import opened Modular
  import opened Wrappers
  import opened Polynomials
  import opened Sums
  import opened PolyRing

  /** 0 for the zero polynomial, deg + 1 otherwise: what each step decreases. */
  function Size(p: Poly): nat
  {
    if Equals(p, Zero) then 0 else Deg(p) + 1
  }

  /** A non-zero reduced polynomial has a leading coefficient that is a unit
      candidate: non-zero mod Zp. */
  lemma LeadingNonZero(p: Poly, zp: nat)
    requires zp > 1 && Reduced(p, zp) && !Equals(p, Zero)
    ensures Coef(p, Deg(p)) != 0 && Coef(p, Deg(p)) % zp != 0
  {
    EqualsZero(p);
    if Deg(p) == 0 {
      var i: nat :| Coef(p, i) != 0;
      assert i == 0;
    }
    ModOfSmall(Coef(p, Deg(p)), zp);
  }

  /** The subtraction of one step clears coefficient i for every i >= deg(r). */
  lemma StepClears(p: Poly, r: Poly, c: nat, zp: nat, i: nat)
    requires zp > 1 && Reduced(p, zp) && Reduced(r, zp)
    requires Deg(r) >= Deg(p) && i >= Deg(r)
    requires (Coef(p, Deg(p)) * c) % zp == Coef(r, Deg(r))
    ensures Coef(Sub(r, Shift(Scale(p, c, zp), Deg(r) - Deg(p)), zp), i) == 0
  {
    var s := Deg(r) - Deg(p);
    var sp := Shift(Scale(p, c, zp), s);
    SubCoef(r, sp, zp, i);
    ShiftScaleCoef(p, c, s, zp, i);
    var t := Coef(r, i) - Coef(sp, i);
    if i > Deg(r) {
      ShiftScaleAbove(p, c, s, zp, i);
      assert Coef(r, i) == 0;
    } else {
      assert i - s == Deg(p);
      assert Coef(sp, i) == Coef(r, i);
    }
    assert t == 0;
    assert Coef(Sub(r, sp, zp), i) == 0 % zp;
  }

  /** c * x^s * p has no coefficient above deg p + s. */
  lemma ShiftScaleAbove(p: Poly, c: nat, s: nat, zp: nat, i: nat)
    requires zp > 1 && Reduced(p, zp) && i > Deg(p) + s
    ensures Coef(Shift(Scale(p, c, zp), s), i) == 0
  {
    ShiftScaleCoef(p, c, s, zp, i);
    var a := Coef(p, i - s);
    assert a == 0;
    assert a * c == 0;
    assert 0 % zp == 0;
  }

  /** A polynomial whose coefficients vanish from d up has Size at most d. */
  lemma SizeBelow(r': Poly, d: nat)
    requires forall i: nat :: i >= d ==> Coef(r', i) == 0
    ensures Size(r') <= d
  {
    EqualsZero(r');
    if d == 0 {
      assert Equals(r', Zero);
    } else if Deg(r') >= d {
      assert false;
    }
  }

  lemma StepShrinks(p: Poly, r: Poly, c: nat, zp: nat)
    requires zp > 1 && Reduced(p, zp) && Reduced(r, zp) && Deg(r) >= Deg(p)
    requires (Coef(p, Deg(p)) * c) % zp == Coef(r, Deg(r))
    ensures Size(Sub(r, Shift(Scale(p, c, zp), Deg(r) - Deg(p)), zp)) <= Deg(r)
    ensures Deg(Sub(r, Shift(Scale(p, c, zp), Deg(r) - Deg(p)), zp)) <= Deg(r)
  {
    var r' := Sub(r, Shift(Scale(p, c, zp), Deg(r) - Deg(p)), zp);
    forall i: nat | i >= Deg(r)
      ensures Coef(r', i) == 0
    {
      StepClears(p, r, c, zp, i);
    }
    SizeBelow(r', Deg(r));
    if Deg(r') > Deg(r) {
      EqualsZero(r');
    }
  }

  /** One step of the loop: c is recorded at x^(deg r - deg p) in the
      quotient (`set`) and c * x^shift * p is subtracted from the remainder. */
  function Step(p: Poly, q: Poly, r: Poly, c: nat, zp: nat): (qr: (Poly, Poly))
    requires zp > 1 && Reduced(p, zp) && Reduced(q, zp) && Reduced(r, zp)
    requires Deg(p) <= Deg(r) < Deg(p) + |q|
    requires c < zp && (Coef(p, Deg(p)) * c) % zp == Coef(r, Deg(r))
    ensures |qr.0| == |q| && Reduced(qr.0, zp) && Reduced(qr.1, zp)
    ensures Size(qr.1) <= Deg(r) && Deg(qr.1) < Deg(p) + |q|
  {
    StepShrinks(p, r, c, zp);
    var s := Deg(r) - Deg(p);
    (Set(q, s, c, zp), Sub(r, Shift(Scale(p, c, zp), s), zp))
  }

  /** The loop of `divide`, from quotient q and remainder r. It stops when the
      remainder is Zero or of lower degree than p, and fails when some step's
      equation has no solution. */
  function DivSteps(p: Poly, q: Poly, r: Poly, zp: nat): (res: Result<(Poly, Poly)>)
    requires zp > 1 && Reduced(p, zp) && Reduced(q, zp) && Reduced(r, zp)
    requires !Equals(p, Zero) && Deg(r) < Deg(p) + |q|
    ensures res.Ok? ==> |res.value.0| == |q|
    ensures res.Ok? ==> Reduced(res.value.0, zp) && Reduced(res.value.1, zp)
    ensures res.Ok? ==> Equals(res.value.1, Zero) || Deg(res.value.1) < Deg(p)
    ensures res.Err? ==> res.error == Unsolvable
    decreases Size(r), 1
  {
    if Deg(r) < Deg(p) || Equals(r, Zero) then Ok((q, r)) else DivTurn(p, q, r, zp)
  }

  /** One turn of the loop on a remainder of degree at least deg p, then the
      rest of the loop. */
  function DivTurn(p: Poly, q: Poly, r: Poly, zp: nat): (res: Result<(Poly, Poly)>)
    requires zp > 1 && Reduced(p, zp) && Reduced(q, zp) && Reduced(r, zp)
    requires !Equals(p, Zero) && Deg(p) <= Deg(r) < Deg(p) + |q| && !Equals(r, Zero)
    ensures res.Ok? ==> |res.value.0| == |q|
    ensures res.Ok? ==> Reduced(res.value.0, zp) && Reduced(res.value.1, zp)
    ensures res.Ok? ==> Equals(res.value.1, Zero) || Deg(res.value.1) < Deg(p)
    ensures res.Err? ==> res.error == Unsolvable
    decreases Size(r), 0
  {
    SolveStep(p, r, zp);
    match Solve(Coef(p, Deg(p)), Coef(r, Deg(r)), zp)
    case NoSolution => Err(Unsolvable)
    case Solved(c) =>
      var next := Step(p, q, r, c, zp);
      DivSteps(p, next.0, next.1, zp)
  }

  /** What `expanded_gcd` gives one step: a reduced c with lc(p) * c = lc(r). */
  lemma SolveStep(p: Poly, r: Poly, zp: nat)
    requires zp > 1 && Reduced(p, zp) && Reduced(r, zp) && !Equals(p, Zero)
    ensures Coef(p, Deg(p)) % zp != 0
    ensures Solve(Coef(p, Deg(p)), Coef(r, Deg(r)), zp).Solved? ==>
              Solve(Coef(p, Deg(p)), Coef(r, Deg(r)), zp).x < zp &&
              (Coef(p, Deg(p)) * Solve(Coef(p, Deg(p)), Coef(r, Deg(r)), zp).x) % zp == Coef(r, Deg(r))
  {
    LeadingNonZero(p, zp);
    var a, b := Coef(p, Deg(p)), Coef(r, Deg(r));
    SolveCorrect(a, b, zp);
    ModOfSmall(b, zp);
    var g := GcdSpec(a % zp, zp);
    if g > 1 {
      DivMod(zp, g);
      MulMono(g, 1, zp / g);
    }
  }

  /** The reference definition of `divide`: Zero divisor throws; a divisor of
      higher degree gives (Zero, this); otherwise the loop runs from a zero
      quotient of deg(this) - deg(p) + 1 coefficients. */
  function Division(n: Poly, p: Poly, zp: nat): (res: Result<(Poly, Poly)>)
    requires zp > 1 && Reduced(n, zp) && Reduced(p, zp)
    ensures res.Ok? ==> Reduced(res.value.0, zp) && Reduced(res.value.1, zp)
    ensures res.Ok? ==> Equals(res.value.1, Zero) || Deg(res.value.1) < Deg(p)
    ensures res.Err? ==> res.error == (if Equals(p, Zero) then DivisionByZero else Unsolvable)
  {
    if Equals(p, Zero) then Err(DivisionByZero)
    else if Deg(p) > Deg(n) then Ok((Zero, n))
    else DivSteps(p, Zeros(Deg(n) - Deg(p) + 1), n, zp)
  }

  /** `operator%`: the remainder of `divide`. */
  function Rem(n: Poly, p: Poly, zp: nat): (res: Result<Poly>)
    requires zp > 1 && Reduced(n, zp) && Reduced(p, zp)
    ensures res.Ok? ==> Reduced(res.value, zp) && (Equals(res.value, Zero) || Deg(res.value) < Deg(p))
    ensures res.Err? ==> res.error in {DivisionByZero, Unsolvable}
  {
    var d :- Division(n, p, zp);
    Ok(d.1)
  }

  /** `operator/`: the quotient of `divide`. */
  function Quot(n: Poly, p: Poly, zp: nat): (res: Result<Poly>)
    requires zp > 1 && Reduced(n, zp) && Reduced(p, zp)
    ensures res.Ok? ==> Reduced(res.value, zp)
  {
    var d :- Division(n, p, zp);
    Ok(d.0)
  }

  // ----- correctness -----

  /** The loop keeps n = q * p + r coefficient by coefficient. */
  ghost predicate DivInvariant(n: Poly, p: Poly, q: Poly, r: Poly, zp: nat)
    requires zp > 0
  {
    forall k: nat :: InvariantAt(n, p, q, r, zp, k)
  }

  /** Coefficient k of n = q * p + r. */
  ghost predicate InvariantAt(n: Poly, p: Poly, q: Poly, r: Poly, zp: nat, k: nat)
    requires zp > 0
  {
    (Conv(q, p, k) + Coef(r, k)) % zp == Coef(n, k)
  }

  /** Quotient slots the loop may still write are zero. */
  ghost predicate Fresh(p: Poly, q: Poly, r: Poly)
  {
    !Equals(r, Zero) ==> forall i: nat :: Deg(p) + i <= Deg(r) ==> Coef(q, i) == 0
  }

  /** Setting a zero quotient slot s to c adds c * p_(k-s) to coefficient k of q * p. */
  lemma ConvSet(q: Poly, p: Poly, s: nat, c: nat, zp: nat, k: nat, T: int)
    requires zp > 1 && s < |q| && Coef(q, s) == 0 && c < zp
    requires T == if k >= s then c * Coef(p, k - s) else 0
    ensures Conv(Set(q, s, c, zp), p, k) == Conv(q, p, k) + T
  {
    var q' := Set(q, s, c, zp);
    ModOfSmall(c, zp);
    var f, f' := ConvTerm(q, p, k), ConvTerm(q', p, k);
    var D := (j: nat) => if k >= s && j == k - s then c * Coef(p, k - s) else 0;
    forall j: nat | j < k + 1
      ensures f'(j) == f(j) + D(j)
    {
      if k - j == s {
        MulZero(Coef(p, j));
        ProductCommutes(0, Coef(p, j));
      }
    }
    SumAdd(k + 1, f, D, f');
    if k >= s {
      SumSingle(k + 1, D, k - s);
    } else {
      SumZeroTail(0, k + 1, D);
    }
  }

  /** (C + T + (R - T mod m)) mod m = (C + R) mod m. */
  lemma CancelMod(C: int, T: int, R: int, m: int)
    requires m > 0
    ensures (C + T + (R - T % m) % m) % m == (C + R) % m
  {
    ModIdempotent(R - T % m, m);
    ModIdempotent(T, m);
    ModAddCongruent(R, R, -(T % m), -T, m) by {
      ModMulCongruent(T % m, T, -1, m);
    }
    ModAddCongruent(C + T, C + T, (R - T % m) % m, R - T, m);
  }

  /** One division step keeps the invariant and the freshness of the quotient. */
  lemma StepInvariant(n: Poly, p: Poly, q: Poly, r: Poly, c: nat, zp: nat)
    requires zp > 1 && Reduced(n, zp) && Reduced(p, zp) && Reduced(q, zp) && Reduced(r, zp)
    requires !Equals(r, Zero) && Deg(p) <= Deg(r) < Deg(p) + |q|
    requires c < zp && (Coef(p, Deg(p)) * c) % zp == Coef(r, Deg(r))
    requires DivInvariant(n, p, q, r, zp) && Fresh(p, q, r)
    ensures DivInvariant(n, p, Step(p, q, r, c, zp).0, Step(p, q, r, c, zp).1, zp)
    ensures Fresh(p, Step(p, q, r, c, zp).0, Step(p, q, r, c, zp).1)
  {
    var next := Step(p, q, r, c, zp);
    forall k: nat
      ensures InvariantAt(n, p, next.0, next.1, zp, k)
    {
      StepInvariantAt(n, p, q, r, c, zp, k);
    }
    StepFresh(p, q, r, c, zp);
  }

  lemma StepFresh(p: Poly, q: Poly, r: Poly, c: nat, zp: nat)
    requires zp > 1 && Reduced(p, zp) && Reduced(q, zp) && Reduced(r, zp)
    requires !Equals(r, Zero) && Deg(p) <= Deg(r) < Deg(p) + |q|
    requires c < zp && (Coef(p, Deg(p)) * c) % zp == Coef(r, Deg(r))
    requires Fresh(p, q, r)
    ensures Fresh(p, Step(p, q, r, c, zp).0, Step(p, q, r, c, zp).1)
  {
    var next := Step(p, q, r, c, zp);
    assert next.0 == Set(q, Deg(r) - Deg(p), c, zp);
    if !Equals(next.1, Zero) {
      forall i: nat | Deg(p) + i <= Deg(next.1)
        ensures Coef(next.0, i) == 0
      {
        assert i != Deg(r) - Deg(p);
      }
    }
  }

  lemma StepInvariantAt(n: Poly, p: Poly, q: Poly, r: Poly, c: nat, zp: nat, k: nat)
    requires zp > 1 && Reduced(p, zp) && Reduced(q, zp) && Reduced(r, zp)
    requires !Equals(r, Zero) && Deg(p) <= Deg(r) < Deg(p) + |q|
    requires c < zp && (Coef(p, Deg(p)) * c) % zp == Coef(r, Deg(r))
    requires DivInvariant(n, p, q, r, zp) && Fresh(p, q, r)
    ensures InvariantAt(n, p, Step(p, q, r, c, zp).0, Step(p, q, r, c, zp).1, zp, k)
  {
    var s := Deg(r) - Deg(p);
    var q', r' := Set(q, s, c, zp), Sub(r, Shift(Scale(p, c, zp), s), zp);
    assert Step(p, q, r, c, zp) == (q', r');
    assert InvariantAt(n, p, q, r, zp, k);
    assert Coef(q, s) == 0;
    var T: int := if k >= s then c * Coef(p, k - s) else 0;
    ConvSet(q, p, s, c, zp, k, T);
    RemainderCoef(p, r, c, s, zp, k, T);
    InvariantCombine(n, p, q, r, q', r', zp, k, T);
  }

  /** Adding T to the convolution and taking T off the remainder keeps
      their sum mod zp. */
  lemma InvariantCombine(n: Poly, p: Poly, q: Poly, r: Poly, q': Poly, r': Poly, zp: nat, k: nat, T: int)
    requires zp > 1 && InvariantAt(n, p, q, r, zp, k)
    requires Conv(q', p, k) == Conv(q, p, k) + T && Coef(r', k) == (Coef(r, k) - T % zp) % zp
    ensures InvariantAt(n, p, q', r', zp, k)
  {
    CancelMod(Conv(q, p, k), T, Coef(r, k), zp);
  }

  /** Coefficient k of the remainder after subtracting c * x^s * p, with T
      the coefficient k of c * x^s * p before reduction. */
  lemma RemainderCoef(p: Poly, r: Poly, c: nat, s: nat, zp: nat, k: nat, T: int)
    requires zp > 1 && Reduced(p, zp) && Reduced(r, zp)
    requires T == if k >= s then c * Coef(p, k - s) else 0
    ensures Coef(Sub(r, Shift(Scale(p, c, zp), s), zp), k) == (Coef(r, k) - T % zp) % zp
  {
    SubCoef(r, Shift(Scale(p, c, zp), s), zp, k);
    ShiftScaleCoef(p, c, s, zp, k);
    if k >= s {
      ProductCommutes(c, Coef(p, k - s));
    }
  }

  lemma {:induction false} DivStepsCorrect(n: Poly, p: Poly, q: Poly, r: Poly, zp: nat)
    requires zp > 1 && Reduced(n, zp) && Reduced(p, zp) && Reduced(q, zp) && Reduced(r, zp)
    requires !Equals(p, Zero) && Deg(r) < Deg(p) + |q|
    requires DivInvariant(n, p, q, r, zp) && Fresh(p, q, r)
    ensures DivSteps(p, q, r, zp).Ok? ==>
              DivInvariant(n, p, DivSteps(p, q, r, zp).value.0, DivSteps(p, q, r, zp).value.1, zp)
    decreases Size(r)
  {
    if !(Deg(r) < Deg(p) || Equals(r, Zero)) {
      assert DivSteps(p, q, r, zp) == DivTurn(p, q, r, zp);
      SolveStep(p, r, zp);
      var sol := Solve(Coef(p, Deg(p)), Coef(r, Deg(r)), zp);
      if sol.Solved? {
        var next := Step(p, q, r, sol.x, zp);
        StepInvariant(n, p, q, r, sol.x, zp);
        DivStepsCorrect(n, p, next.0, next.1, zp);
      }
    }
  }

  /** A quotient of zeros contributes nothing. */
  lemma ConvZeros(q: Poly, p: Poly, k: nat)
    requires forall i: nat :: Coef(q, i) == 0
    ensures Conv(q, p, k) == 0
  {
    var f := ConvTerm(q, p, k);
    forall j: nat | j < k + 1
      ensures f(j) == 0
    {
      ProductCommutes(0, Coef(p, j));
    }
    SumZeroTail(0, k + 1, f);
  }

  /** The loop starts with a zero quotient and the whole dividend as remainder. */
  lemma DivInvariantInit(n: Poly, p: Poly, q0: Poly, zp: nat)
    requires zp > 1 && Reduced(n, zp)
    requires forall i: nat :: Coef(q0, i) == 0
    ensures DivInvariant(n, p, q0, n, zp) && Fresh(p, q0, n)
  {
    forall k: nat
      ensures InvariantAt(n, p, q0, n, zp, k)
    {
      ConvZeros(q0, p, k);
      ModOfSmall(Coef(n, k), zp);
    }
  }

  /** The coefficientwise invariant gives q * p + r = n as polynomials. */
  lemma DivInvariantSame(n: Poly, p: Poly, q: Poly, r: Poly, zp: nat)
    requires zp > 1 && Reduced(n, zp) && Reduced(p, zp) && Reduced(q, zp) && Reduced(r, zp)
    requires DivInvariant(n, p, q, r, zp)
    ensures Same(Add(Mul(q, p, zp), r, zp), n)
  {
    forall k: nat
      ensures Coef(Add(Mul(q, p, zp), r, zp), k) == Coef(n, k)
    {
      DivInvariantAt(n, p, q, r, zp, k);
    }
  }

  lemma DivInvariantAt(n: Poly, p: Poly, q: Poly, r: Poly, zp: nat, k: nat)
    requires zp > 1 && Reduced(n, zp) && Reduced(p, zp) && Reduced(q, zp) && Reduced(r, zp)
    requires InvariantAt(n, p, q, r, zp, k)
    ensures Coef(Add(Mul(q, p, zp), r, zp), k) == Coef(n, k)
  {
    AddCoef(Mul(q, p, zp), r, zp, k);
    CoefMul(q, p, zp, k);
    ModIdempotent(Conv(q, p, k), zp);
    ModOfSmall(Coef(r, k), zp);
    ModAdd(Conv(q, p, k), Coef(r, k), zp);
    ModAdd(Conv(q, p, k) % zp, Coef(r, k), zp);
  }

  /** `divide` under THROW: it fails with DivisionByZero exactly for a Zero
      divisor; on success this = q * p + r with r Zero or deg r < deg p. */
  lemma DivisionCorrect(n: Poly, p: Poly, zp: nat)
    requires zp > 1 && Reduced(n, zp) && Reduced(p, zp)
    ensures Division(n, p, zp) == Err(DivisionByZero) <==> Equals(p, Zero)
    ensures Division(n, p, zp).Ok? ==>
              Same(Add(Mul(Division(n, p, zp).value.0, p, zp), Division(n, p, zp).value.1, zp), n)
    ensures Division(n, p, zp).Ok? ==>
              Equals(Division(n, p, zp).value.1, Zero) || Deg(Division(n, p, zp).value.1) < Deg(p)
  {
    var res := Division(n, p, zp);
    if !Equals(p, Zero) {
      if Deg(p) > Deg(n) {
        DivInvariantInit(n, p, Zero, zp);
      } else {
        var q0 := Zeros(Deg(n) - Deg(p) + 1);
        DivInvariantInit(n, p, q0, zp);
        DivStepsCorrect(n, p, q0, n, zp);
        assert res == DivSteps(p, q0, n, zp);
      }
      if res.Ok? {
        DivInvariantSame(n, p, res.value.0, res.value.1, zp);
      }
    }
  }

  /** Over a prime field a non-zero divisor never makes `divide` throw. */
  lemma {:induction false} DivStepsTotalModPrime(p: Poly, q: Poly, r: Poly, zp: nat)
    requires IsPrime(zp) && Reduced(p, zp) && Reduced(q, zp) && Reduced(r, zp)
    requires !Equals(p, Zero) && Deg(r) < Deg(p) + |q|
    ensures DivSteps(p, q, r, zp).Ok?
    decreases Size(r)
  {
    if !(Deg(r) < Deg(p) || Equals(r, Zero)) {
      assert DivSteps(p, q, r, zp) == DivTurn(p, q, r, zp);
      SolveStep(p, r, zp);
      SolvableModPrime(Coef(p, Deg(p)), Coef(r, Deg(r)), zp);
      var next := Step(p, q, r, Solve(Coef(p, Deg(p)), Coef(r, Deg(r)), zp).x, zp);
      DivStepsTotalModPrime(p, next.0, next.1, zp);
    }
  }

  lemma DivisionTotalModPrime(n: Poly, p: Poly, zp: nat)
    requires IsPrime(zp) && Reduced(n, zp) && Reduced(p, zp) && !Equals(p, Zero)
    ensures Division(n, p, zp).Ok?
  {
    if Deg(p) <= Deg(n) {
      DivStepsTotalModPrime(p, Zeros(Deg(n) - Deg(p) + 1), n, zp);
    }
  }

  /** Equal remainders take the same steps: the quotients agree and the
      remainders stay equal. */
  lemma {:induction false} DivStepsSame(p: Poly, q: Poly, r: Poly, r': Poly, zp: nat)
    requires zp > 1 && Reduced(p, zp) && Reduced(q, zp) && Reduced(r, zp) && Reduced(r', zp)
    requires !Equals(p, Zero) && Deg(r) < Deg(p) + |q| && Deg(r') < Deg(p) + |q| && Same(r, r')
    ensures DivSteps(p, q, r, zp).Ok? == DivSteps(p, q, r', zp).Ok?
    ensures DivSteps(p, q, r, zp).Ok? ==>
              DivSteps(p, q, r, zp).value.0 == DivSteps(p, q, r', zp).value.0 &&
              Same(DivSteps(p, q, r, zp).value.1, DivSteps(p, q, r', zp).value.1)
    decreases Size(r), 1
  {
    SameDeg(r, r');
    EqualsIffSame(r, Zero);
    EqualsIffSame(r', Zero);
    if !(Deg(r) < Deg(p) || Equals(r, Zero)) {
      assert Coef(r, Deg(r)) == Coef(r', Deg(r'));
      SolveStep(p, r, zp);
      var sol := Solve(Coef(p, Deg(p)), Coef(r, Deg(r)), zp);
      if sol.Solved? {
        DivStepsSameStep(p, q, r, r', sol.x, zp);
      }
    }
  }

  /** One loop turn of `DivSteps`, once the step's equation is solved by c. */
  lemma DivStepsUnfold(p: Poly, q: Poly, r: Poly, c: nat, zp: nat)
    requires zp > 1 && Reduced(p, zp) && Reduced(q, zp) && Reduced(r, zp)
    requires !Equals(p, Zero) && Deg(p) <= Deg(r) < Deg(p) + |q| && !Equals(r, Zero)
    requires Solve(Coef(p, Deg(p)), Coef(r, Deg(r)), zp) == Solved(c)
    requires c < zp && (Coef(p, Deg(p)) * c) % zp == Coef(r, Deg(r))
    ensures DivSteps(p, q, r, zp) == DivSteps(p, Step(p, q, r, c, zp).0, Step(p, q, r, c, zp).1, zp)
  {
    assert DivSteps(p, q, r, zp) == DivTurn(p, q, r, zp);
  }

  /** A loop turn whose equation has no solution ends the loop with
      Unsolvable. */
  lemma DivStepsFails(p: Poly, q: Poly, r: Poly, zp: nat)
    requires zp > 1 && Reduced(p, zp) && Reduced(q, zp) && Reduced(r, zp)
    requires !Equals(p, Zero) && Deg(p) <= Deg(r) < Deg(p) + |q| && !Equals(r, Zero)
    requires Coef(p, Deg(p)) % zp != 0 && Solve(Coef(p, Deg(p)), Coef(r, Deg(r)), zp).NoSolution?
    ensures DivSteps(p, q, r, zp) == Err(Unsolvable)
  {
    assert DivSteps(p, q, r, zp) == DivTurn(p, q, r, zp);
  }

  /** One step from equal remainders gives the same quotient and equal
      remainders. */
  lemma StepSame(p: Poly, q: Poly, r: Poly, r': Poly, c: nat, zp: nat)
    requires zp > 1 && Reduced(p, zp) && Reduced(q, zp) && Reduced(r, zp) && Reduced(r', zp)
    requires Deg(p) <= Deg(r) < Deg(p) + |q| && Same(r, r') && Deg(r) == Deg(r')
    requires Coef(r, Deg(r)) == Coef(r', Deg(r'))
    requires c < zp && (Coef(p, Deg(p)) * c) % zp == Coef(r, Deg(r))
    ensures Step(p, q, r, c, zp).0 == Step(p, q, r', c, zp).0
    ensures Same(Step(p, q, r, c, zp).1, Step(p, q, r', c, zp).1)
  {
    var s := Shift(Scale(p, c, zp), Deg(r) - Deg(p));
    SubSame(r, r', s, zp);
    assert Step(p, q, r, c, zp).1 == Sub(r, s, zp);
    assert Step(p, q, r', c, zp).1 == Sub(r', s, zp);
  }

  /** Subtracting the same polynomial from equal ones gives equal results. */
  lemma SubSame(r: Poly, r': Poly, s: Poly, zp: nat)
    requires zp > 1 && Reduced(r, zp) && Reduced(r', zp) && Reduced(s, zp) && Same(r, r')
    ensures Same(Sub(r, s, zp), Sub(r', s, zp))
  {
    forall i: nat
      ensures Coef(Sub(r, s, zp), i) == Coef(Sub(r', s, zp), i)
    {
      SubCoef(r, s, zp, i);
      SubCoef(r', s, zp, i);
    }
  }

  /** `DivStepsSame` for a loop turn whose equation is solved by c. */
  lemma {:induction false} DivStepsSameStep(p: Poly, q: Poly, r: Poly, r': Poly, c: nat, zp: nat)
    requires zp > 1 && Reduced(p, zp) && Reduced(q, zp) && Reduced(r, zp) && Reduced(r', zp)
    requires !Equals(p, Zero) && Deg(p) <= Deg(r) < Deg(p) + |q| && Same(r, r')
    requires !Equals(r, Zero) && !Equals(r', Zero) && Deg(r) == Deg(r')
    requires Coef(r, Deg(r)) == Coef(r', Deg(r'))
    requires Solve(Coef(p, Deg(p)), Coef(r, Deg(r)), zp) == Solved(c)
    requires c < zp && (Coef(p, Deg(p)) * c) % zp == Coef(r, Deg(r))
    ensures DivSteps(p, q, r, zp).Ok? == DivSteps(p, q, r', zp).Ok?
    ensures DivSteps(p, q, r, zp).Ok? ==>
              DivSteps(p, q, r, zp).value.0 == DivSteps(p, q, r', zp).value.0 &&
              Same(DivSteps(p, q, r, zp).value.1, DivSteps(p, q, r', zp).value.1)
    decreases Size(r), 0
  {
    var next := Step(p, q, r, c, zp);
    var next' := Step(p, q, r', c, zp);
    StepSame(p, q, r, r', c, zp);
    DivStepsUnfold(p, q, r, c, zp);
    DivStepsUnfold(p, q, r', c, zp);
    DivStepsSame(p, next.0, next.1, next'.1, zp);
  }

  /** The case of `divide` that runs the loop, from the zero quotient q0. */
  lemma DivisionUnfold(n: Poly, p: Poly, zp: nat, q0: Poly)
    requires zp > 1 && Reduced(n, zp) && Reduced(p, zp) && !Equals(p, Zero) && Deg(p) <= Deg(n)
    requires q0 == Zeros(Deg(n) - Deg(p) + 1)
    ensures Division(n, p, zp) == DivSteps(p, q0, n, zp)
  {
  }

  /** `divide` of equal dividends: both fail alike, or the quotients agree
      and the remainders are equal. */
  lemma DivisionSame(n: Poly, n': Poly, p: Poly, zp: nat)
    requires zp > 1 && Reduced(n, zp) && Reduced(n', zp) && Reduced(p, zp) && Same(n, n')
    ensures Division(n, p, zp).Ok? == Division(n', p, zp).Ok?
    ensures Division(n, p, zp).Err? ==> Division(n, p, zp) == Division(n', p, zp)
    ensures Division(n, p, zp).Ok? ==>
              Division(n, p, zp).value.0 == Division(n', p, zp).value.0 &&
              Same(Division(n, p, zp).value.1, Division(n', p, zp).value.1)
  {
    SameDeg(n, n');
    if !Equals(p, Zero) && Deg(p) <= Deg(n) {
      var q0 := Zeros(Deg(n) - Deg(p) + 1);
      DivisionUnfold(n, p, zp, q0);
      DivisionUnfold(n', p, zp, q0);
      DivStepsSame(p, q0, n, n', zp);
    }
  }

  /** `%` gives equal remainders for equal dividends, and fails for both or
      for neither. */
  lemma RemSame(n: Poly, n': Poly, p: Poly, zp: nat)
    requires zp > 1 && Reduced(n, zp) && Reduced(n', zp) && Reduced(p, zp) && Same(n, n')
    ensures Rem(n, p, zp).Ok? == Rem(n', p, zp).Ok?
    ensures Rem(n, p, zp).Err? ==> Rem(n, p, zp) == Rem(n', p, zp)
    ensures Rem(n, p, zp).Ok? ==> Same(Rem(n, p, zp).value, Rem(n', p, zp).value)
  {
    DivisionSame(n, n', p, zp);
  }

  /** `divide`, with its while-loop over remainder, quotient and dt. */
  method Divide(n: Poly, p: Poly, zp: nat) returns (res: Result<(Poly, Poly)>)
    requires zp > 1 && Reduced(n, zp) && Reduced(p, zp)
    ensures res == Division(n, p, zp)
  {
    if Equals(p, Zero) {
      return Err(DivisionByZero);
    }
    var dt, dp := Deg(n), Deg(p);
    if dp > dt {
      return Ok((Zero, n));
    }
    var quotient := Zeros(dt - dp + 1);
    var remainder := n;
    var lc := Coef(p, dp);
    ghost var whole := Division(n, p, zp);
    while dt >= dp && !Equals(remainder, Zero)
      invariant Reduced(quotient, zp) && Reduced(remainder, zp)
      invariant dt == Deg(remainder) && dt < dp + |quotient|
      invariant DivSteps(p, quotient, remainder, zp) == whole
      decreases Size(remainder)
    {
      var next := DivideStep(p, lc, quotient, remainder, zp);
      if next.Err? {
        return Err(next.error);
      }
      quotient, remainder := next.value.0, next.value.1;
      dt := Deg(remainder);
    }
    return Ok((quotient, remainder));
  }

  /** One turn of the loop of `divide`: solve lc(p) * c = lc(r) with
      `expanded_gcd`, then put c at the shift and subtract c * p shifted. */
  method DivideStep(p: Poly, lc: nat, q: Poly, r: Poly, zp: nat) returns (next: Result<(Poly, Poly)>)
    requires zp > 1 && Reduced(p, zp) && Reduced(q, zp) && Reduced(r, zp)
    requires !Equals(p, Zero) && lc == Coef(p, Deg(p))
    requires Deg(p) <= Deg(r) < Deg(p) + |q| && !Equals(r, Zero)
    ensures next.Err? ==> next.error == Unsolvable && DivSteps(p, q, r, zp) == Err(Unsolvable)
    ensures next.Ok? ==> Reduced(next.value.0, zp) && Reduced(next.value.1, zp)
    ensures next.Ok? ==> |next.value.0| == |q| && Deg(next.value.1) < Deg(p) + |q|
    ensures next.Ok? ==> Size(next.value.1) < Size(r)
    ensures next.Ok? ==> DivSteps(p, q, r, zp) == DivSteps(p, next.value.0, next.value.1, zp)
  {
    var dt := Deg(r);
    var shift := dt - Deg(p);
    SolveStep(p, r, zp);
    var coefficient := ExpandedGcd(lc, Coef(r, dt), zp);
    if coefficient.NoSolution? {
      DivStepsFails(p, q, r, zp);
      return Err(Unsolvable);
    }
    DivStepsUnfold(p, q, r, coefficient.x, zp);
    ghost var step := Step(p, q, r, coefficient.x, zp);
    var quotient := Set(q, shift, coefficient.x, zp);
    var remainder := Sub(r, Shift(Scale(p, coefficient.x, zp), shift), zp);
    assert (quotient, remainder) == step;
    return Ok((quotient, remainder));
  }
}
