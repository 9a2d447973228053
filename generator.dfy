/** The consecutive polynomial generator
    (src/algebra/ConsecutivePolynomialGenerator.h): a counter in base Zp over
    the coefficients below Deg of a monic polynomial of degree Deg. */
module ConsecutiveGenerator {
  import opened Arith
  import opened Polynomials

  /** A counter state: Deg + 1 reduced coefficients, the top one equal to 1. */
  predicate IsState(v: Poly, deg: nat, zp: nat)
  {
    |v| == deg + 1 && Reduced(v, zp) && v[deg] == 1
  }

  /** What `reset()` stores: Deg + 1 zero entries, then coefficient Deg set to 1 (x^Deg). */
  function Start(deg: nat, zp: nat): (s: Poly)
    requires zp > 1
    ensures IsState(s, deg, zp)
    ensures forall i :: 0 <= i < deg ==> s[i] == 0
  {
    ModOfSmall(1, zp);
    Set(Zeros(deg + 1), deg, 1, zp)
  }

  /** The coefficients c .. Deg-1 read as a number in base Zp, lowest digit first. */
  function Index(v: Poly, c: nat, deg: nat, zp: nat): nat
    decreases deg - c
  {
    if c >= deg then 0 else Coef(v, c) + zp * Index(v, c + 1, deg, zp)
  }

  /** The do-while loop of `operator()` from index c: coefficient c is set to
      itself + 1; a wrap to 0 carries to c + 1; reaching Deg sets the end flag. */
  function Carry(v: Poly, c: nat, deg: nat, zp: nat): (res: (Poly, bool))
    requires zp > 1 && IsState(v, deg, zp) && c <= deg
    ensures IsState(res.0, deg, zp)
    ensures forall i :: 0 <= i < c ==> res.0[i] == v[i]
    decreases deg - c
  {
    if c == deg then (v, true)
    else
      var v' := Set(v, c, v[c] + 1, zp);
      if v'[c] == 0 then Carry(v', c + 1, deg, zp) else (v', false)
  }

  // ----- the counter reading -----

  /** Index only reads the coefficients from c on. */
  lemma {:induction false} IndexFrame(v: Poly, w: Poly, c: nat, deg: nat, zp: nat)
    requires forall i: nat :: c <= i ==> Coef(v, i) == Coef(w, i)
    ensures Index(v, c, deg, zp) == Index(w, c, deg, zp)
    decreases deg - c
  {
    if c < deg {
      IndexFrame(v, w, c + 1, deg, zp);
    }
  }

  /** A state's index is below Zp^(Deg - c). */
  lemma {:induction false} IndexBound(v: Poly, c: nat, deg: nat, zp: nat)
    requires zp > 1 && IsState(v, deg, zp) && c <= deg
    ensures Index(v, c, deg, zp) < Pow(zp, deg - c)
    decreases deg - c
  {
    if c < deg {
      IndexBound(v, c + 1, deg, zp);
      DigitBound(v[c], Index(v, c + 1, deg, zp), Pow(zp, deg - c - 1), zp);
      assert Pow(zp, deg - c) == Pow(zp, deg - c - 1) * zp;
    }
  }

  /** x + zp * y < zp * p for a digit x < zp and y < p. */
  lemma DigitBound(x: nat, y: nat, p: nat, zp: nat)
    requires x < zp && y < p
    ensures x + zp * y < p * zp
    ensures x + 1 < zp ==> x + 1 + zp * y < p * zp
  {
    MulMono(p - 1, y, zp);
    assert (p - 1) * zp == p * zp - zp;
  }

  /** x^Deg reads as 0. */
  lemma {:induction false} StartIndex(c: nat, deg: nat, zp: nat)
    requires zp > 1
    ensures Index(Start(deg, zp), c, deg, zp) == 0
    decreases deg - c
  {
    if c < deg {
      StartIndex(c + 1, deg, zp);
    }
  }

  /** One call adds 1 to the reading, wrapping to 0 exactly when the end flag
      is raised, which happens exactly when the reading was Zp^(Deg - c) - 1. */
  lemma {:induction false} CarryIndex(v: Poly, c: nat, deg: nat, zp: nat)
    requires zp > 1 && IsState(v, deg, zp) && c <= deg
    ensures Carry(v, c, deg, zp).1 <==> Index(v, c, deg, zp) + 1 == Pow(zp, deg - c)
    ensures Index(Carry(v, c, deg, zp).0, c, deg, zp) ==
              if Carry(v, c, deg, zp).1 then 0 else Index(v, c, deg, zp) + 1
    decreases deg - c
  {
    if c < deg {
      if v[c] + 1 < zp {
        CarryNoWrap(v, c, deg, zp);
      } else {
        var v' := Set(v, c, v[c] + 1, zp);
        ModOfMultiple(1, zp);
        CarryIndex(v', c + 1, deg, zp);
        CarryWrap(v, c, deg, zp);
      }
    }
  }

  /** Coefficient c below Zp - 1: it goes up by one and the call ends there. */
  lemma CarryNoWrap(v: Poly, c: nat, deg: nat, zp: nat)
    requires zp > 1 && IsState(v, deg, zp) && c < deg && v[c] + 1 < zp
    ensures !Carry(v, c, deg, zp).1
    ensures Index(v, c, deg, zp) + 1 != Pow(zp, deg - c)
    ensures Index(Carry(v, c, deg, zp).0, c, deg, zp) == Index(v, c, deg, zp) + 1
  {
    var x, y := v[c], Index(v, c + 1, deg, zp);
    var v' := Set(v, c, x + 1, zp);
    var p := Pow(zp, deg - c - 1);
    assert Pow(zp, deg - c) == p * zp;
    ModOfSmall(x + 1, zp);
    assert Carry(v, c, deg, zp) == (v', false);
    IndexBound(v, c + 1, deg, zp);
    IndexFrame(v', v, c + 1, deg, zp);
    DigitBound(x, y, p, zp);
  }

  /** Coefficient c at Zp - 1: it wraps to 0 and the carry moves on. */
  lemma CarryWrap(v: Poly, c: nat, deg: nat, zp: nat)
    requires zp > 1 && IsState(v, deg, zp) && c < deg && v[c] + 1 == zp
    requires Set(v, c, v[c] + 1, zp)[c] == 0
    requires var v' := Set(v, c, v[c] + 1, zp);
      (Carry(v', c + 1, deg, zp).1 <==> Index(v', c + 1, deg, zp) + 1 == Pow(zp, deg - c - 1)) &&
      Index(Carry(v', c + 1, deg, zp).0, c + 1, deg, zp) ==
        if Carry(v', c + 1, deg, zp).1 then 0 else Index(v', c + 1, deg, zp) + 1
    ensures Carry(v, c, deg, zp).1 <==> Index(v, c, deg, zp) + 1 == Pow(zp, deg - c)
    ensures Index(Carry(v, c, deg, zp).0, c, deg, zp) ==
              if Carry(v, c, deg, zp).1 then 0 else Index(v, c, deg, zp) + 1
  {
    var y := Index(v, c + 1, deg, zp);
    var v' := Set(v, c, v[c] + 1, zp);
    var p := Pow(zp, deg - c - 1);
    assert Pow(zp, deg - c) == p * zp;
    IndexFrame(v', v, c + 1, deg, zp);
    assert Carry(v, c, deg, zp) == Carry(v', c + 1, deg, zp);
    var w := Carry(v', c + 1, deg, zp).0;
    assert w[c] == 0;
    assert Index(v, c, deg, zp) == (zp - 1) + zp * y;
    MulSucc(y, zp);
    ProductCommutes(y, zp);
    ProductCommutes(y + 1, zp);
    assert Index(v, c, deg, zp) + 1 == zp * (y + 1);
    assert Index(w, c, deg, zp) == zp * Index(w, c + 1, deg, zp);
    assert Index(v', c + 1, deg, zp) == y;
    PowPositive(zp, deg - c - 1);
    ProductCommutes(p, zp);
    MulCancel(y + 1, p, zp);
    if Carry(v', c + 1, deg, zp).1 {
      assert Index(w, c + 1, deg, zp) == 0;
      assert Index(w, c, deg, zp) == 0;
      assert Index(v, c, deg, zp) + 1 == Pow(zp, deg - c);
    } else {
      assert Index(w, c + 1, deg, zp) == y + 1;
      assert y + 1 != p;
      assert Index(v, c, deg, zp) + 1 != Pow(zp, deg - c);
    }
  }

  /** zp * a == zp * b only when a == b (zp > 0). */
  lemma MulCancel(a: nat, b: nat, zp: nat)
    requires zp > 0
    ensures zp * a == zp * b <==> a == b
  {
    if a < b {
      MulMono(b, a + 1, zp);
      ProductCommutes(a, zp);
      ProductCommutes(b, zp);
    } else if b < a {
      MulMono(a, b + 1, zp);
      ProductCommutes(a, zp);
      ProductCommutes(b, zp);
    }
  }

  /** Two states with the same reading are the same vector. */
  lemma {:induction false} IndexInjective(v: Poly, w: Poly, c: nat, deg: nat, zp: nat)
    requires zp > 1 && IsState(v, deg, zp) && IsState(w, deg, zp) && c <= deg
    requires Index(v, c, deg, zp) == Index(w, c, deg, zp)
    ensures forall i :: c <= i <= deg ==> v[i] == w[i]
    decreases deg - c
  {
    if c < deg {
      var n := Index(v, c, deg, zp);
      ProductCommutes(zp, Index(v, c + 1, deg, zp));
      ProductCommutes(zp, Index(w, c + 1, deg, zp));
      DivModUnique(n, zp, Index(v, c + 1, deg, zp), v[c]);
      DivModUnique(n, zp, Index(w, c + 1, deg, zp), w[c]);
      IndexInjective(v, w, c + 1, deg, zp);
    }
  }

  // ----- enumeration between two resets -----

  /** The polynomial returned by call k + 1 after a reset (call 1 returns x^Deg). */
  function Run(k: nat, deg: nat, zp: nat): (v: Poly)
    requires zp > 1
    ensures IsState(v, deg, zp)
    decreases k, 0
  {
    if k == 0 then Start(deg, zp) else Call(k - 1, deg, zp).0
  }

  /** The state and end flag of the call that follows Run(k). */
  function Call(k: nat, deg: nat, zp: nat): (res: (Poly, bool))
    requires zp > 1
    decreases k, 1
  {
    Carry(Run(k, deg, zp), 0, deg, zp)
  }

  /** The number of monic polynomials of degree Deg: Zp^Deg. */
  function Count(deg: nat, zp: nat): (n: nat)
    requires zp > 1
    ensures n > 0
  {
    PowPositive(zp, deg);
    Pow(zp, deg)
  }

  /** Call k + 1 returns the state reading k, without the end flag, for k < Zp^Deg. */
  lemma {:induction false} RunIndex(k: nat, deg: nat, zp: nat)
    requires zp > 1 && k < Count(deg, zp)
    ensures Index(Run(k, deg, zp), 0, deg, zp) == k
    ensures k > 0 ==> !Call(k - 1, deg, zp).1
  {
    if k == 0 {
      StartIndex(0, deg, zp);
    } else {
      RunIndex(k - 1, deg, zp);
      CarryIndex(Run(k - 1, deg, zp), 0, deg, zp);
    }
  }

  /** Calls 1 .. Zp^Deg return pairwise different polynomials. */
  lemma RunDistinct(j: nat, k: nat, deg: nat, zp: nat)
    requires zp > 1 && j < k < Count(deg, zp)
    ensures Run(j, deg, zp) != Run(k, deg, zp)
  {
    RunIndex(j, deg, zp);
    RunIndex(k, deg, zp);
  }

  /** Every monic polynomial of degree Deg is returned by call Index(v) + 1. */
  lemma RunCovers(v: Poly, deg: nat, zp: nat)
    requires zp > 1 && IsState(v, deg, zp)
    ensures Index(v, 0, deg, zp) < Count(deg, zp) && Run(Index(v, 0, deg, zp), deg, zp) == v
  {
    var k := Index(v, 0, deg, zp);
    IndexBound(v, 0, deg, zp);
    RunIndex(k, deg, zp);
    IndexInjective(Run(k, deg, zp), v, 0, deg, zp);
  }

  /** Call Zp^Deg + 1 raises the end flag and returns x^Deg. */
  lemma WrapsAround(deg: nat, zp: nat)
    requires zp > 1
    ensures Call(Count(deg, zp) - 1, deg, zp) == (Start(deg, zp), true)
  {
    var n := Count(deg, zp);
    var last := Run(n - 1, deg, zp);
    RunIndex(n - 1, deg, zp);
    CarryIndex(last, 0, deg, zp);
    assert Index(last, 0, deg, zp) + 1 == Pow(zp, deg - 0);
    var next := Carry(last, 0, deg, zp);
    assert next.1 && Index(next.0, 0, deg, zp) == 0;
    StartIndex(0, deg, zp);
    IndexInjective(next.0, Start(deg, zp), 0, deg, zp);
    assert next.0 == Start(deg, zp);
  }

  /** Between two resets the generator returns every monic polynomial of
      degree Deg (as a state vector) exactly once in its first Zp^Deg calls
      (v at call Index(v) + 1),
      with no end flag; the next call raises the flag and returns x^Deg again. */
  lemma Enumerates(deg: nat, zp: nat)
    requires zp > 1
    ensures forall j, k :: 0 <= j < k < Count(deg, zp) ==> Run(j, deg, zp) != Run(k, deg, zp)
    ensures forall v :: IsState(v, deg, zp) ==>
              Index(v, 0, deg, zp) < Count(deg, zp) && Run(Index(v, 0, deg, zp), deg, zp) == v
    ensures forall k :: 0 <= k < Count(deg, zp) - 1 ==> !Call(k, deg, zp).1
    ensures Call(Count(deg, zp) - 1, deg, zp) == (Start(deg, zp), true)
  {
    forall j, k | 0 <= j < k < Count(deg, zp)
      ensures Run(j, deg, zp) != Run(k, deg, zp)
    {
      RunDistinct(j, k, deg, zp);
    }
    forall v | IsState(v, deg, zp)
      ensures Index(v, 0, deg, zp) < Count(deg, zp) && Run(Index(v, 0, deg, zp), deg, zp) == v
    {
      RunCovers(v, deg, zp);
    }
    forall k | 0 <= k < Count(deg, zp) - 1
      ensures !Call(k, deg, zp).1
    {
      RunIndex(k + 1, deg, zp);
    }
    WrapsAround(deg, zp);
  }

  // ----- the generator object -----

  /** `ConsecutivePolynomialGenerator<Zp, Deg>`: the last polynomial returned
      (empty before the first call) and the end flag. */
  class ConsecutivePolynomialGenerator {
    const zp: nat
    const deg: nat
    var last: Poly
    var endReached: bool

    ghost predicate Valid()
      reads this
    {
      zp > 1 && (last == [] || IsState(last, deg, zp))
    }

    /** A fresh generator: the empty polynomial `{}` and no end flag. */
    constructor(zp: nat, deg: nat)
      requires zp > 1
      ensures Valid() && this.zp == zp && this.deg == deg
      ensures last == [] && !endReached
    {
      this.zp := zp;
      this.deg := deg;
      last := [];
      endReached := false;
    }

    /** `end()`: the flag of the last call. */
    function End(): (r: bool)
      reads this
      ensures r <==> endReached
    {
      endReached
    }

    /** `end_supported()`: this generator always reports its end. */
    function EndSupported(): (r: bool)
      ensures r
    {
      true
    }

    /** `reset()`: back to x^Deg with the flag cleared. */
    method Reset()
      requires Valid()
      modifies this
      ensures Valid() && last == Start(deg, zp) && !endReached
    {
      endReached := false;
      last := Start(deg, zp);
    }

    /** `operator()`: the flag is cleared; the first call resets and returns
        x^Deg; later calls run the carry loop from index 0. */
    method Generate() returns (p: Poly)
      requires Valid()
      modifies this
      ensures Valid() && p == last && IsState(p, deg, zp)
      ensures old(last) == [] ==> last == Start(deg, zp) && !endReached
      ensures old(last) != [] ==> (last, endReached) == Carry(old(last), 0, deg, zp)
    {
      endReached := false;
      if |last| == 0 {
        Reset();
        return last;
      }
      var move := true;
      var cindex := 0;
      while move
        invariant cindex <= deg && IsState(last, deg, zp)
        invariant move ==> !endReached && Carry(last, cindex, deg, zp) == Carry(old(last), 0, deg, zp)
        invariant !move ==> (last, endReached) == Carry(old(last), 0, deg, zp)
        decreases deg - cindex + (if move then 1 else 0)
      {
        move := false;
        if cindex == deg {
          endReached := true;
        } else {
          last := Set(last, cindex, last[cindex] + 1, zp);
          if last[cindex] == 0 {
            move := true;
            cindex := cindex + 1;
          }
        }
      }
      return last;
    }
  }
}
