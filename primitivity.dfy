/** The primitivity tests of src/algebra/GaloisFieldExtension.h: both
    `TestPrimitivity` overloads and `FindAllPrimitiveElements`. Both tests
    walk the result of `Factorizer`, so the divisor lists they walk are
    described first. */
module Primitivity {
  import opened Arith
  import opened Modular
  import opened Factoring
  import opened Wrappers
  import opened Polynomials
  import opened PolyDivision
  import opened PolyPower
  import opened PolySpecial
  import opened GaloisField
  import opened GaloisOps

  // ----- the divisor list a factorization walks -----

  /** The primes below k that divide n, in increasing order. */
  function PrimeDivisorsBelow(n: nat, k: nat): (r: seq<nat>)
    ensures forall j :: 0 <= j < |r| ==> 0 < r[j] < k
    decreases k
  {
    if k == 0 then []
    else
      var rest := PrimeDivisorsBelow(n, k - 1);
      if IsPrime(k - 1) && n % (k - 1) == 0 then rest + [k - 1] else rest
  }

  /** The list is increasing and holds exactly the primes below k that divide n. */
  lemma {:induction false} PrimeDivisorsBelowMembers(n: nat, k: nat)
    ensures Increasing(PrimeDivisorsBelow(n, k))
    ensures forall q: nat :: q in PrimeDivisorsBelow(n, k) <==> q < k && IsPrime(q) && n % q == 0
    decreases k
  {
    if k > 0 {
      PrimeDivisorsBelowMembers(n, k - 1);
    }
  }

  /** The first components of `Factorizer`'s result for n >= 1: the
      sentinel [1] for 1 and the prime divisors of n in increasing order
      otherwise. */
  function FactorBases(n: nat): (r: seq<nat>)
    requires n >= 1
    ensures forall j :: 0 <= j < |r| ==> 0 < r[j] <= n
  {
    if n == 1 then [1] else PrimeDivisorsBelow(n, n + 1)
  }

  function Init(s: seq<nat>): seq<nat>
    requires |s| > 0
  {
    s[..|s| - 1]
  }

  lemma LastIsLargest(s: seq<nat>, q: nat)
    requires Increasing(s) && q in s
    ensures q <= s[|s| - 1]
  {
  }

  lemma DropLast(s: seq<nat>, q: nat)
    requires Increasing(s) && |s| > 0
    ensures q in s[..|s| - 1] <==> q in s && q != s[|s| - 1]
  {
    if q in s && q != s[|s| - 1] {
      var j :| 0 <= j < |s| && s[j] == q;
      assert s[..|s| - 1][j] == q;
    }
  }

  /** Two non-empty increasing sequences with the same members share their
      last element, and the members before it. */
  lemma SameLast(a: seq<nat>, b: seq<nat>)
    requires Increasing(a) && Increasing(b) && |a| > 0 && |b| > 0
    requires forall q :: q in a <==> q in b
    ensures a[|a| - 1] == b[|b| - 1]
    ensures forall q :: q in Init(a) <==> q in Init(b)
  {
    var x, y := a[|a| - 1], b[|b| - 1];
    assert x in a && y in b;
    LastIsLargest(b, x);
    LastIsLargest(a, y);
    forall q
      ensures q in Init(a) <==> q in Init(b)
    {
      DropLast(a, q);
      DropLast(b, q);
    }
  }

  /** Two strictly increasing sequences with the same members are equal. */
  lemma {:induction false} IncreasingUnique(a: seq<nat>, b: seq<nat>)
    requires Increasing(a) && Increasing(b) && forall q :: q in a <==> q in b
    ensures a == b
    decreases |a|
  {
    if |a| > 0 {
      assert a[0] in b;
    }
    if |b| > 0 {
      assert b[0] in a;
    }
    if |a| > 0 {
      SameLast(a, b);
      var a', b' := Init(a), Init(b);
      IncreasingUnique(a', b');
      assert a == a' + [a[|a| - 1]] && b == b' + [b[|b| - 1]];
    }
  }

  /** What `Factorizer` returns for n >= 1 lists exactly `FactorBases(n)`. */
  lemma FactorizationBases(fs: seq<(nat, nat)>, n: nat)
    requires n >= 1
    requires n == 1 ==> fs == [(1, 0)]
    requires n >= 2 ==> Product(fs) == n && PrimePowers(fs)
    ensures Bases(fs) == FactorBases(n)
  {
    if n >= 2 {
      FactorizationPrimes(fs, n);
      var ps := PrimeDivisorsBelow(n, n + 1);
      PrimeDivisorsBelowMembers(n, n + 1);
      forall q
        ensures q in Bases(fs) <==> q in ps
      {
        if IsPrime(q) && n % q == 0 {
          DividesLe(q, n);
        }
      }
      IncreasingUnique(Bases(fs), ps);
    } else {
      assert Bases(fs) == Bases([]) + [1];
    }
  }

  /** `Factorizer frizer; frizer(n)` as both tests use it: a fresh
      factorizer whose result lists `FactorBases(n)`. */
  method Factorization(n: nat) returns (fs: seq<(nat, nat)>)
    requires n >= 1
    ensures Bases(fs) == FactorBases(n)
  {
    var frizer := new Factorizer();
    fs := frizer.Factorize(n);
    FactorizationBases(fs, n);
  }

  // ----- TestPrimitivity(elem_order, order) -----

  /** `powmod(a, pow, m)` for a >= 0: 1 for pow = 0, a^pow mod m otherwise. */
  function PowModOf(a: nat, pow: nat, m: nat): nat
    requires m > 0
  {
    if pow == 0 then 1 else Pow(a, pow) % m
  }

  predicate Positive(ds: seq<nat>)
  {
    forall j :: 0 <= j < |ds| ==> ds[j] > 0
  }

  /** The loop of `TestPrimitivity(elem_order, order)`: false at the first d
      of the list with elem^(mult / d) = 1 (mod order), true after the list. */
  function ModPassesFrom(elem: nat, order: nat, mult: nat, ds: seq<nat>): bool
    requires order > 0 && Positive(ds)
  {
    if ds == [] then true
    else PowModOf(elem, mult / ds[0], order) != 1 && ModPassesFrom(elem, order, mult, ds[1..])
  }

  /** `TestPrimitivity(elem_order, order)`. An order below 2 divides by zero:
      order 1 factorizes 0 and divides 0 by the sentinel 0, order 0 reduces
      modulo 0 in `powmod`. */
  function PrimitiveMod(elem: nat, order: nat): Result<bool>
  {
    if order < 2 then Err(DivisionByZero)
    else Ok(ModPassesFrom(elem, order, order - 1, FactorBases(order - 1)))
  }

  method TestPrimitivityMod(elemOrder: nat, order: nat) returns (res: Result<bool>)
    ensures res == PrimitiveMod(elemOrder, order)
  {
    if order < 2 {
      return Err(DivisionByZero);
    }
    var multOrder := order - 1;
    var factors := Factorization(multOrder);
    ghost var ds := Bases(factors);
    for k := 0 to |factors|
      invariant ModPassesFrom(elemOrder, order, multOrder, ds[k..]) == ModPassesFrom(elemOrder, order, multOrder, ds)
    {
      assert factors[k].0 == ds[k] > 0;
      var pI := multOrder / factors[k].0;
      var r := PowMod(elemOrder, pI, order);
      if r == 1 {
        return Ok(false);
      }
      assert ds[k..][1..] == ds[k + 1..];
    }
    return Ok(true);
  }

  /** The loop accepts exactly when no listed d gives elem^(mult / d) = 1. */
  lemma {:induction false} ModPassesAll(elem: nat, order: nat, mult: nat, ds: seq<nat>)
    requires order > 0 && Positive(ds)
    ensures ModPassesFrom(elem, order, mult, ds) <==>
              forall j :: 0 <= j < |ds| ==> PowModOf(elem, mult / ds[j], order) != 1
    decreases |ds|
  {
    if ds != [] {
      ModPassesAll(elem, order, mult, ds[1..]);
      assert forall j :: 1 <= j < |ds| ==> ds[1..][j - 1] == ds[j];
    }
  }

  /** No prime q of order - 1 gives elem^((order - 1) / q) = 1 (mod order). */
  ghost predicate PrimeTestsPass(elem: nat, order: nat)
    requires order >= 2
  {
    forall q: nat :: IsPrime(q) && (order - 1) % q == 0 ==> Pow(elem, (order - 1) / q) % order != 1
  }

  /** For order >= 3 the test accepts elem exactly when no prime q of
      order - 1 gives elem^((order - 1) / q) = 1 (mod order). */
  lemma PrimitiveModMeaning(elem: nat, order: nat)
    requires order >= 3
    ensures PrimitiveMod(elem, order) == Ok(true) <==> PrimeTestsPass(elem, order)
  {
    var mult := order - 1;
    var ds := FactorBases(mult);
    assert PrimitiveMod(elem, order) == Ok(ModPassesFrom(elem, order, mult, ds));
    ModPassesAll(elem, order, mult, ds);
    if ModPassesFrom(elem, order, mult, ds) {
      ListedPassImpliesPrimes(elem, order, ds);
    }
    if PrimeTestsPass(elem, order) {
      PrimesImplyListedPass(elem, order, ds);
    }
  }

  lemma ListedPassImpliesPrimes(elem: nat, order: nat, ds: seq<nat>)
    requires order >= 3 && ds == FactorBases(order - 1)
    requires forall j :: 0 <= j < |ds| ==> PowModOf(elem, (order - 1) / ds[j], order) != 1
    ensures PrimeTestsPass(elem, order)
  {
    var mult := order - 1;
    PrimeDivisorsBelowMembers(mult, mult + 1);
    forall q: nat | IsPrime(q) && mult % q == 0
      ensures Pow(elem, mult / q) % order != 1
    {
      DividesLe(q, mult);
      assert q in ds;
      var j :| 0 <= j < |ds| && ds[j] == q;
      assert PowModOf(elem, mult / ds[j], order) != 1;
    }
  }

  lemma PrimesImplyListedPass(elem: nat, order: nat, ds: seq<nat>)
    requires order >= 3 && ds == FactorBases(order - 1) && PrimeTestsPass(elem, order)
    ensures forall j :: 0 <= j < |ds| ==> PowModOf(elem, (order - 1) / ds[j], order) != 1
  {
    var mult := order - 1;
    PrimeDivisorsBelowMembers(mult, mult + 1);
    forall j | 0 <= j < |ds|
      ensures PowModOf(elem, mult / ds[j], order) != 1
    {
      var d := ds[j];
      assert d in ds;
      DividesLe(d, mult);
    }
  }

  /** For order 2 the sentinel divisor 1 leaves the test elem mod 2 != 1. */
  lemma PrimitiveModTwo(elem: nat)
    ensures PrimitiveMod(elem, 2) == Ok(true) <==> elem % 2 == 0
  {
    assert FactorBases(1) == [1];
    assert [1][1..] == [];
    assert ModPassesFrom(elem, 2, 1, [1]) == (PowModOf(elem, 1, 2) != 1);
    assert Pow(elem, 1) == elem;
  }

  // ----- FindAllPrimitiveElements -----

  /** The first loop: the first i in [from, mord) the scalar test accepts,
      or 0 when there is none. */
  function FirstPrimitiveFrom(from: nat, mord: nat, order: nat): Result<nat>
    decreases mord - from
  {
    if from >= mord then Ok(0)
    else
      var accepted :- PrimitiveMod(from, order);
      if accepted then Ok(from) else FirstPrimitiveFrom(from + 1, mord, order)
  }

  /** The second loop: primitive^c mod order for every c in [1, bound)
      coprime to order - 1, in increasing c. */
  function CoprimePowers(primitive: nat, order: nat, bound: nat): seq<nat>
    requires order > 0
  {
    if bound <= 1 then []
    else
      CoprimePowers(primitive, order, bound - 1) +
      (if GcdSpec(bound - 1, order - 1) == 1 then [PowModOf(primitive, bound - 1, order)] else [])
  }

  /** `FindAllPrimitiveElements(order)`: the first primitive index found,
      followed by its powers with exponents coprime to order - 1. */
  function AllPrimitives(f: Field, order: nat): Result<seq<nat>>
    requires order > 0
  {
    var primitive :- FirstPrimitiveFrom(1, MOrder(f), order);
    Ok([primitive] + CoprimePowers(primitive, order, order - 1))
  }

  method FindAllPrimitiveElements(f: Field, order: nat) returns (res: Result<seq<nat>>)
    requires order > 0
    ensures res == AllPrimitives(f, order)
  {
    var primitive := 0;
    var i, mord := 1, MOrder(f);
    while i < mord
      invariant i >= 1 && primitive == 0
      invariant FirstPrimitiveFrom(i, mord, order) == FirstPrimitiveFrom(1, mord, order)
    {
      var accepted :- TestPrimitivityMod(i, order);
      if accepted {
        primitive := i;
        break;
      }
      i := i + 1;
    }
    assert FirstPrimitiveFrom(1, mord, order) == Ok(primitive);
    var primitives := [primitive];
    var c := 1;
    while c < order - 1
      invariant 1 <= c && (c <= order - 1 || c == 1)
      invariant primitives == [primitive] + CoprimePowers(primitive, order, c)
    {
      var g := Gcd(c, order - 1);
      if g == 1 {
        var power := PowMod(primitive, c, order);
        primitives := primitives + [power];
      }
      c := c + 1;
    }
    return Ok(primitives);
  }

  /** The first loop returns the least accepted index of [from, mord), or 0
      when every index there is rejected; it fails only for an order below 2. */
  lemma {:induction false} FirstPrimitiveLeast(from: nat, mord: nat, order: nat)
    requires from >= 1
    ensures FirstPrimitiveFrom(from, mord, order).Err? ==> order < 2 && from < mord
    ensures FirstPrimitiveFrom(from, mord, order) == Ok(0) ==>
              forall j :: from <= j < mord ==> PrimitiveMod(j, order) == Ok(false)
    ensures FirstPrimitiveFrom(from, mord, order).Ok? && FirstPrimitiveFrom(from, mord, order).value != 0 ==>
              var p := FirstPrimitiveFrom(from, mord, order).value;
              from <= p < mord && PrimitiveMod(p, order) == Ok(true) &&
              forall j :: from <= j < p ==> PrimitiveMod(j, order) == Ok(false)
    decreases mord - from
  {
    if from < mord && order >= 2 {
      FirstPrimitiveLeast(from + 1, mord, order);
    }
  }

  /** Every listed power is a residue modulo order; with no primitive index
      found (0), every listed power is 0. */
  lemma {:induction false} CoprimePowersRange(primitive: nat, order: nat, bound: nat)
    requires order > 0
    ensures forall k :: 0 <= k < |CoprimePowers(primitive, order, bound)| ==>
              CoprimePowers(primitive, order, bound)[k] < order
    ensures primitive == 0 ==> forall k :: 0 <= k < |CoprimePowers(primitive, order, bound)| ==>
              CoprimePowers(primitive, order, bound)[k] == 0
    decreases bound
  {
    if bound > 1 {
      var b0 := bound - 1;
      var prev := CoprimePowers(primitive, order, b0);
      var tail := if GcdSpec(b0, order - 1) == 1 then [PowModOf(primitive, b0, order)] else [];
      CoprimePowersRange(primitive, order, b0);
      if primitive == 0 {
        ZeroPower(b0);
      }
      assert tail == [] || tail == [Pow(primitive, b0) % order];
      assert CoprimePowers(primitive, order, bound) == prev + tail;
    }
  }

  lemma {:induction false} ZeroPower(n: nat)
    requires n > 0
    ensures Pow(0, n) == 0
  {
    if n > 1 {
      ZeroPower(n - 1);
    }
  }

  // ----- TestPrimitivity(poly, modulus) -----

  /** The loop of `TestPrimitivity(poly, modulus)`: false at the first d of
      the list with poly^(mult / d) mod modulus == One, true after the list;
      a failing division fails the test. */
  function PolyPassesFrom(poly: Poly, modulus: Poly, mult: nat, ds: seq<nat>, zp: nat): (res: Result<bool>)
    requires zp > 1 && Reduced(poly, zp) && Reduced(modulus, zp) && Positive(ds)
    ensures res.Err? ==> res.error in {DivisionByZero, Unsolvable}
  {
    if ds == [] then Ok(true)
    else
      var r :- Rem(Power(poly, mult / ds[0], zp), modulus, zp);
      if Equals(r, One) then Ok(false) else PolyPassesFrom(poly, modulus, mult, ds[1..], zp)
  }

  /** `TestPrimitivity(poly, modulus)` in GF(Zp^deg): Zero is not primitive,
      a degree not below the modulus' throws, and otherwise the powers
      poly^((Zp^deg - 1) / d) are reduced modulo the modulus and compared
      with One. */
  function Primitive(poly: Poly, modulus: Poly, zp: nat, deg: nat): (res: Result<bool>)
    requires zp > 1 && deg > 0 && Reduced(poly, zp) && Reduced(modulus, zp)
    ensures res.Err? ==> res.error in {DegreeTooLarge, DivisionByZero, Unsolvable}
  {
    if Equals(poly, Zero) then Ok(false)
    else if Deg(poly) >= Deg(modulus) then Err(DegreeTooLarge)
    else
      PowAboveOne(zp, deg);
      PolyPassesFrom(poly, modulus, Pow(zp, deg) - 1, FactorBases(Pow(zp, deg) - 1), zp)
  }

  /** Equal polynomials are One together. */
  lemma SameOne(a: Poly, b: Poly)
    requires Same(a, b)
    ensures Equals(a, One) <==> Equals(b, One)
  {
    EqualsIffSame(a, One);
    EqualsIffSame(b, One);
    if Same(b, One) {
      SameTrans(a, b, One);
    }
    if Same(a, One) {
      SameTrans(b, a, One);
    }
  }

  /** The `%` of poly^e computed by `pow` behaves as that of the reference power. */
  lemma RemOfPower(r1: Poly, poly: Poly, e: nat, modulus: Poly, zp: nat)
    requires zp > 1 && Reduced(poly, zp) && Reduced(modulus, zp) && Reduced(r1, zp)
    requires Same(r1, Power(poly, e, zp))
    ensures Rem(r1, modulus, zp).Err? ==> Rem(Power(poly, e, zp), modulus, zp) == Rem(r1, modulus, zp)
    ensures Rem(r1, modulus, zp).Ok? ==>
              Rem(Power(poly, e, zp), modulus, zp).Ok? &&
              (Equals(Rem(r1, modulus, zp).value, One) <==> Equals(Rem(Power(poly, e, zp), modulus, zp).value, One))
  {
    RemSame(r1, Power(poly, e, zp), modulus, zp);
    if Rem(r1, modulus, zp).Ok? {
      SameOne(Rem(r1, modulus, zp).value, Rem(Power(poly, e, zp), modulus, zp).value);
    }
  }

  lemma QuotientAtMost(n: nat, d: nat)
    requires d > 0
    ensures 0 <= n / d <= n
  {
    DivMod(n, d);
    var q := n / d;
    if q > n {
      MulMono(d, 1, q);
      ProductCommutes(d, q);
    }
  }

  /** One round of the loop, unfolded. */
  lemma PassesStep(poly: Poly, modulus: Poly, mult: nat, ds: seq<nat>, zp: nat)
    requires zp > 1 && Reduced(poly, zp) && Reduced(modulus, zp) && Positive(ds) && ds != []
    ensures var e := Rem(Power(poly, mult / ds[0], zp), modulus, zp);
            PolyPassesFrom(poly, modulus, mult, ds, zp) ==
              if e.Err? then Err(e.error)
              else if Equals(e.value, One) then Ok(false)
              else PolyPassesFrom(poly, modulus, mult, ds[1..], zp)
  {
  }

  method TestPrimitivity(poly: Poly, modulus: Poly, zp: nat, deg: nat) returns (res: Result<bool>)
    requires zp > 1 && deg > 0 && Reduced(poly, zp) && Reduced(modulus, zp) && Pow(zp, deg) <= Word
    ensures res == Primitive(poly, modulus, zp, deg)
  {
    if Equals(poly, Zero) {
      return Ok(false);
    }
    if Deg(poly) >= Deg(modulus) {
      return Err(DegreeTooLarge);
    }
    PowAboveOne(zp, deg);
    var multOrder := Pow(zp, deg) - 1;
    var factors := Factorization(multOrder);
    ghost var ds := Bases(factors);
    assert Primitive(poly, modulus, zp, deg) == PolyPassesFrom(poly, modulus, multOrder, ds, zp);
    for k := 0 to |factors|
      invariant PolyPassesFrom(poly, modulus, multOrder, ds[k..], zp) == Primitive(poly, modulus, zp, deg)
    {
      assert factors[k].0 == ds[k] > 0;
      var pI := multOrder / factors[k].0;
      QuotientAtMost(multOrder, factors[k].0);
      var power := PowBinary(poly, pI, zp);
      RemOfPower(power, poly, pI, modulus, zp);
      PassesStep(poly, modulus, multOrder, ds[k..], zp);
      assert ds[k..][0] == factors[k].0 && ds[k..][1..] == ds[k + 1..];
      var r :- Rem(power, modulus, zp);
      if Equals(r, One) {
        return Ok(false);
      }
    }
    return Ok(true);
  }

  /** poly^e reduced modulo the modulus exists and differs from One. */
  predicate PowerAvoidsOne(poly: Poly, modulus: Poly, e: nat, zp: nat)
    requires zp > 1 && Reduced(poly, zp) && Reduced(modulus, zp)
  {
    var r := Rem(Power(poly, e, zp), modulus, zp);
    r.Ok? && !Equals(r.value, One)
  }

  /** The loop accepts exactly when every listed d leaves poly^(mult / d)
      different from One modulo the modulus. */
  lemma {:induction false} PolyPassesAll(poly: Poly, modulus: Poly, mult: nat, ds: seq<nat>, zp: nat)
    requires zp > 1 && Reduced(poly, zp) && Reduced(modulus, zp) && Positive(ds)
    ensures PolyPassesFrom(poly, modulus, mult, ds, zp) == Ok(true) <==>
              forall j :: 0 <= j < |ds| ==> PowerAvoidsOne(poly, modulus, mult / ds[j], zp)
    decreases |ds|
  {
    if ds != [] {
      PolyPassesAll(poly, modulus, mult, ds[1..], zp);
      assert forall j :: 1 <= j < |ds| ==> ds[1..][j - 1] == ds[j];
    }
  }

  /** Over a prime Zp with a non-zero modulus every reduction succeeds, so
      the loop never fails. */
  lemma {:induction false} PolyPassesTotal(poly: Poly, modulus: Poly, mult: nat, ds: seq<nat>, zp: nat)
    requires IsPrime(zp) && Reduced(poly, zp) && Reduced(modulus, zp) && Positive(ds)
    requires !Equals(modulus, Zero)
    ensures PolyPassesFrom(poly, modulus, mult, ds, zp).Ok?
    decreases |ds|
  {
    if ds != [] {
      DivisionTotalModPrime(Power(poly, mult / ds[0], zp), modulus, zp);
      PolyPassesTotal(poly, modulus, mult, ds[1..], zp);
    }
  }

  /** Over a prime Zp the test fails only for a non-zero poly whose degree
      is not below the modulus'. */
  lemma PrimitiveTotalModPrime(poly: Poly, modulus: Poly, zp: nat, deg: nat)
    requires IsPrime(zp) && deg > 0 && Reduced(poly, zp) && Reduced(modulus, zp)
    ensures Primitive(poly, modulus, zp, deg).Err? <==> !Equals(poly, Zero) && Deg(poly) >= Deg(modulus)
    ensures Primitive(poly, modulus, zp, deg).Err? ==> Primitive(poly, modulus, zp, deg) == Err(DegreeTooLarge)
  {
    if !Equals(poly, Zero) && Deg(poly) < Deg(modulus) {
      EqualsZero(modulus);
      PowAboveOne(zp, deg);
      var mult := Pow(zp, deg) - 1;
      PolyPassesTotal(poly, modulus, mult, FactorBases(mult), zp);
    }
  }

  /** No prime q of mult leaves poly^(mult / q) equal to One modulo the modulus. */
  ghost predicate PolyPrimeTestsPass(poly: Poly, modulus: Poly, mult: nat, zp: nat)
    requires zp > 1 && Reduced(poly, zp) && Reduced(modulus, zp)
  {
    forall q: nat :: IsPrime(q) && mult % q == 0 ==> PowerAvoidsOne(poly, modulus, mult / q, zp)
  }

  /** For Zp^deg >= 3 a non-zero poly below the modulus' degree is accepted
      exactly when no prime q of Zp^deg - 1 gives poly^((Zp^deg - 1) / q) = 1
      in Zp[x] modulo the modulus: the order criterion for a generator of
      the multiplicative group. */
  lemma PrimitiveMeaning(poly: Poly, modulus: Poly, zp: nat, deg: nat)
    requires zp > 1 && deg > 0 && Reduced(poly, zp) && Reduced(modulus, zp)
    requires !Equals(poly, Zero) && Deg(poly) < Deg(modulus) && Pow(zp, deg) >= 3
    ensures Primitive(poly, modulus, zp, deg) == Ok(true) <==> PolyPrimeTestsPass(poly, modulus, Pow(zp, deg) - 1, zp)
  {
    var mult := Pow(zp, deg) - 1;
    PrimitiveRuns(poly, modulus, zp, deg, mult);
    PolyPassesMeaning(poly, modulus, mult, zp);
  }

  /** Past the Zero and degree checks, Primitive runs the prime tests of
      Zp^deg - 1. */
  lemma PrimitiveRuns(poly: Poly, modulus: Poly, zp: nat, deg: nat, mult: nat)
    requires zp > 1 && deg > 0 && Reduced(poly, zp) && Reduced(modulus, zp)
    requires !Equals(poly, Zero) && Deg(poly) < Deg(modulus) && mult + 1 == Pow(zp, deg)
    ensures Primitive(poly, modulus, zp, deg) == PolyPassesFrom(poly, modulus, mult, FactorBases(mult), zp)
  {
  }

  lemma PolyPassesMeaning(poly: Poly, modulus: Poly, mult: nat, zp: nat)
    requires zp > 1 && Reduced(poly, zp) && Reduced(modulus, zp) && mult >= 2
    ensures PolyPassesFrom(poly, modulus, mult, FactorBases(mult), zp) == Ok(true) <==>
              PolyPrimeTestsPass(poly, modulus, mult, zp)
  {
    var ds := FactorBases(mult);
    PolyPassesAll(poly, modulus, mult, ds, zp);
    if PolyPassesFrom(poly, modulus, mult, ds, zp) == Ok(true) {
      PolyListedImpliesPrimes(poly, modulus, mult, ds, zp);
    }
    if PolyPrimeTestsPass(poly, modulus, mult, zp) {
      PolyPrimesImplyListed(poly, modulus, mult, ds, zp);
    }
  }

  /** For mult >= 2 the list holds exactly the prime divisors of mult. */
  lemma FactorBasesMembers(mult: nat, ds: seq<nat>)
    requires mult >= 2 && ds == FactorBases(mult)
    ensures forall q: nat :: q in ds <==> IsPrime(q) && mult % q == 0
  {
    PrimeDivisorsBelowMembers(mult, mult + 1);
    forall q: nat | IsPrime(q) && mult % q == 0
      ensures q in ds
    {
      DividesLe(q, mult);
    }
  }

  lemma PolyListedImpliesPrimes(poly: Poly, modulus: Poly, mult: nat, ds: seq<nat>, zp: nat)
    requires zp > 1 && Reduced(poly, zp) && Reduced(modulus, zp)
    requires mult >= 2 && ds == FactorBases(mult)
    requires forall j :: 0 <= j < |ds| ==> PowerAvoidsOne(poly, modulus, mult / ds[j], zp)
    ensures PolyPrimeTestsPass(poly, modulus, mult, zp)
  {
    forall q: nat | IsPrime(q) && mult % q == 0
      ensures PowerAvoidsOne(poly, modulus, mult / q, zp)
    {
      ListedPrimePasses(poly, modulus, mult, ds, zp, q);
    }
  }

  /** A prime divisor of mult is listed, so its test was run and passed. */
  lemma ListedPrimePasses(poly: Poly, modulus: Poly, mult: nat, ds: seq<nat>, zp: nat, q: nat)
    requires zp > 1 && Reduced(poly, zp) && Reduced(modulus, zp)
    requires mult >= 2 && ds == FactorBases(mult) && IsPrime(q) && mult % q == 0
    requires forall j :: 0 <= j < |ds| ==> PowerAvoidsOne(poly, modulus, mult / ds[j], zp)
    ensures PowerAvoidsOne(poly, modulus, mult / q, zp)
  {
    FactorBasesMembers(mult, ds);
    var j := PositionOf(ds, q);
  }

  /** A position at which a listed value appears. */
  lemma PositionOf(ds: seq<nat>, q: nat) returns (j: nat)
    requires q in ds
    ensures j < |ds| && ds[j] == q
  {
    j :| 0 <= j < |ds| && ds[j] == q;
  }

  lemma PolyPrimesImplyListed(poly: Poly, modulus: Poly, mult: nat, ds: seq<nat>, zp: nat)
    requires zp > 1 && Reduced(poly, zp) && Reduced(modulus, zp)
    requires mult >= 2 && ds == FactorBases(mult) && PolyPrimeTestsPass(poly, modulus, mult, zp)
    ensures forall j :: 0 <= j < |ds| ==> PowerAvoidsOne(poly, modulus, mult / ds[j], zp)
  {
    FactorBasesMembers(mult, ds);
    forall j | 0 <= j < |ds|
      ensures PowerAvoidsOne(poly, modulus, mult / ds[j], zp)
    {
      assert ds[j] in ds;
    }
  }
}
