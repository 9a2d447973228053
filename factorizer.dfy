/** The trial-division factorizer (Factorizer.cc): a cache of primes that is
    seeded with {2}, grown by trial division and reset on demand, and an
    operation that splits a number into (prime, multiplicity) pairs. */
module Factoring {
  import opened Arith
  import opened Modular

  /** `CorePrimes`: the seed of the cache. */
  const CorePrimes: seq<nat> := [2]

  /** Floor of the square root; stands for `sqrtl` truncated to `size_t`. */
  function ISqrt(n: nat): (r: nat)
    ensures r * r <= n < (r + 1) * (r + 1)
  {
    if n == 0 then 0
    else
      var s := ISqrt(n - 1);
      SquareSucc(s);
      SquareSucc(s + 1);
      if (s + 1) * (s + 1) <= n then s + 1 else s
  }

  lemma SquareSucc(s: nat)
    ensures (s + 1) * (s + 1) == s * s + 2 * s + 1
  {
  }

  /** The product of prime^multiplicity over a factorization. */
  function Product(fs: seq<(nat, nat)>): int
  {
    if fs == [] then 1 else Product(fs[..|fs| - 1]) * Pow(fs[|fs| - 1].0, fs[|fs| - 1].1)
  }

  /** Strictly increasing. */
  predicate Increasing(s: seq<nat>)
  {
    forall i, j :: 0 <= i < j < |s| ==> s[i] < s[j]
  }

  /** The cache holds exactly the primes up to its last element, in order. */
  predicate ExactPrimes(s: seq<nat>)
  {
    Increasing(s) &&
    (forall i :: 0 <= i < |s| ==> IsPrime(s[i])) &&
    (|s| > 0 ==> forall p :: 2 <= p <= s[|s| - 1] && IsPrime(p) ==> p in s)
  }

  /** The condition `PrimeCheck_` decides: no cached prime not above
      floor(sqrt(c)) + 1 divides c. */
  predicate NoCachedDivisor(primes: seq<nat>, c: nat)
    requires forall i :: 0 <= i < |primes| ==> primes[i] > 0
  {
    forall i :: 0 <= i < |primes| && primes[i] <= ISqrt(c) + 1 ==> c % primes[i] != 0
  }

  /** Every prime below `c` is cached. */
  predicate CoversBelow(primes: seq<nat>, c: nat)
  {
    forall p :: 2 <= p < c && IsPrime(p) ==> p in primes
  }

  /** The smallest divisor of n that is at least k (all of 2..k-1 failing). */
  function SmallestDivisorFrom(n: nat, k: nat): (d: nat)
    requires 2 <= k <= n
    requires forall j :: 2 <= j < k ==> n % j != 0
    ensures k <= d <= n && n % d == 0
    ensures forall j :: 2 <= j < d ==> n % j != 0
    decreases n - k
  {
    if n % k == 0 then k
    else
      assert k != n by { ModOfMultiple(1, n); }
      SmallestDivisorFrom(n, k + 1)
  }

  /** The smallest divisor above 1 of a number n >= 2 is prime. */
  lemma SmallestDivisorIsPrime(n: nat)
    requires n >= 2
    ensures IsPrime(SmallestDivisorFrom(n, 2))
  {
    var d := SmallestDivisorFrom(n, 2);
    forall j | 2 <= j < d
      ensures d % j != 0
    {
      if d % j == 0 {
        DividesTransitive(j, d, n);
      }
    }
  }

  /** A composite c >= 2 has a prime divisor no larger than floor(sqrt(c)). */
  lemma CompositeHasSmallPrimeFactor(c: nat) returns (p: nat)
    requires c >= 2 && !IsPrime(c)
    ensures IsPrime(p) && c % p == 0 && p <= ISqrt(c) && p < c
  {
    p := SmallestDivisorFrom(c, 2);
    SmallestDivisorIsPrime(c);
    if p == c {
      assert false;
    }
    CofactorBound(c, p);
    SqrtBound(c, p);
  }

  /** The smallest divisor p of a composite c satisfies p*p <= c, because the
      cofactor c/p is a divisor too and so is at least p. */
  lemma CofactorBound(c: nat, p: nat)
    requires 2 <= p < c && c % p == 0
    requires forall j :: 2 <= j < p ==> c % j != 0
    ensures p * p <= c
  {
    var e := c / p;
    DivExact(c, p);
    if e <= 1 {
      MulMono(e, 1, p);
      assert false;
    }
    ModOfMultiple(p, e);
    assert p * e == c;
    assert e >= p;
    MulMono(e, p, p);
  }

  lemma SqrtBound(c: nat, p: nat)
    requires p * p <= c
    ensures p <= ISqrt(c)
  {
    var r := ISqrt(c);
    if p > r {
      MulMono(p, r + 1, p);
      MulMono(p, r + 1, r + 1);
      assert false;
    }
  }

  /** With every prime below c cached, the trial division decides primality. */
  lemma TrialDivisionDecides(primes: seq<nat>, c: nat)
    requires ExactPrimes(primes) && c >= 2 && CoversBelow(primes, c)
    requires forall i :: 0 <= i < |primes| ==> primes[i] < c
    ensures forall i :: 0 <= i < |primes| ==> primes[i] > 0
    ensures NoCachedDivisor(primes, c) <==> IsPrime(c)
  {
    if IsPrime(c) {
      forall i | 0 <= i < |primes|
        ensures c % primes[i] != 0
      {
        assert 2 <= primes[i] < c;
      }
    } else {
      var p := CompositeHasSmallPrimeFactor(c);
      assert p in primes;
    }
  }

  /** An exact cache covers every prime up to its last element. */
  lemma CoversUpToLast(primes: seq<nat>)
    requires ExactPrimes(primes) && |primes| > 0
    ensures CoversBelow(primes, primes[|primes| - 1] + 1)
  {
  }

  /** Appending the next prime keeps the cache exact and covering. */
  lemma AppendPrime(primes: seq<nat>, c: nat)
    requires ExactPrimes(primes) && CoversBelow(primes, c) && IsPrime(c)
    requires forall k :: 0 <= k < |primes| ==> primes[k] < c
    ensures ExactPrimes(primes + [c]) && CoversBelow(primes + [c], c + 1)
    ensures (primes + [c])[..|primes|] == primes
  {
    var s := primes + [c];
    assert s[..|primes|] == primes;
    forall p: nat | 2 <= p <= c && IsPrime(p)
      ensures p in s
    {
      if p < c {
        assert p in primes;
      } else {
        assert s[|primes|] == c;
      }
    }
  }

  /** Skipping a composite keeps the cache covering. */
  lemma SkipComposite(primes: seq<nat>, c: nat)
    requires CoversBelow(primes, c) && !IsPrime(c)
    ensures CoversBelow(primes, c + 1)
  {
  }

  /** What does not divide n does not divide a divisor of n either. */
  lemma NotDividesDivisor(p: nat, n: nat, d: nat)
    requires p > 0 && d > 0 && n % d == 0 && n % p != 0
    ensures d % p != 0
  {
    if d % p == 0 {
      assert n != 0;
      DividesTransitive(p, d, n);
    }
  }

  lemma ProductAppend(fs: seq<(nat, nat)>, f: (nat, nat))
    ensures Product(fs + [f]) == Product(fs) * Pow(f.0, f.1)
  {
    assert (fs + [f])[..|fs|] == fs;
  }

  /** Peeling one more factor p off the running quotient keeps the product. */
  lemma PeelStep(p: nat, deg: nat, n: nat)
    requires p > 0 && n % p == 0
    ensures Pow(p, deg) * n == Pow(p, deg + 1) * (n / p)
  {
    DivExact(n, p);
    var k := n / p;
    assert n == k * p;
    MulAssoc(Pow(p, deg), p, k);
    assert Pow(p, deg) * (k * p) == Pow(p, deg) * (p * k);
  }

  /** The factorizer and its prime cache `Primes`. */
  class Factorizer {
    var primes: seq<nat>

    ghost predicate Valid()
      reads this
    {
      ExactPrimes(primes)
    }

    /** A fresh factorizer: the cache is empty until first use. */
    constructor()
      ensures Valid() && primes == []
    {
      primes := [];
    }

    /** `FlushPrimes`: the cache becomes `CorePrimes`. */
    method FlushPrimes()
      modifies this
      ensures Valid() && primes == CorePrimes
    {
      primes := CorePrimes;
      assert ExactPrimes(primes) by {
        forall p | 2 <= p <= 2 && IsPrime(p)
          ensures p in primes
        {
          assert p == 2;
        }
      }
    }

    /** `PrimeCheck_`: scans the cache in order while the primes do not
        exceed floor(sqrt(candidate)) + 1; false on the first divisor. */
    method PrimeCheck(candidate: nat) returns (r: bool)
      requires Valid()
      ensures forall i :: 0 <= i < |primes| ==> primes[i] > 0
      ensures r == NoCachedDivisor(primes, candidate)
    {
      var root := ISqrt(candidate) + 1;
      var i := 0;
      while i < |primes| && primes[i] <= root
        invariant 0 <= i <= |primes|
        invariant forall j :: 0 <= j < i ==> candidate % primes[j] != 0
      {
        if candidate % primes[i] == 0 {
          return false;
        }
        i := i + 1;
      }
      assert forall j :: i <= j < |primes| ==> primes[j] > root by {
        if i < |primes| {
          forall j | i <= j < |primes|
            ensures primes[j] > root
          {
            assert primes[i] <= primes[j];
          }
        }
      }
      return true;
    }

    /** `CalculatePrimesTo(m)`: every number from the last cached prime + 1 up
        to m that passes `PrimeCheck_` is appended. The cache only grows, stays
        exact, and afterwards holds every prime up to m. */
    method CalculatePrimesTo(m: nat)
      requires Valid() && |primes| > 0
      modifies this
      ensures Valid()
      ensures |primes| >= |old(primes)| && primes[..|old(primes)|] == old(primes)
      ensures forall k :: |old(primes)| <= k < |primes| ==> old(primes)[|old(primes)| - 1] < primes[k] <= m
      ensures forall p: nat :: IsPrime(p) && p <= m ==> p in primes
    {
      ghost var start := primes;
      var cur := primes[|primes| - 1] + 1;
      CoversUpToLast(primes);
      while cur <= m
        invariant ExactPrimes(primes) && |primes| >= |start| && primes[..|start|] == start
        invariant forall k :: 0 <= k < |primes| ==> primes[k] < cur
        invariant forall k :: |start| <= k < |primes| ==> start[|start| - 1] < primes[k]
        invariant |primes| > |start| ==> cur <= m + 1
        invariant CoversBelow(primes, cur)
        decreases m + 1 - cur
      {
        TrialDivisionDecides(primes, cur);
        var isPrime := PrimeCheck(cur);
        if isPrime {
          AppendPrime(primes, cur);
          primes := primes + [cur];
        } else {
          SkipComposite(primes, cur);
        }
        cur := cur + 1;
      }
    }

    /** `operator()`: 0 and 1 give the sentinel pairs (0,0) and (1,0) and leave
        the cache alone; otherwise the cache is seeded and extended to the
        number, and the cached primes are divided out in order while the
        running quotient is not 1. The pairs multiply back to the number, the
        primes are strictly increasing and every multiplicity is at least 1.
        The cache only grows: what it held stays in front, and an empty one
        is seeded with 2 first. */
    method Factorize(number: nat) returns (fs: seq<(nat, nat)>)
      requires Valid()
      modifies this
      ensures Valid()
      ensures number == 0 ==> fs == [(0, 0)] && primes == old(primes)
      ensures number == 1 ==> fs == [(1, 0)] && primes == old(primes)
      ensures number >= 2 ==> Product(fs) == number && PrimePowers(fs)
      ensures number >= 2 ==> forall p: nat :: IsPrime(p) && p <= number ==> p in primes
      ensures number >= 2 && |old(primes)| > 0 ==>
                |primes| >= |old(primes)| && primes[..|old(primes)|] == old(primes)
      ensures number >= 2 && old(primes) == [] ==> |primes| > 0 && primes[0] == 2
    {
      if number == 0 {
        return [(0, 0)];
      }
      if number == 1 {
        return [(1, 0)];
      }
      if |primes| == 0 {
        FlushPrimes();
      }
      if primes[|primes| - 1] < number {
        CalculatePrimesTo(number);
      } else {
        CoversUpToLast(primes);
      }
      fs := [];
      var ps := primes;
      var numbc := number;
      var i := 0;
      while i < |ps| && numbc != 1
        invariant ScanInvariant(ps, i, numbc, fs, number) && primes == ps
        decreases |ps| - i
      {
        var prime := ps[i];
        var degree, rest := PeelPrime(prime, numbc);
        ScanStep(ps, i, numbc, fs, number, degree, rest);
        if degree > 0 {
          fs := fs + [(prime, degree)];
        }
        numbc := rest;
        i := i + 1;
      }
      ScanComplete(ps, number, numbc, Product(fs), i);
    }
  }

  /** The pairs have prime first components in strictly increasing order and
      multiplicities of at least 1. */
  predicate PrimePowers(fs: seq<(nat, nat)>)
  {
    (forall k :: 0 <= k < |fs| ==> IsPrime(fs[k].0) && fs[k].1 >= 1) &&
    (forall k, l :: 0 <= k < l < |fs| ==> fs[k].0 < fs[l].0)
  }

  /** The state of the scan in `operator()` before the i-th cached prime. */
  predicate ScanInvariant(primes: seq<nat>, i: nat, numbc: nat, fs: seq<(nat, nat)>, number: nat)
  {
    i <= |primes| && ExactPrimes(primes) &&
    1 <= numbc && Product(fs) * numbc == number &&
    (forall j :: 0 <= j < i ==> numbc % primes[j] != 0) &&
    PrimePowers(fs) &&
    (i < |primes| ==> forall k :: 0 <= k < |fs| ==> fs[k].0 < primes[i])
  }

  /** One round of the scan: the i-th prime's power is split off. */
  lemma ScanStep(primes: seq<nat>, i: nat, numbc: nat, fs: seq<(nat, nat)>, number: nat, degree: nat, rest: nat)
    requires ScanInvariant(primes, i, numbc, fs, number) && i < |primes|
    requires rest >= 1 && Pow(primes[i], degree) * rest == numbc
    requires rest % primes[i] != 0 && numbc % rest == 0
    ensures ScanInvariant(primes, i + 1, rest, if degree > 0 then fs + [(primes[i], degree)] else fs, number)
  {
    var fs' := if degree > 0 then fs + [(primes[i], degree)] else fs;
    StepProduct(fs, primes[i], degree, rest, numbc, number);
    StepCoprime(primes, i, numbc, rest);
    StepFactors(primes, i, fs, degree);
  }

  lemma StepProduct(fs: seq<(nat, nat)>, prime: nat, degree: nat, rest: nat, numbc: nat, number: nat)
    requires Product(fs) * numbc == number && Pow(prime, degree) * rest == numbc
    ensures Product(if degree > 0 then fs + [(prime, degree)] else fs) * rest == number
  {
    MulAssoc(Product(fs), Pow(prime, degree), rest);
    if degree > 0 {
      ProductAppend(fs, (prime, degree));
    }
  }

  lemma StepCoprime(primes: seq<nat>, i: nat, numbc: nat, rest: nat)
    requires i < |primes| && forall j :: 0 <= j < |primes| ==> primes[j] > 0
    requires forall j :: 0 <= j < i ==> numbc % primes[j] != 0
    requires rest > 0 && numbc % rest == 0 && rest % primes[i] != 0
    ensures forall j :: 0 <= j < i + 1 ==> rest % primes[j] != 0
  {
    forall j | 0 <= j < i
      ensures rest % primes[j] != 0
    {
      NotDividesDivisor(primes[j], numbc, rest);
    }
  }

  lemma StepFactors(primes: seq<nat>, i: nat, fs: seq<(nat, nat)>, degree: nat)
    requires ExactPrimes(primes) && i < |primes| && PrimePowers(fs)
    requires forall k :: 0 <= k < |fs| ==> fs[k].0 < primes[i]
    ensures var fs' := if degree > 0 then fs + [(primes[i], degree)] else fs;
            PrimePowers(fs') && (i + 1 < |primes| ==> forall k :: 0 <= k < |fs'| ==> fs'[k].0 < primes[i + 1])
  {
    if i + 1 < |primes| {
      assert primes[i] < primes[i + 1];
    }
  }

  /** The inner loop of `operator()`: divide `prime` out of n while it still
      divides and does not exceed the running quotient. The result splits n
      into prime^degree times a rest that prime no longer divides. */
  method PeelPrime(prime: nat, n: nat) returns (degree: nat, rest: nat)
    requires prime >= 2 && n >= 1
    ensures rest >= 1 && Pow(prime, degree) * rest == n
    ensures rest % prime != 0 && n % rest == 0
  {
    degree, rest := 0, n;
    while prime <= rest && rest % prime == 0
      invariant rest >= 1 && Pow(prime, degree) * rest == n
      decreases rest
    {
      PeelStep(prime, degree, rest);
      DivPositive(rest, prime);
      DivShrinks(rest, prime);
      degree := degree + 1;
      rest := rest / prime;
    }
    if prime > rest {
      ModOfSmall(rest, prime);
    }
    ModOfMultiple(Pow(prime, degree), rest);
  }

  /** When the scan ends, the running quotient is 1: otherwise its smallest
      prime factor would be a cached prime that divides it. */
  lemma ScanComplete(primes: seq<nat>, number: nat, numbc: nat, prod: int, i: nat)
    requires ExactPrimes(primes) && 1 <= numbc && i <= |primes|
    requires prod * numbc == number && number >= 1
    requires forall p: nat :: IsPrime(p) && p <= number ==> p in primes
    requires i == |primes| || numbc == 1
    requires forall j :: 0 <= j < i ==> numbc % primes[j] != 0
    ensures numbc == 1
  {
    if numbc != 1 {
      var p := SmallestDivisorFrom(numbc, 2);
      SmallestDivisorIsPrime(numbc);
      if prod <= 0 {
        MulMono(0, prod, numbc);
      } else {
        MulMono(prod, 1, numbc);
      }
      assert false;
    }
  }

  // ----- the primes of a factorization -----

  /** The prime bases of a factorization, in order. */
  function Bases(fs: seq<(nat, nat)>): (r: seq<nat>)
    ensures |r| == |fs| && forall k :: 0 <= k < |fs| ==> r[k] == fs[k].0
  {
    if fs == [] then [] else Bases(fs[..|fs| - 1]) + [fs[|fs| - 1].0]
  }

  /** Euclid's lemma: a prime that divides a product divides a factor. */
  lemma PrimeDividesFactor(q: nat, a: int, b: int)
    requires IsPrime(q) && (a * b) % q == 0
    ensures a % q == 0 || b % q == 0
  {
    if a % q != 0 {
      var a0: nat := a % q;
      ModIdempotent(a, q);
      SolvableModPrime(a0, 1, q);
      var x := Solve(a0, 1, q).x;
      ModOfSmall(1, q);
      assert (a0 * x) % q == 1;
      ModMulCongruent(a0 * x, 1, b, q);
      assert (a0 * x * b) % q == b % q;
      ModMulCongruent(a0, a, b, q);
      assert (a0 * b) % q == 0;
      ModMulCongruent(a0 * b, 0, x, q);
      assert a0 * x * b == (a0 * b) * x by {
        MulAssoc(a0, x, b);
        MulAssoc(a0, b, x);
        ProductCommutes(x, b);
      }
    }
  }

  /** A prime dividing p^e divides p. */
  lemma {:induction false} PrimeDividesPower(q: nat, p: nat, e: nat)
    requires IsPrime(q) && Pow(p, e) % q == 0
    ensures p % q == 0
  {
    if e == 0 {
      ModOfSmall(1, q);
    } else {
      assert Pow(p, e) == Pow(p, e - 1) * p;
      PrimeDividesFactor(q, Pow(p, e - 1), p);
      if Pow(p, e - 1) % q == 0 {
        PrimeDividesPower(q, p, e - 1);
      }
    }
  }

  /** A prime dividing a prime is that prime. */
  lemma PrimeDividesPrime(q: nat, p: nat)
    requires IsPrime(q) && IsPrime(p) && p % q == 0
    ensures q == p
  {
    if q > p {
      ModOfSmall(p, q);
    }
  }

  /** Every prime divisor of the product is one of the bases. */
  lemma {:induction false} DivisorIsBase(q: nat, fs: seq<(nat, nat)>)
    requires IsPrime(q) && PrimePowers(fs) && Product(fs) % q == 0
    ensures q in Bases(fs)
  {
    if fs == [] {
      ModOfSmall(1, q);
    } else {
      var init, last := fs[..|fs| - 1], fs[|fs| - 1];
      PrimeDividesFactor(q, Product(init), Pow(last.0, last.1));
      if Product(init) % q == 0 {
        assert PrimePowers(init);
        DivisorIsBase(q, init);
        assert Bases(fs) == Bases(init) + [last.0];
      } else {
        PrimeDividesPower(q, last.0, last.1);
        PrimeDividesPrime(q, last.0);
        assert Bases(fs)[|fs| - 1] == q;
      }
    }
  }

  /** Every base divides the product. */
  lemma {:induction false} BaseDivides(fs: seq<(nat, nat)>, k: nat)
    requires PrimePowers(fs) && k < |fs|
    ensures Product(fs) % fs[k].0 == 0
  {
    var init, last := fs[..|fs| - 1], fs[|fs| - 1];
    var q := fs[k].0;
    if k == |fs| - 1 {
      assert Pow(q, last.1) == Pow(q, last.1 - 1) * q;
      ModOfMultiple(Pow(q, last.1 - 1), q);
      ModMulCongruent(Pow(q, last.1), 0, Product(init), q);
      ProductCommutes(Pow(q, last.1), Product(init));
    } else {
      assert PrimePowers(init) && init[k] == fs[k];
      BaseDivides(init, k);
      ModMulCongruent(Product(init), 0, Pow(last.0, last.1), q);
    }
  }

  /** The bases of a factorization of n are exactly the prime divisors of n. */
  lemma FactorizationPrimes(fs: seq<(nat, nat)>, n: nat)
    requires Product(fs) == n && PrimePowers(fs)
    ensures forall q: nat :: q in Bases(fs) <==> IsPrime(q) && n % q == 0
  {
    forall q: nat
      ensures q in Bases(fs) <==> IsPrime(q) && n % q == 0
    {
      if q in Bases(fs) {
        var k :| 0 <= k < |fs| && Bases(fs)[k] == q;
        BaseDivides(fs, k);
      }
      if IsPrime(q) && n % q == 0 {
        DivisorIsBase(q, fs);
      }
    }
  }
}
