# LinearAlgebra: finite-field arithmetic and BCH generator polynomials in Dafny

This project models the algebra core of the LinearAlgebra library and proves
properties of the model. The core covers:

- arithmetic in Z_p (`mod`, `normalize`, `powmod`, `gcd`, `expanded_gcd`,
  `inverse_mod`) and the prime `Factorizer` with its prime cache;
- polynomials over Z_p (`Polynomial<Zp>`): coefficient vectors, degree,
  equality, the order used by `Gcd`, addition, negation, subtraction,
  scalar multiplication, multiplication, shifts, `set`, `pow`/`rpow`,
  `divide`/`%`/`/`, `eval`, `derivative`, `Gcd`, `ExpandedGcd` and
  `SpecialPolyMod`;
- the `ConsecutivePolynomialGenerator`, which enumerates every monic
  polynomial of a fixed degree;
- the extension field `GaloisFieldExtension<Zp, Deg>`: the table of powers
  of a primitive element (`BuildMultGroup`), the orders, `log_alpha`,
  adjoint (conjugate) indices, minimal polynomials, the primitivity tests,
  `RabinTest` and `TestIrreducibility`, the searches `FindIrreducible`,
  `FindAllIrreducibles` and `FindPrimitive`, the `Build` and
  `BuildByPrimitive` factories, `FindAllPrimitiveElements` and
  `FactorizeByFieldElements`;
- the `BCHCode` class template: its static assertion, `distance()`,
  `MakeGenerator(field)` and `getChecking()`;
- `IndexPlacementsWithoutRepetitions` from the combinatorics header.

## Representation

- The template parameter `Zp` is an explicit argument `zp`. Most operations
  ask for `zp > 1`, which the source enforces with a `static_assert`.
- A polynomial is a `seq<nat>` of coefficients, lowest power first.
  - `Coef(p, i)` reads 0 past the stored vector.
  - The source's `==` is `Equals`: equal degrees, then equal coefficients.
    `EqualsIffSame` proves it is coefficient-wise equality (`Same`), so
    trailing zeros do not count.
  - The source keeps its coefficients reduced below Zp. The model states
    that as `Reduced`, asks for it of the inputs and proves it of the
    results.
- Exceptions are a `Result` value. Each `Error` kind names one `throw` or
  failure condition of the source: `DivisionByZero`, `Unsolvable`,
  `NoInverse`, `NotFound`, `Exhausted`, `DegreeTooSmall`,
  `DegreeTooLarge`, `Reducible`, `NotPrimitive`, `NotImplemented`. Two
  kinds have no `throw` behind them:
  - `Diverges` marks a loop the source never leaves. The model returns it
    either at a step from which it proves the loop endless, or at the end
    of a bound that it proves the source's loop cannot outlast (see "Fuel
    bounds" under "## Left out");
  - `NoReturnToOne` marks a power table whose primitive element never
    returns to One.
- The `(size_t)-1` answer of `expanded_gcd` is the `NoSolution` case of a
  `Solution` datatype.
- Loops are methods. Each is proved equal to a function that follows the
  same steps, and the properties are lemmas about that function.
  - The objects the source updates in place are classes:
    `Factorizer` (its prime cache), `ConsecutivePolynomialGenerator` (last
    polynomial and end flag) and `BchCode`.
  - The field is an immutable datatype value, since nothing changes it
    once it is built.
- Integers are unbounded. The only word-size effects modelled are these:
  - `pow` and the primitivity tests stay below 2^64 (`Word`);
  - `rpower <<= 1` drops out of the word after 64 shifts.

## What the code does where it differs from its description

- `BCHCode::MakeGenerator(field)` multiplies `gen_poly` by each minimal
  polynomial, then divides by `Gcd(min, gen_poly)`. That gcd is taken
  after the multiplication, so it is `min` itself. Over a prime field the
  loop therefore returns One whenever every minimal polynomial is non-zero
  (`GeneratorIsOne`). It does not return the least common multiple of the
  minimal polynomials.
- With the default primitive element x and a factor of degree above 1,
  element 1 of the field is x, so its minimal polynomial is Zero. The loop
  then fails with a division by zero (`DefaultPrimitiveGenerator`).
- The default template arguments `BCHCode<2, 2, 1>` fail the class's own
  static assertion: `1 < (cpow(2, 2) - 1) / 2` is false. The instance
  `BCHCode<2, 4, 2>` passes it (`TemplateArguments`). `cpow` halves its
  exponent instead of decrementing it, so `cpow(a, n)` is a raised to the
  bit length of n (`CpowIsBitLengthPower`).
- `IndexPlacementsWithoutRepetitions` for 0 < k < n pushes the first run of
  placements (0, ..., k-2, v) for v = k-1, ..., n-1. The regeneration block
  then reads `buf[block_size]`, one past the buffer, because `bidx` starts
  at `block_size`. The model returns the placements pushed up to that read
  (`ReadPastEnd`) and stops there.
- `operator<` and `operator>` are both declared (Polynomial.h:116-117),
  and neither is defined. `Gcd` calls `p1 > p2` (Polynomial.h:588). The
  model reads `p1 > p2` as `Less(p2, p1)` for the order "lower degree
  first, then the first differing coefficient from the top", and proves
  that order strict and total, with `==` as its equivalence
  (`LessTrichotomy`, `LessTransitive`).
- `FactorizeByFieldElements` loops forever whenever a round divides by a
  constant root. Dividing by a unit constant is always exact and keeps the
  degree, so the inner while-loop never finds a non-zero remainder
  (`UnitLoopsForever`). For each element e = X + c with c not 0 or -1,
  X - e is the constant -c. Over a prime field every such constant is a
  unit. The loop therefore hangs as soon as the scan reaches such an
  element while the polynomial left is not a constant. For p > 2, X + 1 is
  such an element of every extension of GF(p) of degree above 1. Over a
  prime field, this is the only way the function fails
  (`FactorizationDivergesModPrime`).
- `GetChecking` always throws, since `got_h_` is never set and `h_` is
  never computed.

## Model

| member | source | states |
|---|---|---|
| Modular.Mod | src/algebra/Algebra.cc:3-9 | the result is congruent to a mod Zp and at most Zp; it equals Zp exactly for a negative multiple of Zp, and is below Zp for a >= 0 |
| Modular.NegativeResidue | src/algebra/Algebra.cc:5-6 | Zp - ((-a) % Zp) is congruent to a, and (-a) % Zp vanishes exactly when Zp divides a |
| Modular.Normalize | src/algebra/Algebra.cc:16-22 | same length; every entry congruent to the input entry, below Zp except for negative multiples of Zp |
| Modular.PowMod | src/algebra/Algebra.cc:29-38 | 1 for pow = 0; otherwise a residue congruent to a^pow, equal to a^pow mod Zp for a >= 0 |
| Modular.GcdDivides | src/algebra/Algebra.cc:40-59 | the reference gcd divides both arguments |
| Modular.GcdGreatest | src/algebra/Algebra.cc:40-59 | every positive common divisor divides the reference gcd |
| Modular.Gcd | src/algebra/Algebra.cc:40-59 | the swap, the short-cuts and the remainder loop return the greatest common divisor |
| Modular.GcdOfQuotients | src/algebra/Algebra.cc:72-77 | dividing a and Zp by their gcd leaves coprime numbers |
| Modular.EuclidBezout | src/algebra/Algebra.cc:79-92 | the row-shifting loop keeps x*M + y*A = r in both rows and stops with remainder 1, so y is an inverse of A |
| Modular.ZeroCoefficientUnsolvable | src/algebra/Algebra.cc:67-71 | for a = 0 and a non-zero b the gcd is Zp, which does not divide b: the sentinel branch |
| Modular.SolveCorrect | src/algebra/Algebra.cc:61-94 | the sentinel is returned exactly when gcd(a mod Zp, Zp) does not divide b mod Zp; otherwise a*x = b (mod Zp) with x < Zp / gcd |
| Modular.ExpandedGcd | src/algebra/Algebra.cc:61-94 | the method with its matrix loop returns the reference solution |
| Modular.InverseMod | src/algebra/Algebra.cc:96-99 | `inverse_mod(a)` is the solution of a*x = 1 |
| Modular.InverseCorrect | src/algebra/Algebra.cc:96-99 | an inverse exists exactly when a is coprime to Zp, and then a*x = 1 (mod Zp) |
| Modular.SolvableModPrime | src/algebra/Algebra.cc:61-94 | for a prime Zp and a not divisible by Zp a solution always exists and solves a*x = b |
| Factoring.ISqrt | Factorizer.cc:7 | r*r <= n < (r+1)^2: the truncated square root |
| Factoring.TrialDivisionDecides | Factorizer.cc:5-15 | with every prime below c cached, no cached prime up to sqrt(c)+1 divides c exactly when c is prime |
| Factoring.CompositeHasSmallPrimeFactor | Factorizer.cc:7-13 | a composite has a prime divisor no larger than its square root, which is why the scan may stop there |
| Factoring.Factorizer.constructor | Factorizer.h:8-11 | a new factorizer has an empty cache |
| Factoring.Factorizer.FlushPrimes | Factorizer.cc:51-54 | the cache becomes {2} |
| Factoring.Factorizer.PrimeCheck | Factorizer.cc:5-15 | the answer is "no cached prime not above sqrt(candidate)+1 divides the candidate" |
| Factoring.Factorizer.CalculatePrimesTo | Factorizer.cc:42-49 | the cache is extended, never changed in its old part, with numbers up to m only, and afterwards holds every prime up to m |
| Factoring.Factorizer.Factorize | Factorizer.cc:17-40 | 0 gives {(0,0)} and 1 gives {(1,0)}, leaving the cache alone; for n >= 2 the pairs have increasing prime bases and their product of powers is n, every prime up to n is cached, the old cache stays in front, and an empty cache is seeded with 2 |
| Factoring.PeelPrime | Factorizer.cc:33-35 | the inner loop leaves n = prime^degree * rest with prime not dividing rest |
| Factoring.FactorizationPrimes | Factorizer.cc:17-40 | the bases of a factorization of n are exactly the prime divisors of n |
| Polynomials.DegBelow | src/algebra/Polynomial.h:203-212 | the top-down scan finds the highest non-zero index, or 0 |
| Polynomials.Deg | src/algebra/Polynomial.h:566-570 | coefficients above the degree vanish, and a positive degree has a non-zero coefficient |
| Polynomials.DegUnique | src/algebra/Polynomial.h:566-570 | the degree is determined by the coefficients alone |
| Polynomials.EqualsIffSame | src/algebra/Polynomial.h:423-435 | `==` holds exactly when every coefficient agrees |
| Polynomials.EqualsZero | src/algebra/Polynomial.h:423-435 | equality with Zero means that every coefficient vanishes |
| Polynomials.EqualsOne | src/algebra/Polynomial.h:423-435 | equality with One means constant term 1 and nothing else |
| Polynomials.LessTrichotomy | src/algebra/Polynomial.h:585-590 | the order `Gcd` compares with is strict and total, with `==` as its equivalence |
| Polynomials.LessTransitive | src/algebra/Polynomial.h:585-590 | the order is transitive |
| Polynomials.FromConstant | src/algebra/Polynomial.h:226-231 | a constant polynomial of degree 0 congruent to the constant; it is Zero exactly for a non-negative multiple of Zp |
| Polynomials.Add | src/algebra/Polynomial.h:267-283 | the length is the longer operand's; reduced operands give a reduced sum |
| Polynomials.AddCoef | src/algebra/Polynomial.h:267-283 | coefficient i of a + b is (a_i + b_i) mod Zp |
| Polynomials.ScaleCoef | src/algebra/Polynomial.h:463-477 | coefficient i of a * k is (a_i * k) mod Zp |
| Polynomials.SubCoef | src/algebra/Polynomial.h:248-265 | coefficient i of a - b is (a_i - b_i) mod Zp |
| Polynomials.ShiftCoef | src/algebra/Polynomial.h:510-521 | shift(k) puts k zeros in front: coefficient i is a_(i-k), or 0 below k |
| Polynomials.ShiftBackCoef | src/algebra/Polynomial.h:523-537 | coefficient i of shift_back(k) is a_(i+k) |
| Polynomials.ShiftBackShift | src/algebra/Polynomial.h:510-537 | shift_back(k) undoes shift(k) |
| Polynomials.Set | src/algebra/Polynomial.h:546-550 | coefficient idx becomes value mod Zp, every other coefficient is unchanged |
| PolyRing.MulLoopCoef | src/algebra/Polynomial.h:451-458 | after the loop has handled b[0..n), coefficient k is the partial convolution sum mod Zp |
| PolyRing.CoefMul | src/algebra/Polynomial.h:443-461 | coefficient k of a * b is the convolution sum over i + j = k of a_i b_j, mod Zp, short-cuts for One included |
| PolyRing.MulCongruent | src/algebra/Polynomial.h:443-461 | equal operands give equal products |
| PolyRing.MulCommutes | src/algebra/Polynomial.h:443-461 | a * b = b * a |
| PolyRing.MulAssociates | src/algebra/Polynomial.h:443-461 | (a * b) * c = a * (b * c) |
| PolyRing.MulDistributes | src/algebra/Polynomial.h:443-461 | a * (b + c) = a * b + a * c |
| PolyRing.AddCommutes | src/algebra/Polynomial.h:267-283 | a + b = b + a, as vectors |
| PolyRing.AddAssociates | src/algebra/Polynomial.h:267-283 | (a + b) + c = a + (b + c) |
| PolyPower.RPow | src/algebra/Polynomial.h:181-195 | `rpow(num)` is the num-fold product, One for 0 |
| PolyPower.PowBinary | src/algebra/Polynomial.h:486-508 | `pow(power)` with its bit loop over a 64-bit rpower returns a^power |
| PolyPower.PowerAdd | src/algebra/Polynomial.h:486-508 | a^(m+n) = a^m * a^n, which the bit loop relies on |
| PolyPower.PowerMul | src/algebra/Polynomial.h:499-503 | (a^m)^n = a^(m*n), which `prev.rpow(rpower / prev_power)` relies on |
| PolyDivision.DivSteps | src/algebra/Polynomial.h:374-394 | the loop only fails with Unsolvable, and it leaves a remainder that is Zero or of lower degree than the divisor |
| PolyDivision.Division | src/algebra/Polynomial.h:359-396 | a Zero divisor gives DivisionByZero, a failing step Unsolvable; otherwise reduced results with the remainder Zero or below the divisor's degree |
| PolyDivision.Rem | src/algebra/Polynomial.h:398-402 | `%` is the remainder of `divide`: reduced, Zero or below the divisor's degree |
| PolyDivision.Quot | src/algebra/Polynomial.h:411-415 | `/` is the quotient of `divide` and is reduced |
| PolyDivision.DivisionCorrect | src/algebra/Polynomial.h:359-396 | DivisionByZero exactly for a Zero divisor; on success n = q * p + r with r Zero or of lower degree |
| PolyDivision.DivisionTotalModPrime | src/algebra/Polynomial.h:374-390 | over a prime Zp a non-zero divisor never makes the loop throw |
| PolyDivision.DivisionSame | src/algebra/Polynomial.h:359-396 | equal dividends give the same quotient and equal remainders |
| PolyDivision.RemSame | src/algebra/Polynomial.h:398-402 | `%` gives equal remainders for equal dividends |
| PolyDivision.Divide | src/algebra/Polynomial.h:359-396 | the method with its while-loop returns the reference division |
| PolyDivision.DivideStep | src/algebra/Polynomial.h:375-393 | one turn of the while-loop: Unsolvable exactly where the reference loop fails at this turn; otherwise a reduced quotient of the same length and a smaller remainder from which the reference loop goes on to the same result |
| PolyEval.Eval | src/algebra/Polynomial.h:552-564 | `eval(x)` is the sum of c_i * x^i mod Zp, with x reduced first |
| PolyEval.EvalAdd | src/algebra/Polynomial.h:552-564 | evaluation is additive |
| PolyEval.EvalSame | src/algebra/Polynomial.h:552-564 | equal polynomials take equal values whatever their stored lengths |
| PolyEval.EvalShift | src/algebra/Polynomial.h:510-521 | shifting by k multiplies the value by x^k |
| PolyEval.DerivativeLoop | src/algebra/Polynomial.h:572-581 | `derivative()` returns the formal derivative: coefficient i is (i+1) a_(i+1) mod Zp |
| PolyEval.DerivativeAdd | src/algebra/Polynomial.h:572-581 | the derivative is additive |
| PolyEval.DerivativeMonomial | src/algebra/Polynomial.h:572-581 | (x^n)' = n x^(n-1) |
| PolyGcd.GcdLoopDivides | src/algebra/Polynomial.h:599-606 | the remainder loop returns a common divisor of its two inputs |
| PolyGcd.GcdDivides | src/algebra/Polynomial.h:585-607 | `Gcd` returns a common divisor of its operands, except for the Zero short-cut with a non-zero first operand |
| PolyGcd.GcdWithZero | src/algebra/Polynomial.h:586-592 | Gcd(Zero, p) = p, and, with the model's order placing Zero lowest, Gcd(p, Zero) = Zero: the short-cut returns p2 |
| PolyGcd.GcdTotalModPrime | src/algebra/Polynomial.h:585-607 | over a prime Zp `Gcd` never throws |
| PolyGcd.GcdMethod | src/algebra/Polynomial.h:585-607 | the method with its while-loop returns the reference gcd |
| PolyInverse.EliminateBezout | src/algebra/Polynomial.h:628-641 | the matrix loop keeps x * mod + y * a = r in both rows and ends with x * mod + y * a = One |
| PolyInverse.ExpandedGcdCorrect | src/algebra/Polynomial.h:609-643 | a Zero modulus throws; NoInverse exactly when the gcd check fails; for a = One the result is b mod m; otherwise it is y * b mod m for y with x * m + y * a = One |
| PolyInverse.ExpandedGcdMethod | src/algebra/Polynomial.h:609-643 | the method with its matrix loop returns the reference result |
| PolyInverse.CancelCommon | src/algebra/Polynomial.h:615-626 | the set-up before the matrix returns the reference one: the operands unchanged for a gcd of One, NoInverse when b leaves a remainder on division by the gcd, otherwise a, b and mod divided by it |
| PolyInverse.EliminateRows | src/algebra/Polynomial.h:628-641 | the matrix loop returns the reference elimination, or its failure |
| PolySpecial.SpecialVectorValue | src/algebra/Polynomial.h:648-652 | the normalised vector is x^deg - x for deg > 1, and -x for deg = 1 |
| PolySpecial.SpecialPolyModCorrect | src/algebra/Polynomial.h:645-653 | DivisionByZero exactly for a Zero modulus; the only other failure is Unsolvable, which cannot happen over a prime Zp, so there every non-zero modulus gives a result; that result is (x^(Zp^n) - x) mod modpoly |
| ConsecutiveGenerator.Start | src/algebra/ConsecutivePolynomialGenerator.h:72-78 | `reset()` stores x^Deg, a counter state with all lower coefficients 0 |
| ConsecutiveGenerator.CarryIndex | src/algebra/ConsecutivePolynomialGenerator.h:38-55 | one call adds 1 to the base-Zp reading of the coefficients, wrapping to 0 exactly when the end flag is raised |
| ConsecutiveGenerator.RunIndex | src/algebra/ConsecutivePolynomialGenerator.h:29-58 | call k+1 after a reset returns the polynomial reading k, without the end flag |
| ConsecutiveGenerator.WrapsAround | src/algebra/ConsecutivePolynomialGenerator.h:43-44 | call Zp^Deg + 1 raises the end flag and returns x^Deg again |
| ConsecutiveGenerator.Enumerates | src/algebra/ConsecutivePolynomialGenerator.h:7-8 | between resets the calls return every monic polynomial of degree Deg exactly once, then raise the end flag |
| ConsecutiveGenerator.ConsecutivePolynomialGenerator.constructor | src/algebra/ConsecutivePolynomialGenerator.h:12-13 | a new generator holds the empty polynomial and no end flag |
| ConsecutiveGenerator.ConsecutivePolynomialGenerator.End | src/algebra/ConsecutivePolynomialGenerator.h:60-64 | `end()` is the flag of the last call |
| ConsecutiveGenerator.ConsecutivePolynomialGenerator.EndSupported | src/algebra/ConsecutivePolynomialGenerator.h:66-70 | `end_supported()` is true |
| ConsecutiveGenerator.ConsecutivePolynomialGenerator.Reset | src/algebra/ConsecutivePolynomialGenerator.h:72-78 | back to x^Deg with the flag cleared |
| ConsecutiveGenerator.ConsecutivePolynomialGenerator.Generate | src/algebra/ConsecutivePolynomialGenerator.h:29-58 | the first call resets and returns x^Deg; later calls carry one step; the returned polynomial is the stored one |
| GaloisField.NextRound | src/algebra/GaloisFieldExtension.h:173-175 | one round computes primitive * e mod factor and reports failure, a return to One, or the appended power |
| GaloisField.BuildTable | src/algebra/GaloisFieldExtension.h:165-179 | the do/while builds the reference table of powers |
| GaloisField.BuildMultGroup | src/algebra/GaloisFieldExtension.h:165-179 | `BuildMultGroup` returns the field with the reference table |
| GaloisField.MultGroupChain | src/algebra/GaloisFieldExtension.h:165-179 | the table starts at One, each entry is primitive times the previous mod factor, and one more step returns to One |
| GaloisField.MultGroupPowers | src/algebra/GaloisFieldExtension.h:165-179 | entry i is primitive^i mod factor, and primitive^(m_order) mod factor is One |
| GaloisField.MultGroupDistinct | src/algebra/GaloisFieldExtension.h:165-179 | the table entries are pairwise different polynomials |
| GaloisField.NoReturnToOneForever | src/algebra/GaloisFieldExtension.h:165-179 | when the Zp^deg(factor) bound runs out, no reached power primitive^k mod factor with k >= 1 is One, and for a factor of positive degree every such power is reached, so the source loops forever |
| GaloisOps.BuiltField | src/algebra/GaloisFieldExtension.h:196-212 | order() = m_order() + 1, element 0 is One, element i is primitive^i mod factor, the elements are distinct |
| GaloisOps.ElementDegree | src/algebra/GaloisFieldExtension.h:208-212 | every element is reduced and of lower degree than the factor |
| GaloisOps.LogAlpha | src/algebra/GaloisFieldExtension.h:214-222 | `log_alpha` reduces and scans the table, returning the reference index or NotFound |
| GaloisOps.LogAlphaOfElement | src/algebra/GaloisFieldExtension.h:214-222 | the logarithm of element i is i |
| GaloisOps.AdjointsListed | src/algebra/GaloisFieldExtension.h:230-237 | the listed indices are i * Zp^k mod m_order in order, none equal to i, and the next one returns to i |
| GaloisOps.GetAdjointElements | src/algebra/GaloisFieldExtension.h:224-239 | the method with its do/while returns the reference list |
| GaloisOps.AdjointsOfZero | src/algebra/GaloisFieldExtension.h:224-239 | index 0 has no adjoints |
| GaloisOps.AdjointsDivergeForever | src/algebra/GaloisFieldExtension.h:224-239 | when the m_order bound runs out, no i * Zp^k mod m_order with k >= 1 is i, so the source loops forever |
| GaloisOps.FindMinimalPolynomial | src/algebra/GaloisFieldExtension.h:241-251 | the method returns (X - e_i) times X - e_a for every adjoint a |
| GaloisOps.MinimalPolynomialDivisors | src/algebra/GaloisFieldExtension.h:241-251 | X - e_i and every X - e_a divide the minimal polynomial |
| GaloisOps.LinearProductVanishes | src/algebra/GaloisFieldExtension.h:245-249 | the product is Zero as soon as one listed element equals X |
| GaloisOps.ElementOneOfX | src/algebra/GaloisFieldExtension.h:154 | with the default primitive x and a factor of degree above 1, element 1 is x |
| GaloisOps.MinimalPolynomialOfDefaultPrimitive | src/algebra/GaloisFieldExtension.h:241-251 | with the default primitive x, `FindMinimalPolynomial(1)` is Zero |
| Primitivity.Factorization | src/algebra/GaloisFieldExtension.h:280-282 | a fresh factorizer's bases for n >= 1 are the primes dividing n, in order (or the sentinel 1) |
| Primitivity.FactorizationBases | Factorizer.cc:17-40 | whatever the factorizer returns for n >= 1 lists exactly those bases |
| Primitivity.TestPrimitivityMod | src/algebra/GaloisFieldExtension.h:277-290 | the method returns the reference verdict |
| Primitivity.PrimitiveModMeaning | src/algebra/GaloisFieldExtension.h:277-290 | for order >= 3 the test accepts exactly when no prime q of order - 1 gives elem^((order-1)/q) = 1 mod order |
| Primitivity.PrimitiveModTwo | src/algebra/GaloisFieldExtension.h:277-290 | for order 2 the sentinel divisor 1 leaves the test "elem is even" |
| Primitivity.FirstPrimitiveLeast | src/algebra/GaloisFieldExtension.h:257-266 | the first loop returns the least accepted index, or 0 when none is accepted |
| Primitivity.CoprimePowersRange | src/algebra/GaloisFieldExtension.h:268-273 | every listed power is below order, and all are 0 when no primitive index was found |
| Primitivity.FindAllPrimitiveElements | src/algebra/GaloisFieldExtension.h:253-275 | the method with its two loops returns the reference list |
| Primitivity.TestPrimitivity | src/algebra/GaloisFieldExtension.h:292-309 | the method returns the reference verdict |
| Primitivity.PrimitiveTotalModPrime | src/algebra/GaloisFieldExtension.h:295-298 | over a prime Zp the test throws exactly for a non-zero poly of degree at least the modulus' |
| Primitivity.PrimitiveMeaning | src/algebra/GaloisFieldExtension.h:299-308 | the test accepts exactly when no prime q of Zp^Deg - 1 leaves poly^((Zp^Deg-1)/q) mod modulus equal to One |
| IrreducibilityTests.RabinTest | src/algebra/GaloisFieldExtension.h:181-194 | the method returns the reference verdict |
| IrreducibilityTests.RabinMeaning | src/algebra/GaloisFieldExtension.h:181-194 | for degree >= 2: accepted exactly when gcd(poly, x^(Zp^(deg/q)) - x mod poly) is One for every prime q of deg and x^(Zp^deg) - x mod poly is Zero |
| IrreducibilityTests.RabinTotalModPrime | src/algebra/GaloisFieldExtension.h:181-194 | over a prime Zp the test fails only for degree 0 |
| IrreducibilityTests.VanishingRemainderDivides | src/algebra/GaloisFieldExtension.h:193 | a Zero remainder means poly divides x^(Zp^e) - x |
| IrreducibilityTests.TestIrreducibility | src/algebra/GaloisFieldExtension.h:311-326 | the method returns the reference verdict |
| IrreducibilityTests.ZeroIsReducible | src/algebra/GaloisFieldExtension.h:317-319 | Zero has the root 0 and is reported reducible |
| IrreducibilityTests.ConstantIsIrreducible | src/algebra/GaloisFieldExtension.h:317-321 | a non-zero constant has no root and is reported irreducible |
| IrreducibilityTests.IrreducibilityTotalModPrime | src/algebra/GaloisFieldExtension.h:311-326 | over a prime Zp the test always reaches a verdict |
| IrreducibilityTests.AcceptedDividesFrobenius | src/algebra/GaloisFieldExtension.h:320-325 | an accepted polynomial of degree >= 4 divides x^(Zp^deg) - x |
| FieldFactoring.Strip | src/algebra/GaloisFieldExtension.h:345-353 | the method with its while-loop returns the reference result: the number of exact divisions and the quotient left, the failure of `divide`, or Diverges |
| FieldFactoring.StripDivergesForever | src/algebra/GaloisFieldExtension.h:345-353 | the loop ends in Diverges exactly when the source's while-loop divides exactly forever |
| FieldFactoring.UnitLoopsForever | src/algebra/GaloisFieldExtension.h:345-353 | dividing by a constant prime to Zp is always exact, so that loop never ends |
| FieldFactoring.RunningLongForever | src/algebra/GaloisFieldExtension.h:345-353 | a loop that is still running after Zp^(deg + 1) + 1 states repeats one of them and never ends |
| FieldFactoring.StripCorrect | src/algebra/GaloisFieldExtension.h:345-353 | root^arity times what is left is the polynomial the loop started from |
| FieldFactoring.StripNonConstant | src/algebra/GaloisFieldExtension.h:345-353 | modulo a prime, the loop of a non-constant root ends on every non-zero polynomial |
| FieldFactoring.LinearNonZero | src/algebra/GaloisFieldExtension.h:340-343 | X - e is non-zero unless e is X, so skipping X keeps the loop from dividing by Zero |
| FieldFactoring.ScanNeverByZero | src/algebra/GaloisFieldExtension.h:337-358 | the scan never fails with a division by Zero |
| FieldFactoring.DivideOutElement | src/algebra/GaloisFieldExtension.h:339-357 | one round of the for-loop, as the reference round: elements skipped as in the source, and Diverges exactly when the inner loop is endless |
| FieldFactoring.RoundModPrime | src/algebra/GaloisFieldExtension.h:339-357 | modulo a prime, a round on a non-constant polynomial fails exactly when its root X - e is a constant other than One, and then with Diverges |
| FieldFactoring.FactorizeByFieldElements | src/algebra/GaloisFieldExtension.h:328-362 | the method returns the reference factor list, or the reference failure |
| FieldFactoring.ScanRounds | src/algebra/GaloisFieldExtension.h:337-358 | the for-loop over the field elements returns the reference scan, or its failure |
| FieldFactoring.ScanModPrime | src/algebra/GaloisFieldExtension.h:337-358 | modulo a prime, the scan fails exactly when it reaches a round with a constant root other than One, and then with Diverges |
| FieldFactoring.FactorizationDivergesModPrime | src/algebra/GaloisFieldExtension.h:328-362 | modulo a prime, the function fails exactly when its scan reaches a constant root X - e other than One on a non-constant polynomial, and then because the source loops forever |
| FieldFactoring.FactorizationCorrect | src/algebra/GaloisFieldExtension.h:328-362 | no DivisionByZero; every arity is at least 1; a non-constant remainder is appended with arity 1; the product of factor^arity (times a constant remainder) is the polynomial |
| FieldSearch.AdvanceProgress | src/algebra/GaloisFieldExtension.h:103 | each generator call brings the end flag closer, so the search loops terminate |
| FieldSearch.IrreducibleFrom | src/algebra/GaloisFieldExtension.h:102-110 | a found polynomial is monic of degree Deg and passes `TestIrreducibility` |
| FieldSearch.RandomLinear | src/algebra/GaloisFieldExtension.h:93-100 | for Deg = 1 the result is x + (draw mod Zp) |
| FieldSearch.FindIrreducible | src/algebra/GaloisFieldExtension.h:87-111 | the method and the generator state follow the reference search |
| FieldSearch.ExhaustedMeansNoneIrreducible | src/algebra/GaloisFieldExtension.h:110 | the search throws only when no monic polynomial of degree Deg passes the test |
| FieldSearch.FindAllIrreducibles | src/algebra/GaloisFieldExtension.h:119-133 | the method and the generator state follow the reference loop |
| FieldSearch.AllIrreduciblesListed | src/algebra/GaloisFieldExtension.h:119-133 | from a fresh generator the list holds exactly the monic polynomials of degree Deg that pass the test |
| FieldSearch.PrimitiveFrom | src/algebra/GaloisFieldExtension.h:77-81 | a found candidate has coefficient Deg set to 0 and passes `TestPrimitivity` |
| FieldSearch.FoundPrimitive | src/algebra/GaloisFieldExtension.h:71-85 | the result is x or a generator candidate, and passes `TestPrimitivity` |
| FieldSearch.FindPrimitive | src/algebra/GaloisFieldExtension.h:71-85 | the method and the generator state follow the reference search |
| FieldSearch.SearchFromReset | src/algebra/GaloisFieldExtension.h:76-81 | the do/while after the reset follows the reference search |
| FieldSearch.DivergesMeansNonePrimitive | src/algebra/GaloisFieldExtension.h:77-81 | the search runs out only when x and every candidate fail the test, i.e. the source loops forever |
| FieldSearch.AllRejected | src/algebra/GaloisFieldExtension.h:77-81 | a search that runs out from the reset has rejected every candidate |
| FieldSearch.BuiltByPrimitive | src/algebra/GaloisFieldExtension.h:377-389 | a factor of degree below Deg is refused; with the flag set a reducible factor is refused; a built field has the given factor and primitive, passed both enabled tests and holds the table of powers |
| FieldSearch.BuildByPrimitive | src/algebra/GaloisFieldExtension.h:377-389 | the method returns the reference result |
| FieldSearch.Built | src/algebra/GaloisFieldExtension.h:364-375 | `Build(factor, ...)` always tests primitivity and otherwise does what `BuildByPrimitive` does |
| FieldSearch.Build | src/algebra/GaloisFieldExtension.h:364-375 | the method returns the reference result |
| FieldSearch.BuiltFromGenerator | src/algebra/GaloisFieldExtension.h:135-139 | a built field has an irreducible factor (or a linear one for Deg = 1), a primitive generator that passes the test, and the table of powers |
| FieldSearch.BuildFromGenerator | src/algebra/GaloisFieldExtension.h:135-139 | the method and the generator state follow the reference |
| FieldSearch.BuiltByPrimitiveFrom | src/algebra/GaloisFieldExtension.h:390-396 | the factor comes from the generator, the given primitive is kept and tested when asked |
| FieldSearch.BuildByPrimitiveFrom | src/algebra/GaloisFieldExtension.h:390-396 | the method and the generator state follow the reference |
| BchCodes.CpowIsBitLengthPower | src/algebra/utils/utils.cc:7-9 | cpow(a, n, res) = res * a^(bit length of n) |
| BchCodes.DistanceBelowBlock | src/codes/impl/BCHCode.h:17-20 | under the static assertion the distance 2 * MinErrors stays below cpow(Q, QPower) - 1 |
| BchCodes.TemplateArguments | src/codes/impl/BCHCode.h:17-20 | the defaults Q = 2, QPower = 2, MinErrors = 1 fail the assertion; Q = 2, QPower = 4, MinErrors = 2 pass it |
| BchCodes.Distance | src/codes/impl/BCHCode.h:67-69 | an even distance whose half is MinErrors |
| BchCodes.Minimals | src/codes/impl/BCHCode.h:50-52 | the list holds the results of `FindMinimalPolynomial(j)` for consecutive j, each reduced |
| BchCodes.MakeGenerator | src/codes/impl/BCHCode.h:48-58 | the method with its for-loop returns the reference result of the loop |
| BchCodes.RoundOfOne | src/codes/impl/BCHCode.h:53-54 | over a prime field one round from One with a non-zero minimal polynomial leaves One |
| BchCodes.RoundOfZero | src/codes/impl/BCHCode.h:53-54 | a Zero minimal polynomial makes the gcd Zero and the division throw |
| BchCodes.RoundsFromOne | src/codes/impl/BCHCode.h:50-55 | the loop from One succeeds exactly when every minimal polynomial is non-zero, and then returns One; otherwise the first Zero throws DivisionByZero |
| BchCodes.GeneratorIsOne | src/codes/impl/BCHCode.h:48-58 | over a prime field `MakeGenerator(field)` succeeds exactly when the first 2 * MinErrors minimal polynomials are non-zero, and returns One |
| BchCodes.MinimalPolynomialOfZeroIndex | src/algebra/GaloisFieldExtension.h:241-251 | the minimal polynomial of index 0 is X - 1, which is non-zero |
| BchCodes.DefaultPrimitiveGenerator | src/codes/impl/BCHCode.h:48-58 | on a field built with the default primitive x over a factor of degree above 1, `MakeGenerator(field)` throws DivisionByZero |
| BchCodes.BchCode.constructor | src/codes/impl/BCHCode.h:17-24 | a code holds Q = Zp, QPower and MinErrors, which must pass the static assertion, the generator that `MakeGenerator(field)` returned, and no checking polynomial |
| BchCodes.BchCode.GetChecking | src/codes/impl/BCHCode.h:41-46 | h is returned exactly when the flag is set; otherwise NotImplemented is thrown |
| BchCodes.CheckingNotImplemented | src/codes/impl/BCHCode.h:41-46 | on every code object `getChecking()` throws |
| BchCodes.NewBchCode | src/codes/impl/BCHCode.h:17-58 | a code with the given template arguments is made from a successful `MakeGenerator(field)`; its failure is passed on |
| Combinatorics.Ascending | src/algebra/common/combinatorics.h:47-52 | `buf[0] = 0; fill_inc(1)` yields 0, 1, ..., k-1 |
| Combinatorics.FillInc | src/algebra/common/combinatorics.h:48-51 | every slot from start on is one more than the slot before it; earlier slots are unchanged |
| Combinatorics.IndexPlacementsWithoutRepetitions | src/algebra/common/combinatorics.h:43-88 | the method with its buffer and inner loop returns the reference outcome |
| Combinatorics.RunShape | src/algebra/common/combinatorics.h:61-64 | the inner loop pushes prefix + [v + j] at position j, n - v vectors in all |
| Combinatorics.PlacementsWellFormed | src/algebra/common/combinatorics.h:37-43 | every emitted placement has block_size strictly increasing entries below n |
| Combinatorics.PlacementsOrdered | src/algebra/common/combinatorics.h:61-64 | consecutive placements differ only in the last slot, one larger, so they increase lexicographically |
| Combinatorics.PlacementsCount | src/algebra/common/combinatorics.h:43-64 | nothing in the early-return cases; the single vector 0..n-1 for block_size = n; otherwise n - block_size + 1 placements, the first 0..k-1, before the read past the buffer |

## Left out

- Randomness. These are outside the model: `randmod`, `RandomPolynomialGenerator` and `BCHCode::MakeGenerator()`, which builds its field from a random generator. `FindIrreducible` for Deg = 1 takes the drawn number as a parameter.
- Floating point. `sqrtl` in `PrimeCheck_` is the exact integer square root (`ISqrt`). `powl(Zp, Deg)` is the exact power `Pow`, required to fit in 64 bits where the source converts it to `size_t`.
- Machine-word overflow. The model does not wrap `int` and `size_t` arithmetic: `powmod`'s `(int)(res * a)`, the `int` matrix of `expanded_gcd`, `power * Zp` in `GetAdjointElements` and `mult_order` computations. The only exception is the 64-bit `rpower` of `pow`.
- Modular.ExpandedGcd: requires a or b to be non-zero modulo Zp. When both are zero, the source reaches `matrix[0][1] / matrix[1][1]` with a zero divisor, which has no defined result.
- Modular.Mod: only the `int` overload is modelled. The `size_t` overload is plain `%`, which the model uses directly.
- `DIVISION_CORRUPTION_POLICY::CLOSEST_REMAINDER`: only the default THROW policy of `divide` is modelled. The other branch divides by the sentinel `(size_t)-1`.
- Output: `operator<<`, `OUTPUT_MODE` and `PrintPretty`.
- PolyGcd.GcdWithZero: its clause Gcd(p, Zero) = Zero holds only for the order the model picked for the undefined `operator<`, which puts Zero below every other polynomial. Under an order with p below Zero, minp is p, and the loop returns p.
- Polynomials.Add: the source copies the longer operand's tail unreduced. The model assumes reduced operands, as every caller in the source passes them, and proves the sum reduced.
- The first `operator*=`, `operator*(int)`, `operator*` and `pow` definitions in the polynomial header are token-for-token copies of the later ones, which are cited.
- Fuel bounds:
  - FieldSearch.FindPrimitive: the do/while may loop forever when no candidate is primitive. The model stops after one pass over all Zp^Deg candidates with Diverges, and `DivergesMeansNonePrimitive` shows that no candidate was primitive.
  - GaloisField.BuildMultGroup: the loop stops after Zp^deg(factor) rounds with NoReturnToOne. There are only Zp^deg(factor) residues, so a table that has not returned to One by then repeats an entry, and the source loops forever (`NoReturnToOneForever`). A factor of degree 0 is one such case: every power reduces to Zero.
  - FieldFactoring.Strip: a constant root that is a unit makes the while-loop endless, and the model returns Diverges at its first exact division that keeps the degree. Any other root may also give exact divisions that keep the degree, for example on a zero divisor of Zp[x]. Those are allowed up to Zp^(deg + 1) times, the number of reduced polynomials of degree at most deg. A loop still running after that has repeated a state and never ends (`RunningLongForever`, `StripDivergesForever`).
  - GaloisOps.GetAdjointElements: stops after m_order rounds with Diverges. The indices i * Zp^k mod m_order take only m_order values, so an orbit that has not come back to i by then never does, and the source loops forever (`AdjointsDivergeForever`).
- `infoSize`, `blockSize`, `encode`, `decode` and `errors` of `BCHCode` only throw `NotImplementedError` or return null and are not modelled. `getGenerator` returns the stored g.
- The `finite` Group/Field/IntGroup scaffolding and the older `GaloisFieldExtension.h` at the repository root are not part of this model.
