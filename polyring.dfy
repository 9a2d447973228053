/** The ring laws of `operator*` and `operator+` on reduced polynomials:
    each product coefficient is the convolution of the factors' coefficients
    mod Zp, from which commutativity, associativity and distributivity follow
    up to trailing zeros. */
module PolyRing {
  import opened Arith
  import opened Polynomials
  import opened Sums

  /** Term j of the k-th convolution: a_(k-j) * b_j. */
  ghost function ConvTerm(a: Poly, b: Poly, k: nat): nat -> int
  {
    (j: nat) => if j <= k then Coef(a, k - j) * Coef(b, j) else 0
  }

  /** Coefficient k of the exact (unreduced) product. */
  ghost function Conv(a: Poly, b: Poly, k: nat): int
  {
    Sum(k + 1, ConvTerm(a, b, k))
  }

  /** After the loop of `operator*=` has handled b[0 .. n), coefficient k holds
      the partial convolution over j < n. */
  lemma {:induction false} MulLoopCoef(a: Poly, b: Poly, n: nat, zp: nat, k: nat)
    requires zp > 1 && n <= |b| && Reduced(a, zp)
    ensures Coef(MulLoop(a, b, n, zp), k) == Sum(n, ConvTerm(a, b, k)) % zp
  {
    if n > 0 {
      MulLoopCoef(a, b, n - 1, zp, k);
      MulLoopStep(a, b, n, zp, k);
    }
  }

  /** One iteration of the loop adds term n - 1 of the convolution. */
  lemma MulLoopStep(a: Poly, b: Poly, n: nat, zp: nat, k: nat)
    requires zp > 1 && 0 < n <= |b| && Reduced(a, zp)
    requires Coef(MulLoop(a, b, n - 1, zp), k) == Sum(n - 1, ConvTerm(a, b, k)) % zp
    ensures Coef(MulLoop(a, b, n, zp), k) == Sum(n, ConvTerm(a, b, k)) % zp
  {
    var acc := MulLoop(a, b, n - 1, zp);
    var c := b[n - 1];
    var t := ConvTerm(a, b, k)(n - 1);
    assert t == if k >= n - 1 then Coef(a, k - (n - 1)) * c else 0;
    if c != 0 {
      var term := Shift(Scale(a, c, zp), n - 1);
      assert MulLoop(a, b, n, zp) == Add(acc, term, zp);
      AddCoef(acc, term, zp, k);
      ShiftScaleCoef(a, c, n - 1, zp, k);
      ModAdd(Sum(n - 1, ConvTerm(a, b, k)), t, zp);
    } else if k >= n - 1 {
      MulZero(Coef(a, k - (n - 1)));
    }
  }

  lemma MulZero(x: int)
    ensures x * 0 == 0
  {
  }

  /** A scaled, shifted copy of a contributes a_(k-s) * c to coefficient k. */
  lemma ShiftScaleCoef(a: Poly, c: int, s: nat, zp: nat, k: nat)
    requires zp > 1 && Reduced(a, zp)
    ensures Coef(Shift(Scale(a, c, zp), s), k) == (if k >= s then Coef(a, k - s) * c else 0) % zp
  {
    ShiftCoef(Scale(a, c, zp), s, k);
    if k >= s {
      ScaleCoef(a, c, zp, k - s);
    }
  }

  /** Terms of a convolution vanish past either operand's length. */
  lemma ConvTail(a: Poly, b: Poly, k: nat, n: nat)
    requires |b| <= n
    ensures Sum(n, ConvTerm(a, b, k)) == Conv(a, b, k)
  {
    var f := ConvTerm(a, b, k);
    var m := Max(n, k + 1);
    SumZeroTail(n, m, f);
    SumZeroTail(k + 1, m, f);
  }

  /** The product's coefficients are the convolution of the factors' mod Zp,
      the One short-cuts included. */
  lemma CoefMul(a: Poly, b: Poly, zp: nat, k: nat)
    requires zp > 1 && Reduced(a, zp) && Reduced(b, zp)
    ensures Coef(Mul(a, b, zp), k) == Conv(a, b, k) % zp
  {
    var f := ConvTerm(a, b, k);
    if Equals(a, One) {
      EqualsOne(a);
      SumSingle(k + 1, f, k);
      ModOfSmall(Coef(b, k), zp);
    } else if Equals(b, One) {
      EqualsOne(b);
      SumSingle(k + 1, f, 0);
      ModOfSmall(Coef(a, k), zp);
    } else {
      MulLoopCoef(a, b, |b|, zp, k);
      ConvTail(a, b, k, |b|);
    }
  }

  /** Reduced vectors with the same coefficients give products with the
      same coefficients: trailing zeros never matter to `*`. */
  lemma MulCongruent(a: Poly, a': Poly, b: Poly, b': Poly, zp: nat)
    requires zp > 1 && Reduced(a, zp) && Reduced(a', zp) && Reduced(b, zp) && Reduced(b', zp)
    requires Same(a, a') && Same(b, b')
    ensures Same(Mul(a, b, zp), Mul(a', b', zp))
  {
    forall k: nat
      ensures Coef(Mul(a, b, zp), k) == Coef(Mul(a', b', zp), k)
    {
      CoefMul(a, b, zp, k);
      CoefMul(a', b', zp, k);
      SumExt(k + 1, ConvTerm(a, b, k), ConvTerm(a', b', k));
    }
  }

  /** Convolution is symmetric: the sum read backwards. */
  lemma ConvCommutes(a: Poly, b: Poly, k: nat)
    ensures Conv(a, b, k) == Conv(b, a, k)
  {
    var f, g := ConvTerm(a, b, k), ConvTerm(b, a, k);
    forall i: nat | i < k + 1
      ensures g(i) == f(k + 1 - 1 - i)
    {
      ProductCommutes(Coef(b, k - i), Coef(a, i));
    }
    SumReverse(k + 1, f, g);
  }

  lemma MulCommutes(a: Poly, b: Poly, zp: nat)
    requires zp > 1 && Reduced(a, zp) && Reduced(b, zp)
    ensures Same(Mul(a, b, zp), Mul(b, a, zp))
  {
    forall k: nat
      ensures Coef(Mul(a, b, zp), k) == Coef(Mul(b, a, zp), k)
    {
      CoefMul(a, b, zp, k);
      CoefMul(b, a, zp, k);
      ConvCommutes(a, b, k);
    }
  }

  lemma AddCommutes(a: Poly, b: Poly, zp: nat)
    requires zp > 0
    ensures Add(a, b, zp) == Add(b, a, zp)
  {
  }

  /** `+` is associative: a + (b + c) and (a + b) + c have the same
      coefficients. */
  lemma AddAssociates(a: Poly, b: Poly, c: Poly, zp: nat)
    requires zp > 1 && Reduced(a, zp) && Reduced(b, zp) && Reduced(c, zp)
    ensures Same(Add(a, Add(b, c, zp), zp), Add(Add(a, b, zp), c, zp))
  {
    forall i: nat
      ensures Coef(Add(a, Add(b, c, zp), zp), i) == Coef(Add(Add(a, b, zp), c, zp), i)
    {
      var x, y, z := Coef(a, i), Coef(b, i), Coef(c, i);
      AddCoef(b, c, zp, i);
      AddCoef(a, Add(b, c, zp), zp, i);
      AddCoef(a, b, zp, i);
      AddCoef(Add(a, b, zp), c, zp, i);
      ModIdempotent(y + z, zp);
      ModIdempotent(x + y, zp);
      ModAddCongruent(x, x, (y + z) % zp, y + z, zp);
      ModAddCongruent((x + y) % zp, x + y, z, z, zp);
      assert x + (y + z) == (x + y) + z;
    }
  }

  lemma ConvTermDistributes(a: Poly, b: Poly, c: Poly, zp: nat, k: nat, j: nat)
    requires zp > 1 && Reduced(b, zp) && Reduced(c, zp) && j <= k
    ensures ConvTerm(a, Add(b, c, zp), k)(j) % zp == (ConvTerm(a, b, k)(j) + ConvTerm(a, c, k)(j)) % zp
  {
    AddCoef(b, c, zp, j);
    MulModSum(Coef(a, k - j), Coef(b, j), Coef(c, j), zp);
  }

  lemma MulModSum(x: int, y: int, z: int, m: int)
    requires m > 0
    ensures (x * ((y + z) % m)) % m == (x * y + x * z) % m
  {
    ModIdempotent(y + z, m);
    ModMulCongruent((y + z) % m, y + z, x, m);
    assert (y + z) * x == x * y + x * z;
    assert (y + z) % m * x == x * ((y + z) % m);
  }

  lemma ConvDistributes(a: Poly, b: Poly, c: Poly, zp: nat, k: nat)
    requires zp > 1 && Reduced(b, zp) && Reduced(c, zp)
    ensures Conv(a, Add(b, c, zp), k) % zp == (Conv(a, b, k) + Conv(a, c, k)) % zp
  {
    var f, g, h := ConvTerm(a, b, k), ConvTerm(a, c, k), ConvTerm(a, Add(b, c, zp), k);
    var fg := (j: nat) => f(j) + g(j);
    forall j: nat | j < k + 1
      ensures h(j) % zp == fg(j) % zp
    {
      ConvTermDistributes(a, b, c, zp, k, j);
    }
    SumCongruent(k + 1, h, fg, zp);
    SumAdd(k + 1, f, g, fg);
  }

  /** a * (b + c) = a * b + a * c. */
  lemma MulDistributes(a: Poly, b: Poly, c: Poly, zp: nat)
    requires zp > 1 && Reduced(a, zp) && Reduced(b, zp) && Reduced(c, zp)
    ensures Same(Mul(a, Add(b, c, zp), zp), Add(Mul(a, b, zp), Mul(a, c, zp), zp))
  {
    forall k: nat
      ensures Coef(Mul(a, Add(b, c, zp), zp), k) == Coef(Add(Mul(a, b, zp), Mul(a, c, zp), zp), k)
    {
      MulDistributesAt(a, b, c, zp, k);
    }
  }

  lemma MulDistributesAt(a: Poly, b: Poly, c: Poly, zp: nat, k: nat)
    requires zp > 1 && Reduced(a, zp) && Reduced(b, zp) && Reduced(c, zp)
    ensures Coef(Mul(a, Add(b, c, zp), zp), k) == Coef(Add(Mul(a, b, zp), Mul(a, c, zp), zp), k)
  {
    var x, y := Conv(a, b, k), Conv(a, c, k);
    CoefMul(a, Add(b, c, zp), zp, k);
    CoefMul(a, b, zp, k);
    CoefMul(a, c, zp, k);
    AddCoef(Mul(a, b, zp), Mul(a, c, zp), zp, k);
    ConvDistributes(a, b, c, zp, k);
    ModAdd(x, y, zp);
  }

  /** The triple-product term a_(k-i) b_(i-j) c_j over the triangle j <= i <= k. */
  ghost function Triple(a: Poly, b: Poly, c: Poly, k: nat): (nat, nat) -> int
  {
    (i: nat, j: nat) => if j <= i <= k then Coef(a, k - i) * Coef(b, i - j) * Coef(c, j) else 0
  }

  /** Coefficient j of (a * b) times c_j, before reduction. */
  ghost function LeftTerm(a: Poly, b: Poly, c: Poly, k: nat): nat -> int
  {
    (j: nat) => if j <= k then Conv(a, b, k - j) * Coef(c, j) else 0
  }

  /** a_i times coefficient i of (b * c), before reduction. */
  ghost function RightTerm(a: Poly, b: Poly, c: Poly, k: nat): nat -> int
  {
    (i: nat) => if i <= k then Coef(a, k - i) * Conv(b, c, i) else 0
  }

  lemma LeftTermCongruent(a: Poly, b: Poly, c: Poly, zp: nat, k: nat, j: nat)
    requires zp > 1 && Reduced(a, zp) && Reduced(b, zp) && j <= k
    ensures ConvTerm(Mul(a, b, zp), c, k)(j) % zp == LeftTerm(a, b, c, k)(j) % zp
  {
    var x := Conv(a, b, k - j);
    CoefMul(a, b, zp, k - j);
    ModIdempotent(x, zp);
    ModMulCongruent(x % zp, x, Coef(c, j), zp);
  }

  lemma RightTermCongruent(a: Poly, b: Poly, c: Poly, zp: nat, k: nat, i: nat)
    requires zp > 1 && Reduced(b, zp) && Reduced(c, zp) && i <= k
    ensures ConvTerm(a, Mul(b, c, zp), k)(i) % zp == RightTerm(a, b, c, k)(i) % zp
  {
    var x := Conv(b, c, i);
    var y := Coef(a, k - i);
    CoefMul(b, c, zp, i);
    ModIdempotent(x, zp);
    ModMulCongruent(x % zp, x, y, zp);
    ProductCommutes(x % zp, y);
    ProductCommutes(x, y);
  }

  lemma TriplePoint(a: Poly, b: Poly, c: Poly, k: nat, i: nat, j: nat)
    requires j <= i <= k
    ensures Triple(a, b, c, k)(i, j) == Coef(c, j) * ConvTerm(a, b, k - j)(i - j)
    ensures Triple(a, b, c, k)(i, j) == Coef(a, k - i) * ConvTerm(b, c, i)(j)
  {
    var x, y, z := Coef(a, k - i), Coef(b, i - j), Coef(c, j);
    assert x * y * z == z * (x * y) == x * (y * z);
  }

  lemma LeftColumn(a: Poly, b: Poly, c: Poly, k: nat, j: nat)
    requires j <= k
    ensures LeftTerm(a, b, c, k)(j) == Columns(k + 1, Triple(a, b, c, k), j)
  {
    var G := Triple(a, b, c, k);
    var t := ConvTerm(a, b, k - j);
    var col := (d: nat) => G(d + j, j);
    forall d: nat | d < k - j + 1
      ensures col(d) == Coef(c, j) * t(d)
    {
      TriplePoint(a, b, c, k, d + j, j);
    }
    SumScale(k - j + 1, t, Coef(c, j), col);
    ProductCommutes(Conv(a, b, k - j), Coef(c, j));
  }

  lemma RightRow(a: Poly, b: Poly, c: Poly, k: nat, i: nat)
    requires i <= k
    ensures RightTerm(a, b, c, k)(i) == Sum(i + 1, (j: nat) => Triple(a, b, c, k)(i, j))
  {
    var G := Triple(a, b, c, k);
    var t := ConvTerm(b, c, i);
    var row := (j: nat) => G(i, j);
    forall j: nat | j < i + 1
      ensures row(j) == Coef(a, k - i) * t(j)
    {
      TriplePoint(a, b, c, k, i, j);
    }
    SumScale(i + 1, t, Coef(a, k - i), row);
  }

  lemma AssocLeft(a: Poly, b: Poly, c: Poly, zp: nat, k: nat)
    requires zp > 1 && Reduced(a, zp) && Reduced(b, zp) && Reduced(c, zp)
    ensures Coef(Mul(Mul(a, b, zp), c, zp), k) == Sum(k + 1, (j: nat) => Columns(k + 1, Triple(a, b, c, k), j)) % zp
  {
    AssocLeftTerms(a, b, c, zp, k);
    LeftColumns(a, b, c, k);
  }

  /** Coefficient k of (a * b) * c is the sum of the unreduced left terms. */
  lemma AssocLeftTerms(a: Poly, b: Poly, c: Poly, zp: nat, k: nat)
    requires zp > 1 && Reduced(a, zp) && Reduced(b, zp) && Reduced(c, zp)
    ensures Coef(Mul(Mul(a, b, zp), c, zp), k) == Sum(k + 1, LeftTerm(a, b, c, k)) % zp
  {
    var ab := Mul(a, b, zp);
    CoefMul(ab, c, zp, k);
    var f, L := ConvTerm(ab, c, k), LeftTerm(a, b, c, k);
    forall j: nat | j < k + 1
      ensures f(j) % zp == L(j) % zp
    {
      LeftTermCongruent(a, b, c, zp, k, j);
    }
    SumCongruent(k + 1, f, L, zp);
  }

  /** The left terms, summed, are the column sums of the triple products. */
  lemma LeftColumns(a: Poly, b: Poly, c: Poly, k: nat)
    ensures Sum(k + 1, LeftTerm(a, b, c, k)) == Sum(k + 1, (j: nat) => Columns(k + 1, Triple(a, b, c, k), j))
  {
    var L := LeftTerm(a, b, c, k);
    var C := (j: nat) => Columns(k + 1, Triple(a, b, c, k), j);
    forall j: nat | j < k + 1
      ensures L(j) == C(j)
    {
      LeftColumn(a, b, c, k, j);
    }
    SumExt(k + 1, L, C);
  }

  lemma AssocRight(a: Poly, b: Poly, c: Poly, zp: nat, k: nat)
    requires zp > 1 && Reduced(a, zp) && Reduced(b, zp) && Reduced(c, zp)
    ensures Coef(Mul(a, Mul(b, c, zp), zp), k) == Sum(k + 1, (i: nat) => Sum(i + 1, (j: nat) => Triple(a, b, c, k)(i, j))) % zp
  {
    var bc := Mul(b, c, zp);
    CoefMul(a, bc, zp, k);
    var f, R := ConvTerm(a, bc, k), RightTerm(a, b, c, k);
    forall i: nat | i < k + 1
      ensures f(i) % zp == R(i) % zp
    {
      RightTermCongruent(a, b, c, zp, k, i);
    }
    SumCongruent(k + 1, f, R, zp);
    var Rows := (i: nat) => Sum(i + 1, (j: nat) => Triple(a, b, c, k)(i, j));
    forall i: nat | i < k + 1
      ensures R(i) == Rows(i)
    {
      RightRow(a, b, c, k, i);
    }
    SumExt(k + 1, R, Rows);
  }

  lemma MulAssociates(a: Poly, b: Poly, c: Poly, zp: nat)
    requires zp > 1 && Reduced(a, zp) && Reduced(b, zp) && Reduced(c, zp)
    ensures Same(Mul(Mul(a, b, zp), c, zp), Mul(a, Mul(b, c, zp), zp))
  {
    forall k: nat
      ensures Coef(Mul(Mul(a, b, zp), c, zp), k) == Coef(Mul(a, Mul(b, c, zp), zp), k)
    {
      AssocLeft(a, b, c, zp, k);
      AssocRight(a, b, c, zp, k);
      TriangleSwap(k + 1, Triple(a, b, c, k));
    }
  }
}
