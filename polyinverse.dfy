/** `ExpandedGcd` of src/algebra/Polynomial.h: solving a * x = b modulo a
    polynomial with the extended Euclidean algorithm, whose two matrix rows
    (q, r, x, y) each keep x * mod + y * a = r. */
module PolyInverse {
  import opened Arith
  import opened Wrappers
  import opened Polynomials
  import opened PolyRing
  import opened PolyDivision
  import opened PolyGcd
  import opened PolyPower

  /** One row of the 2 x 4 matrix: quotient, remainder and the two cofactors. */
  datatype Row = Row(q: Poly, r: Poly, x: Poly, y: Poly)

  predicate RowReduced(row: Row, zp: nat)
  {
    Reduced(row.q, zp) && Reduced(row.r, zp) && Reduced(row.x, zp) && Reduced(row.y, zp)
  }

  /** The row's cofactors combine m and a into its remainder. */
  ghost predicate Bezout(row: Row, m: Poly, a: Poly, zp: nat)
    requires zp > 1
  {
    Same(Add(Mul(row.x, m, zp), Mul(row.y, a, zp), zp), row.r)
  }

  // ----- additive facts, coefficient by coefficient -----

  /** (a - b) + b = a. */
  lemma SubAddCancel(a: Poly, b: Poly, zp: nat)
    requires zp > 1 && Reduced(a, zp) && Reduced(b, zp)
    ensures Same(Add(Sub(a, b, zp), b, zp), a)
  {
    forall i: nat
      ensures Coef(Add(Sub(a, b, zp), b, zp), i) == Coef(a, i)
    {
      SubCoef(a, b, zp, i);
      AddCoef(Sub(a, b, zp), b, zp, i);
      var x, y := Coef(a, i), Coef(b, i);
      ModIdempotent(x - y, zp);
      ModAddCongruent((x - y) % zp, x - y, y, y, zp);
      ModOfSmall(x, zp);
    }
  }

  /** A + C = B + C cancels to A = B. */
  lemma AddCancel(a: Poly, b: Poly, c: Poly, zp: nat)
    requires zp > 1 && Reduced(a, zp) && Reduced(b, zp) && Reduced(c, zp)
    requires Same(Add(a, c, zp), Add(b, c, zp))
    ensures Same(a, b)
  {
    forall i: nat
      ensures Coef(a, i) == Coef(b, i)
    {
      AddCoef(a, c, zp, i);
      AddCoef(b, c, zp, i);
      CancelInt(Coef(a, i), Coef(b, i), Coef(c, i), zp);
    }
  }

  lemma CancelInt(x: int, y: int, z: int, m: int)
    requires m > 0 && 0 <= x < m && 0 <= y < m && (x + z) % m == (y + z) % m
    ensures x == y
  {
    DifferenceOfCongruent(x + z, y + z, m);
    assert (x + z) - (y + z) == x - y;
    ModOfSmall(x, m);
    ModOfSmall(y, m);
    CongruentByDifference(x, y, m);
  }

  /** (A + B) + (C + D) = (A + C) + (B + D). */
  lemma AddSwapMiddle(a: Poly, b: Poly, c: Poly, d: Poly, zp: nat)
    requires zp > 1 && Reduced(a, zp) && Reduced(b, zp) && Reduced(c, zp) && Reduced(d, zp)
    ensures Same(Add(Add(a, b, zp), Add(c, d, zp), zp), Add(Add(a, c, zp), Add(b, d, zp), zp))
  {
    forall i: nat
      ensures Coef(Add(Add(a, b, zp), Add(c, d, zp), zp), i) == Coef(Add(Add(a, c, zp), Add(b, d, zp), zp), i)
    {
      AddCoef(a, b, zp, i);
      AddCoef(c, d, zp, i);
      AddCoef(a, c, zp, i);
      AddCoef(b, d, zp, i);
      AddCoef(Add(a, b, zp), Add(c, d, zp), zp, i);
      AddCoef(Add(a, c, zp), Add(b, d, zp), zp, i);
      var w, x, y, z := Coef(a, i), Coef(b, i), Coef(c, i), Coef(d, i);
      ModIdempotent(w + x, zp);
      ModIdempotent(y + z, zp);
      ModIdempotent(w + y, zp);
      ModIdempotent(x + z, zp);
      ModAddCongruent((w + x) % zp, w + x, (y + z) % zp, y + z, zp);
      ModAddCongruent((w + y) % zp, w + y, (x + z) % zp, x + z, zp);
      assert (w + x) + (y + z) == (w + y) + (x + z);
    }
  }

  // ----- one elimination step keeps the Bezout identity -----

  /** x0 * m = x * m + (q * x1) * m when x = x0 - q * x1. */
  lemma ExpandSide(x0: Poly, q: Poly, x1: Poly, m: Poly, zp: nat)
    requires zp > 1 && Reduced(x0, zp) && Reduced(q, zp) && Reduced(x1, zp) && Reduced(m, zp)
    ensures Same(Mul(x0, m, zp), Add(Mul(Sub(x0, Mul(q, x1, zp), zp), m, zp), Mul(Mul(q, x1, zp), m, zp), zp))
  {
    var qx := Mul(q, x1, zp);
    var x := Sub(x0, qx, zp);
    SubAddCancel(x0, qx, zp);
    MulCongruent(x0, Add(x, qx, zp), m, m, zp);
    MulDistributesRight(x, qx, m, zp);
    SameTrans(Mul(x0, m, zp), Mul(Add(x, qx, zp), m, zp), Add(Mul(x, m, zp), Mul(qx, m, zp), zp));
  }

  /** (q * x1) * m + (q * y1) * a = q * r1 when x1 * m + y1 * a = r1. */
  lemma QuotientPart(q: Poly, x1: Poly, y1: Poly, r1: Poly, m: Poly, a: Poly, zp: nat)
    requires zp > 1 && Reduced(q, zp) && Reduced(x1, zp) && Reduced(y1, zp) && Reduced(r1, zp)
    requires Reduced(m, zp) && Reduced(a, zp)
    requires Same(Add(Mul(x1, m, zp), Mul(y1, a, zp), zp), r1)
    ensures Same(Add(Mul(Mul(q, x1, zp), m, zp), Mul(Mul(q, y1, zp), a, zp), zp), Mul(q, r1, zp))
  {
    var xm, ya := Mul(x1, m, zp), Mul(y1, a, zp);
    MulAssociates(q, x1, m, zp);
    MulAssociates(q, y1, a, zp);
    AddCongruent(Mul(Mul(q, x1, zp), m, zp), Mul(q, xm, zp), Mul(Mul(q, y1, zp), a, zp), Mul(q, ya, zp), zp);
    MulDistributes(q, xm, ya, zp);
    MulCongruent(q, q, Add(xm, ya, zp), r1, zp);
    var left := Add(Mul(Mul(q, x1, zp), m, zp), Mul(Mul(q, y1, zp), a, zp), zp);
    var mid := Add(Mul(q, xm, zp), Mul(q, ya, zp), zp);
    SameTrans(left, mid, Mul(q, Add(xm, ya, zp), zp));
    SameTrans(left, Mul(q, Add(xm, ya, zp), zp), Mul(q, r1, zp));
  }

  /** The new row (q, r0 % r1, x0 - q * x1, y0 - q * y1) keeps the identity. */
  lemma StepBezout(row0: Row, row1: Row, q: Poly, r: Poly, m: Poly, a: Poly, zp: nat)
    requires zp > 1 && RowReduced(row0, zp) && RowReduced(row1, zp) && Reduced(q, zp) && Reduced(r, zp)
    requires Reduced(m, zp) && Reduced(a, zp)
    requires Bezout(row0, m, a, zp) && Bezout(row1, m, a, zp)
    requires Same(Add(Mul(q, row1.r, zp), r, zp), row0.r)
    ensures Bezout(NextRow(row0, row1, q, r, zp), m, a, zp)
  {
    var next := NextRow(row0, row1, q, r, zp);
    var X, Y := Mul(next.x, m, zp), Mul(next.y, a, zp);
    var Q1, Q2 := Mul(Mul(q, row1.x, zp), m, zp), Mul(Mul(q, row1.y, zp), a, zp);
    var qr := Mul(q, row1.r, zp);
    ExpandSide(row0.x, q, row1.x, m, zp);
    ExpandSide(row0.y, q, row1.y, a, zp);
    AddCongruent(Mul(row0.x, m, zp), Add(X, Q1, zp), Mul(row0.y, a, zp), Add(Y, Q2, zp), zp);
    AddSwapMiddle(X, Q1, Y, Q2, zp);
    QuotientPart(q, row1.x, row1.y, row1.r, m, a, zp);
    AddCongruent(Add(X, Y, zp), Add(X, Y, zp), Add(Q1, Q2, zp), qr, zp);
    var s0 := Add(Mul(row0.x, m, zp), Mul(row0.y, a, zp), zp);
    SameTrans(s0, Add(Add(X, Q1, zp), Add(Y, Q2, zp), zp), Add(Add(X, Y, zp), Add(Q1, Q2, zp), zp));
    SameTrans(s0, Add(Add(X, Y, zp), Add(Q1, Q2, zp), zp), Add(Add(X, Y, zp), qr, zp));
    AddCommutes(qr, r, zp);
    assert Same(Add(Add(X, Y, zp), qr, zp), Add(r, qr, zp));
    AddCancel(Add(X, Y, zp), r, qr, zp);
  }

  /** The row that replaces the second one: `temp` in the loop body. */
  function NextRow(row0: Row, row1: Row, q: Poly, r: Poly, zp: nat): (next: Row)
    requires zp > 1 && RowReduced(row0, zp) && RowReduced(row1, zp) && Reduced(q, zp) && Reduced(r, zp)
    ensures RowReduced(next, zp) && next.q == q && next.r == r
  {
    Row(q, r, Sub(row0.x, Mul(q, row1.x, zp), zp), Sub(row0.y, Mul(q, row1.y, zp), zp))
  }

  // ----- the elimination loop -----

  /** `while (matrix[1][1] != One)`: divide the upper remainder by the lower
      one and shift the rows up; a Zero remainder makes the next division throw. */
  function Eliminate(row0: Row, row1: Row, zp: nat): (res: Result<Row>)
    requires zp > 1 && RowReduced(row0, zp) && RowReduced(row1, zp)
    ensures res.Ok? ==> RowReduced(res.value, zp) && Equals(res.value.r, One)
    ensures res.Err? ==> res.error != NoInverse
    decreases Size(row1.r)
  {
    if Equals(row1.r, One) then Ok(row1)
    else
      match Division(row0.r, row1.r, zp)
      case Err(e) => Err(e)
      case Ok((q, r)) => Eliminate(row1, NextRow(row0, row1, q, r, zp), zp)
  }

  /** Every row the loop produces keeps the identity, so the final one has
      x * m + y * a = One: y is an inverse of a modulo m. */
  lemma {:induction false} EliminateBezout(row0: Row, row1: Row, m: Poly, a: Poly, zp: nat)
    requires zp > 1 && RowReduced(row0, zp) && RowReduced(row1, zp) && Reduced(m, zp) && Reduced(a, zp)
    requires Bezout(row0, m, a, zp) && Bezout(row1, m, a, zp)
    ensures Eliminate(row0, row1, zp).Ok? ==> Bezout(Eliminate(row0, row1, zp).value, m, a, zp)
    ensures Eliminate(row0, row1, zp).Ok? ==> Same(Add(Mul(Eliminate(row0, row1, zp).value.x, m, zp), Mul(Eliminate(row0, row1, zp).value.y, a, zp), zp), One)
    decreases Size(row1.r)
  {
    if Equals(row1.r, One) {
      EqualsIffSame(row1.r, One);
      SameTrans(Add(Mul(row1.x, m, zp), Mul(row1.y, a, zp), zp), row1.r, One);
    } else if Division(row0.r, row1.r, zp).Ok? {
      var d := Division(row0.r, row1.r, zp).value;
      DivisionCorrect(row0.r, row1.r, zp);
      StepBezout(row0, row1, d.0, d.1, m, a, zp);
      EliminateBezout(row1, NextRow(row0, row1, d.0, d.1, zp), m, a, zp);
    }
  }

  /** Adding a polynomial equal to Zero changes nothing. */
  lemma AddZero(p: Poly, z: Poly, zp: nat)
    requires zp > 1 && Reduced(p, zp) && Reduced(z, zp) && Same(z, Zero)
    ensures Same(Add(p, z, zp), p) && Same(Add(z, p, zp), p)
  {
    AddCommutes(p, z, zp);
    forall i: nat
      ensures Coef(Add(p, z, zp), i) == Coef(p, i)
    {
      AddCoef(p, z, zp, i);
      ModOfSmall(Coef(p, i), zp);
    }
  }

  /** The two initial rows {Zero, mod, One, Zero} and {Zero, a, Zero, One}. */
  lemma InitialBezout(m: Poly, a: Poly, zp: nat)
    requires zp > 1 && Reduced(m, zp) && Reduced(a, zp)
    ensures Bezout(Row(Zero, m, One, Zero), m, a, zp) && Bezout(Row(Zero, a, Zero, One), m, a, zp)
  {
    MulOneLeft(m, zp);
    MulOneLeft(a, zp);
    MulZeroLeft(a, zp);
    MulZeroLeft(m, zp);
    AddZero(m, Mul(Zero, a, zp), zp);
    AddZero(a, Mul(Zero, m, zp), zp);
  }

  // ----- ExpandedGcd -----

  /** The operands the matrix starts from. */
  datatype Normal = Normal(a: Poly, b: Poly, m: Poly)

  /** The set-up before the matrix: g = Gcd(a, mod); when g is not One, b must
      leave remainder Zero on division by g ("Cannot find a solution" otherwise)
      and a, b and mod are all divided by g. */
  function Cancel(a: Poly, b: Poly, m: Poly, zp: nat): (res: Result<Normal>)
    requires zp > 1 && Reduced(a, zp) && Reduced(b, zp) && Reduced(m, zp)
    ensures res.Ok? ==> Reduced(res.value.a, zp) && Reduced(res.value.b, zp) && Reduced(res.value.m, zp)
    ensures Gcd(a, m, zp).Ok? && Equals(Gcd(a, m, zp).value, One) ==> res == Ok(Normal(a, b, m))
    ensures res == Err(NoInverse) <==>
              Gcd(a, m, zp).Ok? && !Equals(Gcd(a, m, zp).value, One) &&
              Rem(b, Gcd(a, m, zp).value, zp).Ok? && !Equals(Rem(b, Gcd(a, m, zp).value, zp).value, Zero)
  {
    var g :- Gcd(a, m, zp);
    if Equals(g, One) then Ok(Normal(a, b, m))
    else
      var qr :- Division(b, g, zp);
      if !Equals(qr.1, Zero) then Err(NoInverse)
      else
        var a' :- Quot(a, g, zp);
        var m' :- Quot(m, g, zp);
        Ok(Normal(a', qr.0, m'))
  }

  /** `ExpandedGcd(a, b, mod)`: a and b are reduced modulo mod, an a equal to
      One returns b, otherwise the common factor with mod is cancelled, the
      matrix is eliminated down to a remainder One and the answer is
      y * b % mod. */
  function ExpandedGcd(a0: Poly, b0: Poly, mod: Poly, zp: nat): (res: Result<Poly>)
    requires zp > 1 && Reduced(a0, zp) && Reduced(b0, zp) && Reduced(mod, zp)
    ensures res.Ok? ==> Reduced(res.value, zp)
  {
    var a :- Rem(a0, mod, zp);
    var b :- Rem(b0, mod, zp);
    if Equals(a, One) then Ok(b)
    else
      var n :- Cancel(a, b, mod, zp);
      var row :- Eliminate(Row(Zero, n.m, One, Zero), Row(Zero, n.a, Zero, One), zp);
      Rem(Mul(row.y, n.b, zp), n.m, zp)
  }

  /** res is y * b modulo m for a y with x * m + y * a = One: an inverse of a
      modulo m times b. */
  ghost predicate SolvesWith(n: Normal, res: Poly, zp: nat)
    requires zp > 1 && Reduced(n.a, zp) && Reduced(n.b, zp) && Reduced(n.m, zp)
  {
    exists x: Poly, y: Poly :: Reduced(x, zp) && Reduced(y, zp) &&
      Same(Add(Mul(x, n.m, zp), Mul(y, n.a, zp), zp), One) && Rem(Mul(y, n.b, zp), n.m, zp) == Ok(res)
  }

  /** What `ExpandedGcd` returns and when it throws: a Zero modulus is a
      division by Zero; "Cannot find a solution" exactly when the common factor
      g of a and mod is not One and does not divide b; a result with a not One
      is b times an inverse of a, in the cancelled operands. */
  lemma ExpandedGcdCorrect(a0: Poly, b0: Poly, mod: Poly, zp: nat)
    requires zp > 1 && Reduced(a0, zp) && Reduced(b0, zp) && Reduced(mod, zp)
    ensures Equals(mod, Zero) ==> ExpandedGcd(a0, b0, mod, zp) == Err(DivisionByZero)
    ensures ExpandedGcd(a0, b0, mod, zp) == Err(NoInverse) <==>
              Rem(a0, mod, zp).Ok? && Rem(b0, mod, zp).Ok? && !Equals(Rem(a0, mod, zp).value, One) &&
              Cancel(Rem(a0, mod, zp).value, Rem(b0, mod, zp).value, mod, zp) == Err(NoInverse)
    ensures ExpandedGcd(a0, b0, mod, zp).Ok? && Equals(Rem(a0, mod, zp).value, One) ==>
              ExpandedGcd(a0, b0, mod, zp) == Rem(b0, mod, zp)
    ensures ExpandedGcd(a0, b0, mod, zp).Ok? && !Equals(Rem(a0, mod, zp).value, One) ==>
              Cancel(Rem(a0, mod, zp).value, Rem(b0, mod, zp).value, mod, zp).Ok? &&
              SolvesWith(Cancel(Rem(a0, mod, zp).value, Rem(b0, mod, zp).value, mod, zp).value,
                         ExpandedGcd(a0, b0, mod, zp).value, zp)
  {
    if ExpandedGcd(a0, b0, mod, zp).Ok? && !Equals(Rem(a0, mod, zp).value, One) {
      var a, b := Rem(a0, mod, zp).value, Rem(b0, mod, zp).value;
      var n := Cancel(a, b, mod, zp).value;
      var row0, row1 := Row(Zero, n.m, One, Zero), Row(Zero, n.a, Zero, One);
      InitialBezout(n.m, n.a, zp);
      EliminateBezout(row0, row1, n.m, n.a, zp);
      var row := Eliminate(row0, row1, zp).value;
      assert Rem(Mul(row.y, n.b, zp), n.m, zp) == ExpandedGcd(a0, b0, mod, zp);
    }
  }

  /** `ExpandedGcd` with its matrix loop; `/` and `%` of the same operands are
      one division. */
  method ExpandedGcdMethod(a0: Poly, b0: Poly, mod: Poly, zp: nat) returns (res: Result<Poly>)
    requires zp > 1 && Reduced(a0, zp) && Reduced(b0, zp) && Reduced(mod, zp)
    ensures res == ExpandedGcd(a0, b0, mod, zp)
  {
    var d := Divide(a0, mod, zp);
    if d.Err? {
      return Err(d.error);
    }
    var a := d.value.1;
    d := Divide(b0, mod, zp);
    if d.Err? {
      return Err(d.error);
    }
    var b := d.value.1;
    if Equals(a, One) {
      return Ok(b);
    }
    var n := CancelCommon(a, b, mod, zp);
    if n.Err? {
      return Err(n.error);
    }
    var row := EliminateRows(Row(Zero, n.value.m, One, Zero), Row(Zero, n.value.a, Zero, One), zp);
    if row.Err? {
      return Err(row.error);
    }
    d := Divide(Mul(row.value.y, n.value.b, zp), n.value.m, zp);
    if d.Err? {
      return Err(d.error);
    }
    return Ok(d.value.1);
  }

  /** The set-up of `ExpandedGcd` before the matrix: the common factor of a
      and mod is cancelled from a, b and mod. */
  method CancelCommon(a: Poly, b: Poly, mod: Poly, zp: nat) returns (res: Result<Normal>)
    requires zp > 1 && Reduced(a, zp) && Reduced(b, zp) && Reduced(mod, zp)
    ensures res == Cancel(a, b, mod, zp)
  {
    var g := GcdMethod(a, mod, zp);
    if g.Err? {
      return Err(g.error);
    }
    if Equals(g.value, One) {
      return Ok(Normal(a, b, mod));
    }
    var d := Divide(b, g.value, zp);
    if d.Err? {
      return Err(d.error);
    }
    if !Equals(d.value.1, Zero) {
      return Err(NoInverse);
    }
    var da := Divide(a, g.value, zp);
    if da.Err? {
      return Err(da.error);
    }
    var dm := Divide(mod, g.value, zp);
    if dm.Err? {
      return Err(dm.error);
    }
    return Ok(Normal(da.value.0, d.value.0, dm.value.0));
  }

  /** The matrix loop of `ExpandedGcd`: rows are eliminated until the
      remainder is One. */
  method EliminateRows(first: Row, second: Row, zp: nat) returns (res: Result<Row>)
    requires zp > 1 && RowReduced(first, zp) && RowReduced(second, zp)
    ensures res == Eliminate(first, second, zp)
  {
    var row0, row1 := first, second;
    while !Equals(row1.r, One)
      invariant RowReduced(row0, zp) && RowReduced(row1, zp)
      invariant Eliminate(row0, row1, zp) == Eliminate(first, second, zp)
      decreases Size(row1.r)
    {
      var qr := Divide(row0.r, row1.r, zp);
      if qr.Err? {
        return Err(qr.error);
      }
      row0, row1 := row1, NextRow(row0, row1, qr.value.0, qr.value.1, zp);
    }
    return Ok(row1);
  }
}
