/** Finite sums of integer sequences given by functions, and the handful of
    rearrangements the polynomial ring laws need. */
module Sums {
  import opened Arith

  /** f(0) + ... + f(n - 1). */
  ghost function Sum(n: nat, f: nat -> int): int
  {
    if n == 0 then 0 else Sum(n - 1, f) + f(n - 1)
  }

  /** Sums of pointwise equal terms are equal. */
  lemma {:induction false} SumExt(n: nat, f: nat -> int, g: nat -> int)
    requires forall i: nat :: i < n ==> f(i) == g(i)
    ensures Sum(n, f) == Sum(n, g)
  {
    if n > 0 {
      SumExt(n - 1, f, g);
    }
  }

  lemma {:induction false} SumAdd(n: nat, f: nat -> int, g: nat -> int, h: nat -> int)
    requires forall i: nat :: i < n ==> h(i) == f(i) + g(i)
    ensures Sum(n, h) == Sum(n, f) + Sum(n, g)
  {
    if n > 0 {
      SumAdd(n - 1, f, g, h);
    }
  }

  /** A common factor comes out of a sum. */
  lemma {:induction false} SumScale(n: nat, f: nat -> int, c: int, h: nat -> int)
    requires forall i: nat :: i < n ==> h(i) == c * f(i)
    ensures Sum(n, h) == c * Sum(n, f)
  {
    if n > 0 {
      SumScale(n - 1, f, c, h);
      assert c * Sum(n, f) == c * Sum(n - 1, f) + c * f(n - 1);
    }
  }

  /** Terms congruent mod m give congruent sums. */
  lemma {:induction false} SumCongruent(n: nat, f: nat -> int, g: nat -> int, m: int)
    requires m > 0
    requires forall i: nat :: i < n ==> f(i) % m == g(i) % m
    ensures Sum(n, f) % m == Sum(n, g) % m
  {
    if n > 0 {
      SumCongruent(n - 1, f, g, m);
      ModAddCongruent(Sum(n - 1, f), Sum(n - 1, g), f(n - 1), g(n - 1), m);
    }
  }

  /** Vanishing terms past n do not change the sum. */
  lemma {:induction false} SumZeroTail(n: nat, m: nat, f: nat -> int)
    requires n <= m
    requires forall i: nat :: n <= i < m ==> f(i) == 0
    ensures Sum(m, f) == Sum(n, f)
  {
    if m > n {
      SumZeroTail(n, m - 1, f);
    }
  }

  /** A sum with a single non-vanishing term t. */
  lemma {:induction false} SumSingle(n: nat, f: nat -> int, t: nat)
    requires t < n
    requires forall i: nat :: i < n && i != t ==> f(i) == 0
    ensures Sum(n, f) == f(t)
  {
    if n - 1 > t {
      SumSingle(n - 1, f, t);
    } else {
      SumZeroTail(0, n - 1, f);
    }
  }

  /** Summing in reverse order. */
  lemma {:induction false} SumReverse(n: nat, f: nat -> int, g: nat -> int)
    requires forall i: nat :: i < n ==> g(i) == f(n - 1 - i)
    ensures Sum(n, g) == Sum(n, f)
  {
    if n > 0 {
      // g(0) = f(n-1) is the first term of g; the rest is the reverse of f below n-1.
      var g' := (i: nat) => g(i + 1);
      SumReverse(n - 1, f, g');
      SumShiftFirst(n, g, g');
    }
  }

  /** Peeling the first term off a sum. */
  lemma {:induction false} SumShiftFirst(n: nat, g: nat -> int, g': nat -> int)
    requires n > 0
    requires forall i: nat :: g'(i) == g(i + 1)
    ensures Sum(n, g) == g(0) + Sum(n - 1, g')
  {
    if n > 1 {
      SumShiftFirst(n - 1, g, g');
    }
  }

  /** The triangle {(i, j) : j <= i < n} summed by rows or by columns:
      the sum over i < n of G(i, j) for j <= i equals the sum over j < n of
      G(j + d, j) for d < n - j. */
  lemma {:induction false} TriangleSwap(n: nat, G: (nat, nat) -> int)
    ensures Sum(n, (i: nat) => Sum(i + 1, (j: nat) => G(i, j))) == Sum(n, (j: nat) => Columns(n, G, j))
  {
    if n > 0 {
      TriangleSwap(n - 1, G);
      var row := (j: nat) => G(n - 1, j);
      var prev := (j: nat) => Columns(n - 1, G, j);
      var cur := (j: nat) => Columns(n, G, j);
      forall j: nat | j < n
        ensures cur(j) == prev(j) + row(j)
      {
        ColumnStep(n, G, j);
      }
      SumAdd(n, prev, row, cur);
      assert prev(n - 1) == 0;
    }
  }

  /** Column j of the triangle below n: G(j + d, j) for d < n - j. */
  ghost function Columns(n: nat, G: (nat, nat) -> int, j: nat): int
  {
    if j <= n then Sum(n - j, (d: nat) => G(d + j, j)) else 0
  }

  lemma ColumnStep(n: nat, G: (nat, nat) -> int, j: nat)
    requires 0 < n && j < n
    ensures Columns(n, G, j) == Columns(n - 1, G, j) + G(n - 1, j)
  {
  }
}
