/** Powers of a polynomial (`rpow` and `pow` in src/algebra/Polynomial.h):
    `rpow` multiplies n times, `pow` walks the bits of a 64-bit exponent and
    reaches each new set bit by an `rpow` of the previous partial power. */
module PolyPower {
  import opened Arith
  import opened Polynomials
  import opened PolyRing

  lemma MulOneLeft(a: Poly, zp: nat)
    requires zp > 1
    ensures Mul(One, a, zp) == a
  {
  }

  lemma MulOneRight(a: Poly, zp: nat)
    requires zp > 1
    ensures Same(Mul(a, One, zp), a)
  {
    EqualsIffSame(a, One);
  }

  /** Powers of equal polynomials are equal. */
  lemma {:induction false} PowerCongruent(a: Poly, a': Poly, n: nat, zp: nat)
    requires zp > 1 && Reduced(a, zp) && Reduced(a', zp) && Same(a, a')
    ensures Same(Power(a, n, zp), Power(a', n, zp))
    decreases n, 1
  {
    if n > 0 {
      PowerCongruentStep(a, a', n, zp);
    }
  }

  lemma {:induction false} PowerCongruentStep(a: Poly, a': Poly, n: nat, zp: nat)
    requires zp > 1 && Reduced(a, zp) && Reduced(a', zp) && Same(a, a') && n > 0
    ensures Same(Power(a, n, zp), Power(a', n, zp))
    decreases n, 0
  {
    var n1 := n - 1;
    PowerCongruent(a, a', n1, zp);
    PowerSucc(a, n1, n, zp);
    PowerSucc(a', n1, n, zp);
    MulCongruent(Power(a, n1, zp), Power(a', n1, zp), a, a', zp);
  }

  /** a^(m + n) = a^m * a^n. */
  lemma {:induction false} PowerAdd(a: Poly, m: nat, n: nat, zp: nat)
    requires zp > 1 && Reduced(a, zp)
    ensures Same(Power(a, m + n, zp), Mul(Power(a, m, zp), Power(a, n, zp), zp))
    decreases n, 1
  {
    if n == 0 {
      PowerAddZero(a, m, n, zp);
    } else {
      PowerAddRec(a, m, n, zp);
    }
  }

  /** `PowerAdd` for n > 0, from a^(m + n - 1) = a^m * a^(n - 1). */
  lemma {:induction false} PowerAddRec(a: Poly, m: nat, n: nat, zp: nat)
    requires zp > 1 && Reduced(a, zp) && n > 0
    ensures Same(Power(a, m + n, zp), Mul(Power(a, m, zp), Power(a, n, zp), zp))
    decreases n, 0
  {
    var n1 := n - 1;
    PowerAdd(a, m, n1, zp);
    PowerAddStep(a, m, n1, n, m + n1, m + n, zp);
  }

  /** a^(m + 0) = a^m * One. */
  lemma PowerAddZero(a: Poly, m: nat, n: nat, zp: nat)
    requires zp > 1 && Reduced(a, zp) && n == 0
    ensures Same(Power(a, m + n, zp), Mul(Power(a, m, zp), Power(a, n, zp), zp))
  {
    MulOneRight(Power(a, m, zp), zp);
  }

  lemma PowerAddStep(a: Poly, m: nat, n1: nat, n: nat, s1: nat, s: nat, zp: nat)
    requires zp > 1 && Reduced(a, zp) && n == n1 + 1 && s1 == m + n1 && s == s1 + 1
    requires Same(Power(a, s1, zp), Mul(Power(a, m, zp), Power(a, n1, zp), zp))
    ensures Same(Power(a, s, zp), Mul(Power(a, m, zp), Power(a, n, zp), zp))
  {
    var am, an1, amn1 := Power(a, m, zp), Power(a, n1, zp), Power(a, s1, zp);
    var left := Mul(amn1, a, zp);
    var mid := Mul(Mul(am, an1, zp), a, zp);
    var right := Mul(am, Mul(an1, a, zp), zp);
    PowerSucc(a, s1, s, zp);
    PowerSucc(a, n1, n, zp);
    MulCongruent(amn1, Mul(am, an1, zp), a, a, zp);
    MulAssociates(am, an1, a, zp);
    SameTrans(left, mid, right);
  }

  /** m added n times: the exponent of (a^m)^n, kept free of multiplication. */
  function Times(m: nat, n: nat): nat
  {
    if n == 0 then 0 else Times(m, n - 1) + m
  }

  lemma {:induction false} TimesIsProduct(m: nat, n: nat)
    ensures Times(m, n) == m * n
  {
    if n > 0 {
      TimesIsProduct(m, n - 1);
      MulSucc(n - 1, m);
      ProductCommutes(n, m);
      ProductCommutes(n - 1, m);
    }
  }

  /** (a^m)^n = a^(m * n). */
  lemma PowerMul(a: Poly, m: nat, n: nat, zp: nat)
    requires zp > 1 && Reduced(a, zp)
    ensures Same(Power(Power(a, m, zp), n, zp), Power(a, m * n, zp))
  {
    PowerTimes(a, m, n, zp);
    TimesIsProduct(m, n);
  }

  lemma {:induction false} PowerTimes(a: Poly, m: nat, n: nat, zp: nat)
    requires zp > 1 && Reduced(a, zp)
    ensures Same(Power(Power(a, m, zp), n, zp), Power(a, Times(m, n), zp))
    decreases n, 1
  {
    if n > 0 {
      PowerTimesStep(a, m, n, zp);
    }
  }

  lemma {:induction false} PowerTimesStep(a: Poly, m: nat, n: nat, zp: nat)
    requires zp > 1 && Reduced(a, zp) && n > 0
    ensures Same(Power(Power(a, m, zp), n, zp), Power(a, Times(m, n), zp))
    decreases n, 0
  {
    var n1 := n - 1;
    var am := Power(a, m, zp);
    var k1 := Times(m, n1);
    var k := Times(m, n);
    TimesStep(m, n1, n);
    PowerTimes(a, m, n1, zp);
    PowerSucc(am, n1, n, zp);
    MulCongruent(Power(am, n1, zp), Power(a, k1, zp), am, am, zp);
    PowerAddAt(a, k1, m, k, zp);
    SameTrans(Power(am, n, zp), Mul(Power(a, k1, zp), am, zp), Power(a, k, zp));
  }

  lemma TimesStep(m: nat, n1: nat, n: nat)
    requires n == n1 + 1
    ensures Times(m, n) == Times(m, n1) + m
  {
  }

  /** a^i * a^j is a^(i + j), stated for a given k = i + j. */
  lemma PowerAddAt(a: Poly, i: nat, j: nat, k: nat, zp: nat)
    requires zp > 1 && Reduced(a, zp) && k == i + j
    ensures Same(Mul(Power(a, i, zp), Power(a, j, zp), zp), Power(a, k, zp))
  {
    PowerAdd(a, i, j, zp);
  }

  /** `rpow(num)`: One for 0, the polynomial itself for 1, otherwise num
      multiplications starting from One. */
  method RPow(a: Poly, num: nat, zp: nat) returns (r: Poly)
    requires zp > 1
    ensures r == Power(a, num, zp)
  {
    if num == 0 {
      return One;
    }
    if num == 1 {
      return a;
    }
    var res := One;
    var i := 0;
    while i < num
      invariant i <= num && res == Power(a, i, zp)
    {
      PowerSucc(a, i, i + 1, zp);
      res := Mul(res, a, zp);
      i := i + 1;
    }
    return res;
  }

  /** a^j = a^i * a for j = i + 1. */
  lemma PowerSucc(a: Poly, i: nat, j: nat, zp: nat)
    requires zp > 1 && j == i + 1
    ensures Power(a, j, zp) == Mul(Power(a, i, zp), a, zp)
  {
  }

  /** What the loop of `power` keeps: rpower is 2^i (0 once shifted out of
      the word), prev is a^prevPower for the last set bit 2^j, and res is a
      raised to the low i bits of power. */
  ghost predicate BinaryState(a: Poly, power: nat, res: Poly, prev: Poly, prevPower: nat, rpower: nat,
                              i: nat, j: nat, low: nat, zp: nat)
  {
    zp > 1 && Reduced(a, zp) &&
    i <= 64 && rpower == (if i < 64 then TwoTo(i) else 0) &&
    j <= i && prevPower == TwoTo(j) &&
    Reduced(res, zp) && Reduced(prev, zp) &&
    Same(prev, Power(a, prevPower, zp)) &&
    low == power % TwoTo(i) && Same(res, Power(a, low, zp))
  }

  /** One turn of the loop of `power`: the bit rpower is tested and taken,
      then rpower is shifted left within the 64-bit word. */
  method BinaryRound(a: Poly, power: nat, res: Poly, prev: Poly, prevPower: nat, rpower: nat,
                     ghost i: nat, ghost j: nat, ghost low: nat, zp: nat)
    returns (res': Poly, prev': Poly, prevPower': nat, rpower': nat, ghost i': nat, ghost j': nat, ghost low': nat)
    requires BinaryState(a, power, res, prev, prevPower, rpower, i, j, low, zp) && rpower != 0
    ensures BinaryState(a, power, res', prev', prevPower', rpower', i', j', low', zp)
    ensures i' == i + 1
  {
    LowBitsStep(power, i);
    res', prev', prevPower', j', low' := res, prev, prevPower, j, low;
    if BitSet(power, rpower) {
      res', prev' := TakeBit(a, low, prevPower, rpower, i, j, res, prev, zp);
      prevPower' := rpower;
      j', low' := i, low + rpower;
    }
    ShiftLeftWord(i);
    rpower' := (rpower * 2) % Word;
    i' := i + 1;
  }

  /** The body of the `if` of `rpower` for a set bit: prev is raised from
      a^prevPower to a^rpower with `rpow`, and res is multiplied by it. */
  method TakeBit(a: Poly, ghost low: nat, prevPower: nat, rpower: nat, ghost i: nat, ghost j: nat,
                 res: Poly, prev: Poly, zp: nat) returns (res': Poly, prev': Poly)
    requires zp > 1 && Reduced(a, zp) && Reduced(res, zp) && Reduced(prev, zp)
    requires j <= i && prevPower == TwoTo(j) && rpower == TwoTo(i)
    requires Same(prev, Power(a, prevPower, zp)) && Same(res, Power(a, low, zp))
    ensures Reduced(res', zp) && Reduced(prev', zp)
    ensures Same(prev', Power(a, rpower, zp)) && Same(res', Power(a, low + rpower, zp))
  {
    TwoToQuotient(i, j);
    prev' := RPow(prev, rpower / prevPower, zp);
    BitStep(a, low, prevPower, rpower, rpower / prevPower, res, prev, prev', zp);
    res' := Mul(res, prev', zp);
  }

  /** 2^i, the value of `rpower` after i shifts. */
  function TwoTo(i: nat): (r: nat)
    ensures r > 0
  {
    if i == 0 then 1 else 2 * TwoTo(i - 1)
  }

  /** The size_t range of the exponent: 2^64. */
  const Word: nat := TwoTo(64)

  lemma {:induction false} TwoToAdd(i: nat, j: nat)
    ensures TwoTo(i + j) == TwoTo(i) * TwoTo(j)
  {
    if j > 0 {
      TwoToAdd(i, j - 1);
      MulAssoc(TwoTo(i), TwoTo(j - 1), 2);
      assert TwoTo(i + j) == TwoTo(i + j - 1) * 2;
    }
  }

  /** The low i + 1 bits of x are its low i bits plus bit i. */
  lemma ModTwoStep(x: nat, i: nat)
    ensures x % TwoTo(i + 1) == x % TwoTo(i) + ((x / TwoTo(i)) % 2) * TwoTo(i)
  {
    var p := TwoTo(i);
    assert TwoTo(i + 1) == p * 2;
    DivMod(x, p);
    DivMod(x / p, 2);
    var hi, bit, lo := (x / p) / 2, (x / p) % 2, x % p;
    assert x == hi * (p * 2) + (bit * p + lo) by {
      assert x / p == hi * 2 + bit;
      calc {
        x;
        (x / p) * p + lo;
        (hi * 2 + bit) * p + lo;
        { MulAssoc(hi, 2, p); }
        hi * (p * 2) + (bit * p + lo);
      }
    }
    assert bit * p + lo < p * 2 by {
      MulMono(1, bit, p);
    }
    MulNonNeg(bit, p);
    DivModUnique(x, p * 2, hi, bit * p + lo);
  }

  /** 2^i / 2^j = 2^(i - j) for j <= i. */
  lemma TwoToQuotient(i: nat, j: nat)
    requires j <= i
    ensures TwoTo(i) / TwoTo(j) == TwoTo(i - j) && TwoTo(j) * TwoTo(i - j) == TwoTo(i)
  {
    TwoToAdd(j, i - j);
    DivModUnique(TwoTo(i), TwoTo(j), TwoTo(i - j), 0);
  }

  lemma {:induction false} TwoToMono(i: nat, j: nat)
    requires i < j
    ensures TwoTo(i) < TwoTo(j)
  {
    if i < j - 1 {
      TwoToMono(i, j - 1);
    }
  }

  /** 2^i fits the word for i < 64. */
  lemma TwoToWord(i: nat)
    requires i < 64
    ensures TwoTo(i) < Word
  {
    TwoToMono(i, 64);
  }

  /** `rpower <<= 1` on a 64-bit word: 2^(i+1), or 0 once the bit leaves the word. */
  lemma ShiftLeftWord(i: nat)
    requires i < 64
    ensures (TwoTo(i) * 2) % Word == (if i + 1 < 64 then TwoTo(i + 1) else 0)
  {
    assert TwoTo(i + 1) == TwoTo(i) * 2;
    if i + 1 < 64 {
      TwoToWord(i + 1);
      ModOfSmall(TwoTo(i + 1), Word);
    } else {
      assert TwoTo(i + 1) == Word;
      ModOfMultiple(1, Word);
    }
  }

  /** The low bits of power grow by 2^i exactly when bit i is set. */
  lemma LowBitsStep(power: nat, i: nat)
    ensures power % TwoTo(i + 1) == power % TwoTo(i) + (if BitSet(power, TwoTo(i)) then TwoTo(i) else 0)
  {
    ModTwoStep(power, i);
    var bit := (power / TwoTo(i)) % 2;
    if bit == 0 {
      assert bit * TwoTo(i) == 0;
    }
  }

  /** The bit test `power & rpower` for rpower = 2^i. */
  predicate BitSet(power: nat, rpower: nat)
    requires rpower > 0
  {
    (power / rpower) % 2 == 1
  }

  /** One set bit: prev goes from a^pj to a^pi, pi = pj * k, and res gains a^pi. */
  lemma BitStep(a: Poly, low: nat, pj: nat, pi: nat, k: nat, res: Poly, prev: Poly, prev': Poly, zp: nat)
    requires zp > 1 && Reduced(a, zp) && Reduced(res, zp) && Reduced(prev, zp)
    requires Same(prev, Power(a, pj, zp)) && Same(res, Power(a, low, zp))
    requires pj * k == pi && prev' == Power(prev, k, zp)
    ensures Same(prev', Power(a, pi, zp))
    ensures Same(Mul(res, prev', zp), Power(a, low + pi, zp))
  {
    PowerCongruent(prev, Power(a, pj, zp), k, zp);
    PowerMul(a, pj, k, zp);
    SameTrans(prev', Power(Power(a, pj, zp), k, zp), Power(a, pi, zp));
    MulCongruent(res, Power(a, low, zp), prev', Power(a, pi, zp), zp);
    PowerAdd(a, low, pi, zp);
    SameTrans(Mul(res, prev', zp), Mul(Power(a, low, zp), Power(a, pi, zp), zp), Power(a, low + pi, zp));
  }

  /** `pow(power)`: {1} for 0, the polynomial itself for 1; otherwise rpower
      runs over 1, 2, 4, ... until it shifts out of the 64-bit word, and each
      set bit multiplies res by prev raised from 2^j to 2^i with `rpow`. */
  method PowBinary(a: Poly, power: nat, zp: nat) returns (r: Poly)
    requires zp > 1 && Reduced(a, zp) && power < Word
    ensures Reduced(r, zp) && Same(r, Power(a, power, zp))
  {
    MulOneLeft(a, zp);
    if power == 0 {
      return One;
    }
    if power == 1 {
      return a;
    }
    var res, prev := One, a;
    var prevPower, rpower := 1, 1;
    ghost var i, j, low := 0, 0, 0;
    while rpower != 0
      invariant BinaryState(a, power, res, prev, prevPower, rpower, i, j, low, zp)
      decreases 64 - i
    {
      res, prev, prevPower, rpower, i, j, low := BinaryRound(a, power, res, prev, prevPower, rpower, i, j, low, zp);
    }
    ModOfSmall(power, Word);
    return res;
  }
}
