/** `IndexPlacementsWithoutRepetitions` of src/algebra/common/combinatorics.h:
    k-element index vectors over 0 .. n-1, built in a buffer that `fill_inc`
    fills with consecutive values and whose last slot the inner loop counts
    up. */
module Combinatorics {

  /** What the function gives back: the returned list, or, once the
      regeneration block reads the buffer at position block_size (one past
      its end), the placements pushed up to that point. */
  datatype Outcome = Placed(placements: seq<seq<nat>>) | ReadPastEnd(pushed: seq<seq<nat>>)

  /** The placements an outcome holds, whichever way it ended. */
  function Emitted(o: Outcome): seq<seq<nat>>
  {
    match o
    case Placed(ps) => ps
    case ReadPastEnd(ps) => ps
  }

  /** `buf[0] = 0; fill_inc(1)`: the vector 0, 1, ..., k - 1. */
  function Ascending(k: nat): (s: seq<nat>)
    ensures |s| == k && forall i :: 0 <= i < k ==> s[i] == i
  {
    seq(k, i => i)
  }

  /** The inner loop with the first slots fixed to prefix and the last slot
      at v: prefix + [v], prefix + [v + 1], ..., prefix + [n - 1]. */
  function RunFrom(prefix: seq<nat>, v: nat, n: nat): seq<seq<nat>>
    decreases n - v
  {
    if v >= n then [] else [prefix + [v]] + RunFrom(prefix, v + 1, n)
  }

  /** The reference definition: nothing for block_size > n, n = 0 or
      block_size = 0; the single vector 0 .. n-1 for block_size = n;
      otherwise the first inner run from 0, 1, ..., k - 1, after which the
      regeneration block reads past the buffer. */
  function Placements(n: nat, k: nat): Outcome
  {
    if k > n || n == 0 || k == 0 then Placed([])
    else if n == k then Placed([Ascending(k)])
    else ReadPastEnd(RunFrom(Ascending(k - 1), k - 1, n))
  }

  /** `fill_inc(start)`: every slot from start on is one more than the slot
      before it. */
  method FillInc(buf: array<nat>, start: nat)
    requires 1 <= start <= buf.Length
    modifies buf
    ensures forall i :: 0 <= i < start ==> buf[i] == old(buf[i])
    ensures forall i :: start - 1 <= i < buf.Length ==> buf[i] == buf[start - 1] + (i - (start - 1))
  {
    for i := start to buf.Length
      invariant forall j :: 0 <= j < start ==> buf[j] == old(buf[j])
      invariant forall j :: start - 1 <= j < i ==> buf[j] == buf[start - 1] + (j - (start - 1))
    {
      buf[i] := buf[i - 1] + 1;
    }
  }

  /** `IndexPlacementsWithoutRepetitions(n, block_size)`, with its buffer
      and its inner while-loop. */
  method IndexPlacementsWithoutRepetitions(n: nat, blockSize: nat) returns (out: Outcome)
    ensures out == Placements(n, blockSize)
  {
    if blockSize > n || n == 0 || blockSize == 0 {
      return Placed([]);
    }
    var buf := new nat[blockSize];
    buf[0] := 0;
    FillInc(buf, 1);
    assert buf[..] == Ascending(blockSize);
    if n == blockSize {
      return Placed([buf[..]]);
    }
    var last := blockSize - 1;
    ghost var prefix := Ascending(last);
    assert buf[..last] == prefix;
    var res: seq<seq<nat>> := [];
    while buf[last] < n
      invariant buf[..last] == prefix && buf[last] <= n
      invariant res + RunFrom(prefix, buf[last], n) == RunFrom(prefix, last, n)
      decreases n - buf[last]
    {
      assert buf[..] == prefix + [buf[last]];
      ghost var v := buf[last];
      assert RunFrom(prefix, v, n) == [prefix + [v]] + RunFrom(prefix, v + 1, n);
      res := res + [buf[..]];
      buf[last] := buf[last] + 1;
      assert buf[..last] == prefix;
    }
    assert RunFrom(prefix, buf[last], n) == [];
    return ReadPastEnd(res);
  }

  // ----- properties -----

  /** Entries strictly increase from left to right. */
  predicate StrictlyIncreasing(s: seq<nat>)
  {
    forall i, j :: 0 <= i < j < |s| ==> s[i] < s[j]
  }

  /** b follows a in one inner run: the same vector except for the last
      slot, which is one larger. */
  predicate NextInRun(a: seq<nat>, b: seq<nat>)
  {
    |a| == |b| > 0 && a[..|a| - 1] == b[..|b| - 1] && b[|b| - 1] == a[|a| - 1] + 1
  }

  /** a comes before b in lexicographic order. */
  predicate LexLess(a: seq<nat>, b: seq<nat>)
  {
    exists i :: 0 <= i < |a| && i < |b| && a[..i] == b[..i] && a[i] < b[i]
  }

  /** The run from v holds n - v vectors (none once v reaches n). */
  lemma {:induction false} RunLength(prefix: seq<nat>, v: nat, n: nat)
    ensures |RunFrom(prefix, v, n)| == (if v <= n then n - v else 0)
    decreases n - v
  {
    if v < n {
      RunLength(prefix, v + 1, n);
    }
  }

  /** Position j of the run from v is prefix + [v + j]. */
  lemma {:induction false} RunAt(prefix: seq<nat>, v: nat, n: nat, j: nat)
    requires v + j < n
    ensures |RunFrom(prefix, v, n)| > j && RunFrom(prefix, v, n)[j] == prefix + [v + j]
    decreases j
  {
    RunLength(prefix, v, n);
    if j > 0 {
      RunAt(prefix, v + 1, n, j - 1);
      assert v + 1 + (j - 1) == v + j;
    }
  }

  /** The run from v lists prefix + [v + j] at position j, n - v vectors in
      all. */
  lemma RunShape(prefix: seq<nat>, v: nat, n: nat)
    ensures |RunFrom(prefix, v, n)| == (if v <= n then n - v else 0)
    ensures forall j :: 0 <= j < |RunFrom(prefix, v, n)| ==> RunFrom(prefix, v, n)[j] == prefix + [v + j]
  {
    RunLength(prefix, v, n);
    forall j | 0 <= j < |RunFrom(prefix, v, n)|
      ensures RunFrom(prefix, v, n)[j] == prefix + [v + j]
    {
      RunAt(prefix, v, n, j);
    }
  }

  /** Every emitted placement has block_size entries, strictly increasing,
      all below n: a block_size-element subset of 0 .. n-1 written in
      increasing order. */
  lemma PlacementsWellFormed(n: nat, k: nat)
    ensures forall p :: p in Emitted(Placements(n, k)) ==>
              |p| == k && StrictlyIncreasing(p) && forall i :: 0 <= i < |p| ==> p[i] < n
  {
    if 0 < k < n {
      var prefix := Ascending(k - 1);
      RunShape(prefix, k - 1, n);
      var run := RunFrom(prefix, k - 1, n);
      forall p | p in run
        ensures |p| == k && StrictlyIncreasing(p) && forall i :: 0 <= i < |p| ==> p[i] < n
      {
        var j :| 0 <= j < |run| && run[j] == p;
        assert p == prefix + [k - 1 + j];
      }
    }
  }

  /** The emitted placements, in order: each differs from the one before
      only in the last slot, which is one larger, so they strictly increase
      in lexicographic order. */
  lemma PlacementsOrdered(n: nat, k: nat)
    ensures forall j :: 0 <= j < |Emitted(Placements(n, k))| - 1 ==>
              NextInRun(Emitted(Placements(n, k))[j], Emitted(Placements(n, k))[j + 1]) &&
              LexLess(Emitted(Placements(n, k))[j], Emitted(Placements(n, k))[j + 1])
  {
    if 0 < k < n {
      var prefix := Ascending(k - 1);
      RunShape(prefix, k - 1, n);
      var ps := RunFrom(prefix, k - 1, n);
      forall j | 0 <= j < |ps| - 1
        ensures NextInRun(ps[j], ps[j + 1]) && LexLess(ps[j], ps[j + 1])
      {
        assert ps[j] == prefix + [k - 1 + j];
        assert ps[j + 1] == prefix + [k + j];
        assert ps[j][..k - 1] == prefix;
        assert ps[j + 1][..k - 1] == prefix;
      }
    }
  }

  /** How many placements come out: none in the early-return cases (C(0, 0)
      included), one for block_size = n, and n - block_size + 1 before the
      read past the buffer otherwise. */
  lemma PlacementsCount(n: nat, k: nat)
    ensures k > n || n == 0 || k == 0 ==> Placements(n, k) == Placed([])
    ensures 0 < k == n ==> Placements(n, k) == Placed([Ascending(n)])
    ensures 0 < k < n ==> Placements(n, k).ReadPastEnd? && |Emitted(Placements(n, k))| == n - k + 1
    ensures 0 < k < n ==> Emitted(Placements(n, k))[0] == Ascending(k)
  {
    if 0 < k < n {
      RunShape(Ascending(k - 1), k - 1, n);
      assert Ascending(k - 1) + [k - 1] == Ascending(k);
    }
  }
}
