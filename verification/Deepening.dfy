/**
 The repair of an overfull distribution of code lengths (archival/gzip.c, gen_bitlen), without its steps:
 the shortest codes keep their lengths as far down as possible, and there is only one outcome.
 */
module Deepening {
  import opened Words
  import opened CodeCounts

  /** The counts after one leaf of `bits` bits has moved down with an overflow item as its brother. */
  function Repaired(bl: seq<nat>, m: nat, bits: nat): seq<nat>
    requires 0 < bits < m < |bl| && bl[bits] > 0 && bl[m] > 0
  {
    var a := bl[bits := bl[bits] - 1];
    var b := a[bits + 1 := a[bits + 1] + 2];
    b[m := b[m] - 1]
  }

  /**
   The codes of up to d bits are kept, but for some of d bits; of each length between d and m there is at most one
   code, or two of the longest of them.
   */
  ghost predicate DeepenedAt(was: seq<nat>, bl: seq<nat>, m: nat, d: nat) {
    && |bl| == |was| && 0 < d < m < |bl|
    && (forall b :: 0 <= b < d ==> bl[b] == was[b])
    && bl[d] <= was[d] && (d < m - 1 ==> bl[d] < was[d])
    && Thin(bl, m, d + 1)
  }

  /** From k bits on, at most one code of each length, or two of the longest one below m. */
  ghost predicate Thin(bl: seq<nat>, m: nat, k: nat) {
    && m < |bl| && (forall b :: k <= b < m ==> bl[b] <= 2)
    && (forall b, c :: k <= b < c < m && bl[b] == 2 ==> bl[c] == 0)
  }

  ghost predicate Deepened(was: seq<nat>, bl: seq<nat>, m: nat) {
    exists d :: DeepenedAt(was, bl, m, d)
  }

  lemma NothingDeepened(bl: seq<nat>, m: nat)
    requires 1 < m < |bl|
    ensures Deepened(bl, bl, m)
  {
    assert DeepenedAt(bl, bl, m, m - 1);
  }

  /** Moving one of the longest codes below m keeps this. */
  lemma DeepenStep(was: seq<nat>, bl: seq<nat>, m: nat, bits: nat)
    requires Deepened(was, bl, m) && 0 < bits < m < |bl| && bl[bits] > 0 && bl[m] > 0
    requires forall b :: bits < b < m ==> bl[b] == 0
    ensures Deepened(was, Repaired(bl, m, bits), m)
  {
    var d: nat :| DeepenedAt(was, bl, m, d);
    assert DeepenedAt(was, Repaired(bl, m, bits), m, if bits < d then bits else d);
  }

  /** What the codes of fewer than k bits count beyond the longest ones, in units of 2^-m. */
  function Weight(bl: seq<nat>, k: nat, m: nat): int
    requires k <= |bl| && k <= m + 1
  {
    KraftCounts(bl, k, m) - TotalCount(bl, k)
  }

  lemma WeightNext(bl: seq<nat>, k: nat, m: nat)
    requires k < |bl| && k <= m
    ensures Weight(bl, k + 1, m) == Weight(bl, k, m) + bl[k] * (Pow2(m - k) - 1)
  {
    hide Pow2;
    Distribute(bl[k], 0, Pow2(m - k));
  }

  lemma {:induction false} SamePrefix(x: seq<nat>, y: seq<nat>, k: nat, m: nat)
    requires k <= |x| && k <= |y| && k <= m + 1 && x[..k] == y[..k]
    ensures Weight(x, k, m) == Weight(y, k, m) && TotalCount(x, k) == TotalCount(y, k)
  {
    if k > 0 {
      assert x[..k - 1] == x[..k][..k - 1] == y[..k][..k - 1] == y[..k - 1] && x[k - 1] == x[..k][k - 1] == y[..k][k - 1];
      SamePrefix(x, y, k - 1, m);
    }
  }

  lemma {:induction false} NoneFrom(bl: seq<nat>, k: nat, m: nat)
    requires k <= m < |bl| && forall b :: k <= b < m ==> bl[b] == 0
    ensures Weight(bl, m, m) == Weight(bl, k, m)
    decreases m - k
  {
    hide Weight;
    if k < m {
      WeightNext(bl, k, m);
      NoneFrom(bl, k + 1, m);
    }
  }

  /** Thin counts weigh less than one code that is a bit shorter. */
  lemma {:induction false} ThinWeight(bl: seq<nat>, k: nat, m: nat)
    requires k <= m && Thin(bl, m, k)
    ensures Weight(bl, m, m) - Weight(bl, k, m) <= 2 * (Pow2(m - k) - 1)
    decreases m - k
  {
    hide Weight;
    if k < m {
      WeightNext(bl, k, m);
      if bl[k] == 2 {
        NoneFrom(bl, k + 1, m);
      } else {
        ThinWeight(bl, k + 1, m);
      }
    }
  }

  lemma {:induction false} WeightRises(bl: seq<nat>, k: nat, m: nat)
    requires k <= m < |bl|
    ensures Weight(bl, k, m) <= Weight(bl, m, m)
    decreases m - k
  {
    hide Weight, Pow2;
    if k < m {
      WeightNext(bl, k, m);
      WeightRises(bl, k + 1, m);
    }
  }

  /** At the first difference, fewer codes mean less weight, if those after it are thin. */
  lemma LessWeight(x: seq<nat>, y: seq<nat>, m: nat, n: nat)
    requires n < m < |x| == |y| && x[..n] == y[..n] && x[n] < y[n] && Thin(x, m, n + 1)
    ensures Weight(x, m, m) < Weight(y, m, m)
  {
    hide Weight, Thin;
    SamePrefix(x, y, n, m);
    WeightNext(x, n, m);
    WeightNext(y, n, m);
    ThinWeight(x, n + 1, m);
    WeightRises(y, n + 1, m);
    assert Pow2(m - n) == 2 * Pow2(m - (n + 1));
    var w := Pow2(m - n) - 1;
    Distribute(x[n], 1, w);
    MoreTimes(x[n] + 1, y[n], w);
  }

  lemma MoreTimes(a: nat, b: nat, w: nat)
    requires a <= b
    ensures a * w <= b * w
  {
  }

  /** A level where one outcome has fewer codes than the other cannot be the first difference. */
  lemma NotFewer(was: seq<nat>, x: seq<nat>, y: seq<nat>, m: nat, n: nat)
    requires Deepened(was, x, m) && Deepened(was, y, m) && n < m && x[..n] == y[..n] && x[n] < y[n]
    ensures Weight(x, m, m) < Weight(y, m, m)
  {
    hide Weight;
    var d: nat :| DeepenedAt(was, x, m, d);
    var e: nat :| DeepenedAt(was, y, m, e);
    assert e < n ==> x[e] == x[..n][e] == y[..n][e] == y[e];
    LessWeight(x, y, m, n);
  }

  lemma {:induction false} SameTo(was: seq<nat>, x: seq<nat>, y: seq<nat>, m: nat, n: nat)
    requires Deepened(was, x, m) && Deepened(was, y, m) && n <= m && Weight(x, m, m) == Weight(y, m, m)
    ensures x[..n] == y[..n]
  {
    hide Weight;
    if n > 0 {
      SameTo(was, x, y, m, n - 1);
      if x[n - 1] < y[n - 1] {
        NotFewer(was, x, y, m, n - 1);
      } else if y[n - 1] < x[n - 1] {
        NotFewer(was, y, x, m, n - 1);
      }
      assert x[..n] == x[..n - 1] + [x[n - 1]] && y[..n] == y[..n - 1] + [y[n - 1]];
    }
  }

  /** The repaired distribution is the only one with as many codes and the same Kraft sum. */
  lemma OneOutcome(was: seq<nat>, x: seq<nat>, y: seq<nat>, m: nat)
    requires Deepened(was, x, m) && Deepened(was, y, m)
    requires TotalCount(x, m + 1) == TotalCount(y, m + 1) && KraftCounts(x, m + 1, m) == KraftCounts(y, m + 1, m)
    ensures x[..m + 1] == y[..m + 1]
  {
    hide Deepened;
    DeepenedLengths(was, x, m);
    DeepenedLengths(was, y, m);
    WeightNext(x, m, m);
    WeightNext(y, m, m);
    SameTo(was, x, y, m, m);
    SamePrefix(x, y, m, m);
    assert x[..m + 1] == x[..m] + [x[m]] && y[..m + 1] == y[..m] + [y[m]];
  }

  lemma DeepenedLengths(was: seq<nat>, bl: seq<nat>, m: nat)
    requires Deepened(was, bl, m)
    ensures 1 < m < |bl| == |was|
  {
  }
}
