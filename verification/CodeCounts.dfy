/**
 Code lengths and their distribution (archival/gzip.c, bl_count): the Kraft sum and the number
 of codes, seen on the symbols and on the counts.
 */
module CodeCounts {
  import opened Words
  import opened Sums

  /** 1 for every symbol with a code of b bits. */
  function LenIs(lens: seq<nat>, b: nat): (r: seq<int>)
    ensures |r| == |lens| && forall i :: 0 <= i < |lens| ==> r[i] == if lens[i] == b then 1 else 0
  {
    seq(|lens|, i requires 0 <= i < |lens| => if lens[i] == b then 1 else 0)
  }

  /** The part of each symbol in the Kraft sum, in units of 2^-m. */
  function KraftTable(lens: seq<nat>, m: nat): (r: seq<int>)
    ensures |r| == |lens| && forall i :: 0 <= i < |lens| ==> r[i] == if lens[i] <= m then Pow2(m - lens[i]) else 0
  {
    seq(|lens|, i requires 0 <= i < |lens| => if lens[i] <= m then Pow2(m - lens[i]) else 0)
  }

  /** How many of the listed symbols have a code of b bits. */
  function CountLen(lens: seq<nat>, us: seq<nat>, b: nat): int
    requires InTable(us, lens)
  {
    SumAt(LenIs(lens, b), us)
  }

  /** The Kraft sum of the listed symbols in units of 2^-m. */
  function KraftAt(lens: seq<nat>, us: seq<nat>, m: nat): int
    requires InTable(us, lens)
  {
    SumAt(KraftTable(lens, m), us)
  }

  /** The Kraft sum of codes with fewer than k bits, from their counts. */
  function KraftCounts(bl: seq<nat>, k: nat, m: nat): nat
    requires k <= |bl| && k <= m + 1
  {
    if k == 0 then 0 else KraftCounts(bl, k - 1, m) + bl[k - 1] * Pow2(m - (k - 1))
  }

  function TotalCount(bl: seq<nat>, k: nat): nat
    requires k <= |bl|
  {
    if k == 0 then 0 else TotalCount(bl, k - 1) + bl[k - 1]
  }

  lemma {:induction false} TotalUpdate(bl: seq<nat>, k: nat, b: nat, v: nat)
    requires k <= |bl| && b < |bl|
    ensures TotalCount(bl[b := v], k) == TotalCount(bl, k) + (if b < k then v - bl[b] else 0)
  {
    if k > 0 {
      TotalUpdate(bl, k - 1, b, v);
    }
  }

  lemma {:induction false} KraftUpdate(bl: seq<nat>, k: nat, m: nat, b: nat, v: nat)
    requires k <= |bl| && k <= m + 1 && b < |bl|
    ensures KraftCounts(bl[b := v], k, m) ==
            KraftCounts(bl, k, m) + (if b < k then v * Pow2(m - b) - bl[b] * Pow2(m - b) else 0)
  {
    hide Pow2;
    if k > 0 {
      KraftUpdate(bl, k - 1, m, b, v);
    }
  }

  /** With no code shorter than m bits, the Kraft sum is the number of codes. */
  lemma {:induction false} KraftAllLongest(bl: seq<nat>, k: nat, m: nat)
    requires k <= m < |bl| && forall b :: 0 <= b < k ==> bl[b] == 0
    ensures KraftCounts(bl, k, m) == 0 && TotalCount(bl, k) == 0
  {
    if k > 0 {
      KraftAllLongest(bl, k - 1, m);
    }
  }

  /** bl counts the listed symbols by length, up to m bits. */
  ghost predicate Counts(bl: seq<nat>, lens: seq<nat>, us: seq<nat>, m: nat) {
    && m < |bl| && InTable(us, lens) && (forall i :: 0 <= i < |us| ==> lens[us[i]] <= m)
    && forall b :: 0 <= b <= m ==> bl[b] == CountLen(lens, us, b)
  }

  lemma CountCons(lens: seq<nat>, us: seq<nat>, b: nat)
    requires us != [] && InTable(us, lens)
    ensures CountLen(lens, us, b) == (if lens[us[0]] == b then 1 else 0) + CountLen(lens, us[1..], b)
  {
  }

  lemma KraftCons(lens: seq<nat>, us: seq<nat>, m: nat)
    requires us != [] && InTable(us, lens) && lens[us[0]] <= m
    ensures KraftAt(lens, us, m) == Pow2(m - lens[us[0]]) + KraftAt(lens, us[1..], m)
  {
  }

  lemma CountNonNegative(lens: seq<nat>, us: seq<nat>, b: nat)
    requires InTable(us, lens)
    ensures 0 <= CountLen(lens, us, b)
  {
    if us != [] {
      CountCons(lens, us, b);
      CountNonNegative(lens, us[1..], b);
    }
  }

  lemma {:induction false} NoCounts(bl: seq<nat>, k: nat, m: nat)
    requires k <= m + 1 <= |bl| && forall b :: 0 <= b <= m ==> bl[b] == 0
    ensures KraftCounts(bl, k, m) == 0 && TotalCount(bl, k) == 0
  {
    if k > 0 {
      NoCounts(bl, k - 1, m);
    }
  }

  /** The sums seen on the counts are the sums seen on the symbols. */
  lemma {:induction false} CountsSums(bl: seq<nat>, lens: seq<nat>, us: seq<nat>, m: nat)
    requires Counts(bl, lens, us, m)
    ensures KraftCounts(bl, m + 1, m) == KraftAt(lens, us, m) && TotalCount(bl, m + 1) == |us|
    decreases |us|
  {
    hide KraftCounts, TotalCount, CountLen, KraftAt;
    if us == [] {
      EmptySums(lens, m);
      NoCounts(bl, m + 1, m);
    } else {
      var l := lens[us[0]];
      CountCons(lens, us, l);
      CountNonNegative(lens, us[1..], l);
      var bl' := bl[l := bl[l] - 1];
      forall b | 0 <= b <= m
        ensures bl'[b] == CountLen(lens, us[1..], b)
      {
        CountCons(lens, us, b);
      }
      CountsSums(bl', lens, us[1..], m);
      KraftUpdate(bl, m + 1, m, l, bl[l] - 1);
      TotalUpdate(bl, m + 1, l, bl[l] - 1);
      Distribute(bl[l] - 1, 1, Pow2(m - l));
      KraftCons(lens, us, m);
    }
  }

  lemma EmptySums(lens: seq<nat>, m: nat)
    ensures KraftAt(lens, [], m) == 0 && forall b :: 0 <= b ==> CountLen(lens, [], b) == 0
  {
  }
}
