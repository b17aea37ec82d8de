/** The fixed codes as ct_init sets them up (archival/gzip.c; section 3.2.6 of RFC 1951). */
module StaticTrees {
  import opened Words
  import opened CodeCounts
  import opened Bits
  import opened Canonical
  import opened Tables
  import opened Inflate
  import opened GenCodes
  import opened TreeOutput

  function Clamp(x: int, hi: nat): nat {
    if x < 0 then 0 else if x < hi then x else hi
  }

  /** How many of the first n fixed literal and length codes have b bits. */
  lemma {:induction false} FixedCount(n: nat, b: nat)
    requires n <= 288
    ensures CountTo(FixedL(), n, b) == if b == 7 then Clamp(n - 256, 24)
                                       else if b == 8 then Clamp(n, 144) + Clamp(n - 280, 8)
                                       else if b == 9 then Clamp(n - 144, 112) else 0
  {
    if n > 0 {
      FixedCount(n - 1, b);
    }
  }

  lemma {:induction false} FixedDistCount(n: nat, b: nat)
    requires n <= D_CODES
    ensures CountTo(FixedD(), n, b) == if b == 5 then n else 0
  {
    if n > 0 {
      FixedDistCount(n - 1, b);
    }
  }

  lemma {:induction false} NoShortCodes(bl: seq<nat>, k: nat, m: nat)
    requires k <= m + 1 <= |bl| && forall b :: 0 <= b < k ==> bl[b] == 0
    ensures KraftCounts(bl, k, m) == 0
  {
    if k > 0 {
      NoShortCodes(bl, k - 1, m);
    }
  }

  lemma {:induction false} NoLongCodes(bl: seq<nat>, k: nat, n: nat, m: nat)
    requires k <= n <= m + 1 <= |bl| && forall b :: k <= b < n ==> bl[b] == 0
    ensures KraftCounts(bl, n, m) == KraftCounts(bl, k, m)
  {
    if k < n {
      NoLongCodes(bl, k, n - 1, m);
    }
  }

  /** The fixed literal and length code is complete. */
  lemma FixedLIsCode()
    ensures IsCode(FixedL()) && IsFull(FixedL())
  {
    hide LenCounts, Pow2, CountTo;
    var bl := LenCounts(FixedL());
    forall b | 1 <= b <= MAX_BITS
      ensures bl[b] == if b == 7 then 24 else if b == 8 then 152 else if b == 9 then 112 else 0
    {
      FixedCount(288, b);
    }
    NoShortCodes(bl, 7, MAX_BITS);
    SmallPowers();
    Pow2Of15();
    assert KraftCounts(bl, 8, MAX_BITS) == KraftCounts(bl, 7, MAX_BITS) + bl[7] * Pow2(8);
    assert KraftCounts(bl, 9, MAX_BITS) == KraftCounts(bl, 8, MAX_BITS) + bl[8] * Pow2(7);
    assert KraftCounts(bl, 10, MAX_BITS) == KraftCounts(bl, 9, MAX_BITS) + bl[9] * Pow2(6);
    NoLongCodes(bl, 10, MAX_BITS + 1, MAX_BITS);
  }

  lemma FixedDIsCode()
    ensures IsCode(FixedD())
  {
    hide LenCounts, Pow2, CountTo;
    var bl := LenCounts(FixedD());
    forall b | 1 <= b <= MAX_BITS
      ensures bl[b] == if b == 5 then D_CODES else 0
    {
      FixedDistCount(D_CODES, b);
    }
    NoShortCodes(bl, 5, MAX_BITS);
    SmallPowers();
    Pow2Of15();
    assert KraftCounts(bl, 6, MAX_BITS) == KraftCounts(bl, 5, MAX_BITS) + bl[5] * Pow2(10);
    NoLongCodes(bl, 6, MAX_BITS + 1, MAX_BITS);
  }

  /** Each fixed distance code is its symbol in five bits. */
  lemma FixedDistCanon(n: nat)
    requires n < D_CODES
    ensures HasCode(FixedD(), n) && Canon(FixedD(), n) == n
  {
    hide LenCounts, CountTo;
    var bl := LenCounts(FixedD());
    forall b | 1 <= b <= 4
      ensures bl[b] == 0
    {
      FixedDistCount(D_CODES, b);
    }
    FixedDistCount(n, 5);
    assert First(bl, 2) == 0;
    assert First(bl, 4) == 0;
  }

  method FillStatic(sLen: array<nat>, blCount: array<nat>, from: nat, to: nat, bits: nat)
    requires sLen != blCount && sLen.Length == 288 && blCount.Length == MAX_BITS + 1 && from <= to <= 288
    requires bits <= MAX_BITS && forall i :: from <= i < to ==> FixedL()[i] == bits
    requires forall i :: 0 <= i < from ==> sLen[i] == FixedL()[i]
    requires forall b :: 0 <= b <= MAX_BITS ==> blCount[b] == CountTo(FixedL(), from, b)
    modifies sLen, blCount
    ensures forall i :: 0 <= i < to ==> sLen[i] == FixedL()[i]
    ensures forall b :: 0 <= b <= MAX_BITS ==> blCount[b] == CountTo(FixedL(), to, b)
  {
    hide FixedL;
    var n := from;
    while n < to
      invariant from <= n <= to
      invariant forall i :: 0 <= i < n ==> sLen[i] == FixedL()[i]
      invariant forall b :: 0 <= b <= MAX_BITS ==> blCount[b] == CountTo(FixedL(), n, b)
    {
      sLen[n] := bits;
      n := n + 1;
      blCount[bits] := blCount[bits] + 1;
    }
  }

  /** The part of ct_init that builds the static literal tree. */
  method InitStaticL(sLen: array<nat>, sCode: array<nat>, blCount: array<nat>)
    requires sLen != sCode && sLen != blCount && sCode != blCount
    requires sLen.Length == 288 && sCode.Length == 288 && blCount.Length == MAX_BITS + 1
    modifies sLen, sCode, blCount
    ensures TreeIn(sLen[..], sCode[..], FixedL())
  {
    hide CountTo, IsCode, CodesSet;
    for bits := 0 to MAX_BITS + 1
      invariant forall b :: 0 <= b < bits ==> blCount[b] == 0
    {
      blCount[bits] := 0;
    }
    NoneCounted();
    FillStatic(sLen, blCount, 0, 144, 8);
    FillStatic(sLen, blCount, 144, 256, 9);
    FillStatic(sLen, blCount, 256, 280, 7);
    FillStatic(sLen, blCount, 280, 288, 8);
    FixedLIsCode();
    FixedCount(288, 0);
    assert sLen[..288] == FixedL() && sLen[..] == sLen[..288];
    assert blCount[..] == LenCounts(FixedL());
    GenCodes.GenCodes(sLen, sCode, blCount, 287, 288);
  }

  lemma NoneCounted()
    ensures forall b :: 0 <= b ==> CountTo(FixedL(), 0, b) == 0
  {
  }

  /** The part of ct_init that builds the static distance tree. */
  method InitStaticD(sLen: array<nat>, sCode: array<nat>)
    requires sLen != sCode && sLen.Length == D_CODES && sCode.Length == D_CODES
    modifies sLen, sCode
    ensures TreeIn(sLen[..], sCode[..], FixedD())
  {
    hide Canon, IsCode, Rev;
    for n := 0 to D_CODES
      invariant forall i :: 0 <= i < n ==> sLen[i] == 5
      invariant CodesSet(sCode[..], FixedD(), n)
    {
      FixedDistCanon(n);
      sLen[n] := 5;
      var r := BiReverse(n, 5);
      sCode[n] := r;
    }
    FixedDIsCode();
    assert sLen[..] == FixedD();
  }
}
