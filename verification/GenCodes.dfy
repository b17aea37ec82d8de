/** Code values from code lengths (archival/gzip.c, gen_codes). */
module GenCodes {
  import opened Words
  import opened Sums
  import opened CodeCounts
  import opened Bits
  import opened Canonical
  import opened HuffmanGrow
  import opened CodeLengths

  const USHORT := 0x1_0000

  /** code holds the canonical code of every symbol that has one, with its bits reversed. */
  ghost predicate CodesSet(code: seq<nat>, lens: seq<nat>, n: nat) {
    n <= |lens| <= |code| && forall k :: 0 <= k < n && HasCode(lens, k) ==> code[k] == Rev(Canon(lens, k), lens[k])
  }

  /** The first codes of each length fit 16 bits. */
  lemma FirstFits(lens: seq<nat>, b: nat)
    requires IsCode(lens) && b <= MAX_BITS
    ensures First(LenCounts(lens), b) <= Pow2(b) <= Pow2(MAX_BITS) < USHORT
  {
    hide LenCounts, First, KraftCounts, Pow2;
    var bl, u := LenCounts(lens), Pow2(MAX_BITS - b);
    FirstIsKraft(bl, b, MAX_BITS);
    KraftMonotone(bl, b, MAX_BITS + 1, MAX_BITS);
    Pow2Add(b, MAX_BITS - b);
    CancelFactor(First(bl, b), Pow2(b), u);
    Pow2Monotone(b, MAX_BITS);
    Pow2Of15();
  }

  lemma Pow2Of15()
    ensures Pow2(MAX_BITS) == 32768
  {
    assert Pow2(5) == 32;
    Pow2Add(5, 5);
    Pow2Add(10, 5);
  }

  /** The next code of each length after n symbols. */
  ghost predicate NextCodes(next: seq<nat>, lens: seq<nat>, n: nat) {
    && |next| == MAX_BITS + 1 && n <= |lens|
    && forall b :: 1 <= b <= MAX_BITS ==> next[b] == First(LenCounts(lens), b) + CountTo(lens, n, b)
  }

  lemma NextSymbol(next: seq<nat>, lens: seq<nat>, n: nat)
    requires IsCode(lens) && n < |lens| && NextCodes(next, lens, n)
    ensures lens[n] == 0 ==> NextCodes(next, lens, n + 1)
    ensures lens[n] != 0 ==> HasCode(lens, n) && next[lens[n]] == Canon(lens, n) && next[lens[n]] + 1 < USHORT
                             && NextCodes(next[lens[n] := next[lens[n]] + 1], lens, n + 1)
  {
    hide LenCounts, First, KraftCounts, Pow2;
    if lens[n] != 0 {
      CanonFits(lens, n);
      FirstFits(lens, lens[n]);
    }
  }

  method FirstCodes(blCount: array<nat>, ghost lens: seq<nat>) returns (nextCode: array<nat>)
    requires IsCode(lens) && blCount[..] == LenCounts(lens)
    ensures fresh(nextCode) && NextCodes(nextCode[..], lens, 0)
  {
    hide LenCounts, KraftCounts, IsCode, Pow2;
    nextCode := new nat[MAX_BITS + 1];
    var code: nat := 0;
    for bits := 1 to MAX_BITS + 1
      invariant code == First(blCount[..], bits - 1)
      invariant forall b :: 1 <= b < bits ==> nextCode[b] == First(blCount[..], b)
    {
      FirstFits(lens, bits);
      code := ((code + blCount[bits - 1]) * 2) % USHORT;
      nextCode[bits] := code;
    }
  }

  method GenCodes(dl: array<nat>, code: array<nat>, blCount: array<nat>, maxCode: int, elems: nat)
    requires code != dl && code != blCount && elems <= dl.Length && elems <= code.Length && maxCode < elems
    requires IsCode(dl[..elems]) && blCount[..] == LenCounts(dl[..elems])
    requires forall n :: 0 <= n < elems && maxCode < n ==> dl[n] == 0
    modifies code
    ensures CodesSet(code[..], dl[..elems], elems)
  {
    hide LenCounts, Canon, NextCodes, IsCode;
    ghost var lens := dl[..elems];
    var nextCode := FirstCodes(blCount, lens);
    var n: nat := 0;
    NextShape(nextCode[..], lens, 0);
    while n <= maxCode
      invariant n <= elems && NextCodes(nextCode[..], lens, n) && CodesSet(code[..], lens, n)
      invariant nextCode.Length == MAX_BITS + 1
    {
      NextSymbol(nextCode[..], lens, n);
      var len := dl[n];
      assert len == lens[n];
      if len != 0 {
        var c := BiReverse(nextCode[len], len);
        ghost var next := nextCode[..];
        nextCode[len] := (nextCode[len] + 1) % USHORT;
        assert nextCode[..] == next[len := next[len] + 1];
        code[n] := c;
      }
      n := n + 1;
    }
  }

  lemma NextShape(next: seq<nat>, lens: seq<nat>, n: nat)
    requires NextCodes(next, lens, n)
    ensures |next| == MAX_BITS + 1
  {
  }

  /** The counts of the used symbols are the counts of all lengths. */
  lemma {:induction false} UsedCount(lens: seq<nat>, f: seq<nat>, n: nat, b: nat)
    requires n <= |f| <= |lens| && 0 < b && InTable(UsedTo(f, n), lens)
    requires forall x :: 0 <= x < |f| && f[x] == 0 ==> lens[x] == 0
    ensures CountLen(lens, UsedTo(f, n), b) == CountTo(lens, n, b)
  {
    hide SumAt;
    if n > 0 {
      UsedBelow(f, n - 1);
      UsedCount(lens, f, n - 1, b);
      if f[n - 1] != 0 {
        SumAppend(LenIs(lens, b), UsedTo(f, n - 1), [n - 1]);
        SumOne(LenIs(lens, b), n - 1);
      }
    } else {
      EmptySums(lens, b);
    }
  }

  /** Counting by a longer maximum only scales the Kraft sum. */
  lemma {:induction false} KraftScaled(bl: seq<nat>, k: nat, m: nat, p: nat)
    requires m <= p < |bl| && k <= p + 1 && forall b :: m < b < |bl| ==> bl[b] == 0
    ensures KraftCounts(bl, k, p) == KraftCounts(bl, if k <= m + 1 then k else m + 1, m) * Pow2(p - m)
  {
    hide Pow2;
    if 0 < k <= m + 1 {
      KraftScaled(bl, k - 1, m, p);
      Pow2Add(m - (k - 1), p - m);
      MulAssoc(bl[k - 1], Pow2(m - (k - 1)), Pow2(p - m));
      Distribute(KraftCounts(bl, k - 1, m), bl[k - 1] * Pow2(m - (k - 1)), Pow2(p - m));
    } else if k > 0 {
      KraftScaled(bl, k - 1, m, p);
    }
  }

  lemma {:induction false} CountPrefix(lens: seq<nat>, k: nat, n: nat, b: nat)
    requires n <= k <= |lens|
    ensures CountTo(lens, n, b) == CountTo(lens[..k], n, b)
  {
    if n > 0 {
      CountPrefix(lens, k, n - 1, b);
    }
  }

  /** The lengths of gen_bitlen are a code, complete, with the counts it leaves behind. */
  lemma LengthsAreCode(lens: seq<nat>, bl: seq<nat>, f: seq<nat>, m: nat)
    requires CodeOk(lens, bl, f, m) && |bl| == MAX_BITS + 1
    ensures IsCode(lens[..|f|]) && bl == LenCounts(lens[..|f|])
    ensures KraftCounts(bl, MAX_BITS + 1, MAX_BITS) == Pow2(MAX_BITS)
  {
    hide UsedTo, KraftCounts, CountLen, KraftAt, Pow2, TotalCount, CountTo;
    var us, l := UsedTo(f, |f|), lens[..|f|];
    CountsSums(bl, lens, us, m);
    KraftScaled(bl, MAX_BITS + 1, m, MAX_BITS);
    Pow2Add(m, MAX_BITS - m);
    forall b | 1 <= b <= MAX_BITS
      ensures bl[b] == LenCounts(l)[b]
    {
      UsedCount(lens, f, |f|, b);
      CountPrefix(lens, |f|, |f|, b);
      if b > m {
        NoneLonger(l, |f|, b, m);
      }
    }
    assert bl == LenCounts(l);
  }

  lemma {:induction false} NoneLonger(lens: seq<nat>, n: nat, b: nat, m: nat)
    requires n <= |lens| && m < b && forall k :: 0 <= k < |lens| ==> lens[k] <= m
    ensures CountTo(lens, n, b) == 0
  {
    if n > 0 {
      NoneLonger(lens, n - 1, b, m);
    }
  }
}
