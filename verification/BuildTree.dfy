/**
 One Huffman tree from beginning to end (archival/gzip.c, build_tree): lengths and codes for
 the symbols, and the bits they add to the block.
 */
module BuildTree {
  import opened Words
  import opened Sums
  import opened CodeCounts
  import opened HuffmanTree
  import opened HuffmanGrow
  import opened HuffmanBuild
  import opened TreeLengths
  import opened BitLengths
  import opened HuffmanDepth
  import opened LengthOrder
  import opened CodeLengths
  import opened LimitedCodes
  import opened Canonical
  import opened GenCodes

  /** The bits of a message in which symbol i occurs f[i] times, for the first n symbols. */
  function BitsTo(f: seq<nat>, lens: seq<nat>, extra: seq<nat>, n: nat): int
    requires n <= |f| && n <= |lens| && n <= |extra|
  {
    if n == 0 then 0 else BitsTo(f, lens, extra, n - 1) + f[n - 1] * (lens[n - 1] + extra[n - 1])
  }

  lemma {:induction false} BitsUsed(f: seq<nat>, lens: seq<nat>, extra: seq<nat>, n: nat)
    requires n <= |f| <= |lens| && |f| == |extra|
    ensures InTable(UsedTo(f, n), f) && SumAt(BlockCost(f, lens, extra), UsedTo(f, n)) == BitsTo(f, lens, extra, n)
  {
    hide SumAt;
    UsedBelow(f, n);
    if n > 0 {
      BitsUsed(f, lens, extra, n - 1);
      if f[n - 1] != 0 {
        SumSnoc(BlockCost(f, lens, extra), UsedTo(f, n - 1), n - 1);
      }
    } else {
      SumNone(BlockCost(f, lens, extra));
    }
  }

  lemma SumNone(table: seq<int>)
    ensures SumAt(table, []) == 0
  {
  }

  /** Raising one frequency adds the bits of the symbol once for each occurrence. */
  lemma {:induction false} BitsMore(f: seq<nat>, lens: seq<nat>, extra: seq<nat>, n: nat, x: nat, v: nat)
    requires n <= |f| && n <= |lens| && n <= |extra| && x < |f|
    ensures BitsTo(f[x := v], lens, extra, n) ==
            BitsTo(f, lens, extra, n) + (if x < n then v * (lens[x] + extra[x]) - f[x] * (lens[x] + extra[x]) else 0)
  {
    if n > 0 {
      BitsMore(f, lens, extra, n - 1, x, v);
    }
  }

  lemma {:induction false} BitsPrefix(f: seq<nat>, lens: seq<nat>, extra: seq<nat>, k: nat, n: nat)
    requires n <= k <= |lens| && n <= |f| && n <= |extra|
    ensures BitsTo(f, lens[..k], extra, n) == BitsTo(f, lens, extra, n)
  {
    if n > 0 {
      BitsPrefix(f, lens, extra, k, n - 1);
    }
  }

  /** The lengths of the listed symbols. */
  function LengthsOf(lens: seq<nat>, xs: seq<nat>): int
    requires InTable(xs, lens)
  {
    if xs == [] then 0 else LengthsOf(lens, xs[..|xs| - 1]) + lens[xs[|xs| - 1]]
  }

  /** Forced symbols count with one occurrence each. */
  lemma ForcedBits(f: seq<nat>, g: seq<nat>, xs: seq<nat>, lens: seq<nat>, extra: seq<nat>)
    requires ForcedFrom(f, g, xs) && |f| <= |lens| && |f| == |extra|
    requires forall x :: 0 <= x < 3 && x < |extra| ==> extra[x] == 0
    ensures InTable(xs, lens) && BitsTo(g, lens, extra, |f|) == BitsTo(f, lens, extra, |f|) + LengthsOf(lens, xs)
    decreases |xs|
  {
    hide BitsTo, ForcedFrom;
    ForcedRange(f, g, xs);
    if xs != [] {
      var k := |xs| - 1;
      var x := xs[k];
      ForcedLess(f, g, xs);
      ForcedBits(f, g[x := 0], xs[..k], lens, extra);
      BitsMore(g[x := 0], lens, extra, |f|, x, 1);
      assert g[x := 0][x := 1] == g;
    }
  }

  lemma ForcedRange(f: seq<nat>, g: seq<nat>, xs: seq<nat>)
    requires ForcedFrom(f, g, xs)
    ensures |f| == |g| && InTable(xs, f) && (xs == [] ==> f == g)
  {
  }

  lemma ForcedLess(f: seq<nat>, g: seq<nat>, xs: seq<nat>)
    requires ForcedFrom(f, g, xs) && xs != []
    ensures var x := xs[|xs| - 1]; x < |g| && x < 3 && g[x] == 1 && ForcedFrom(f, g[x := 0], xs[..|xs| - 1])
  {
    assert xs == xs[..|xs| - 1] + [xs[|xs| - 1]];
  }

  /** Two codes that fill the code space have one bit each. */
  lemma TwoCodes(lens: seq<nat>, us: seq<nat>, m: nat)
    requires |us| == 2 && InTable(us, lens) && forall i :: 0 <= i < 2 ==> 1 <= lens[us[i]] <= m
    requires KraftAt(lens, us, m) == Pow2(m)
    ensures lens[us[0]] == 1 && lens[us[1]] == 1
  {
    hide KraftAt, Pow2;
    KraftCons(lens, us, m);
    KraftCons(lens, us[1..], m);
    EmptySums(lens, m);
    assert us[1..][1..] == [];
    TwoHalves(m - lens[us[0]], m - lens[us[1]], m);
  }

  lemma TwoHalves(a: nat, b: nat, m: nat)
    requires a < m && b < m && Pow2(a) + Pow2(b) == Pow2(m)
    ensures a == b == m - 1
  {
    hide Pow2;
    Pow2Less(a, m);
    Pow2Less(b, m);
    HalfIs(a, m);
    HalfIs(b, m);
  }

  lemma HalfIs(a: nat, m: nat)
    requires 2 * Pow2(a) == Pow2(m) && a < m
    ensures a == m - 1
  {
    hide Pow2;
    Pow2Less(m - 1, m);
    if a < m - 1 {
      Pow2Less(a, m - 1);
    }
  }

  lemma Pow2Less(a: nat, b: nat)
    requires a < b
    ensures 2 * Pow2(a) <= Pow2(b)
  {
    Pow2Monotone(a + 1, b);
  }

  lemma {:induction false} OneBitEach(lens: seq<nat>, xs: seq<nat>)
    requires InTable(xs, lens) && forall i :: 0 <= i < |xs| ==> lens[xs[i]] == 1
    ensures LengthsOf(lens, xs) == |xs|
  {
    if xs != [] {
      OneBitEach(lens, xs[..|xs| - 1]);
    }
  }

  /** Forcing a symbol takes off opt_len exactly what its one-bit code puts on. */
  lemma ForcedOneBit(f: seq<nat>, g: seq<nat>, xs: seq<nat>, lens: seq<nat>, bl: seq<nat>, m: nat)
    requires ForcedFrom(f, g, xs) && CodeOk(lens, bl, g, m) && (xs != [] ==> |UsedTo(g, |g|)| == 2)
    ensures InTable(xs, lens) && LengthsOf(lens, xs) == |xs| && forall i :: 0 <= i < |xs| ==> lens[xs[i]] == 1
  {
    hide KraftAt, CountLen, LengthsOf;
    var us := UsedTo(g, |g|);
    if xs != [] {
      hide UsedTo;
      UsedBelow(g, |g|);
      TwoCodes(lens, us, m);
      forall i | 0 <= i < |xs|
        ensures lens[xs[i]] == 1
      {
        UsedIff(g, xs[i]);
      }
    }
    OneBitEach(lens, xs);
  }

  /**
   With two symbols or more no prefix code makes the message shorter, if and only if some code with lengths
   up to m is like that; with fewer than Fib(m + 3) occurrences one always is.
   */
  ghost predicate Best(f: seq<nat>, lens: seq<nat>, m: nat) {
    2 <= |UsedTo(f, |f|)| ==>
      && (Total(f, |f|) < Fib(258) ==> (Optimal(f, lens) <==> OptimalWithin(f, m)))
      && (Total(f, |f|) < Fib(m + 3) ==> Optimal(f, lens))
  }

  /** A symbol that does not occur has no code, or one of one bit if fewer than two symbols occur. */
  ghost predicate Spare(f: seq<nat>, lens: seq<nat>) {
    |f| == |lens| && forall x :: 0 <= x < |f| && f[x] == 0 && lens[x] != 0 ==> lens[x] == 1 && |UsedTo(f, |f|)| < 2
  }

  /** What build_tree leaves in lens and code for the frequencies f. */
  ghost predicate TreeReady(lens: seq<nat>, code: seq<nat>, f: seq<nat>, m: nat, maxCode: int) {
    && |lens| == |f| && IsCode(lens) && IsFull(lens) && CodesSet(code, lens, |lens|)
    && (forall x :: 0 <= x < |f| ==> lens[x] <= m && (f[x] != 0 ==> 1 <= lens[x]))
    && Monotone(f, lens) && Best(f, lens, m) && Spare(f, lens)
    && 0 <= maxCode < |f| && lens[maxCode] != 0 && forall x :: maxCode < x < |f| ==> lens[x] == 0
  }

  /** t is a Huffman tree for the frequencies. */
  ghost predicate HuffmanFor(t: Tree, f: seq<nat>) {
    Numbered(t, |f|) && Heavy(t, f) && multiset(Leaves(t)) == multiset(UsedTo(f, |f|)) && Needed(t, f)
  }

  lemma HuffmanParts(t: Tree, f: seq<nat>, dad: seq<nat>, ord: seq<nat>)
    requires TreeBuilt(t, f, dad, ord)
    ensures HuffmanFor(t, f)
  {
    hide Numbered, Heavy, Leaves, UsedTo, Proper, Linked, NoDup, InnerCost, Needed;
    HeightIsNeeded(t, f, dad, ord);
  }

  /** Without forced symbols the lengths are optimal whenever the limit allows it. */
  lemma IsBest(f: seq<nat>, g: seq<nat>, xs: seq<nat>, t: Tree, m: nat, lens: seq<nat>, bl: seq<nat>)
    requires ForcedFrom(f, g, xs) && HuffmanFor(t, g) && CodeOk(lens, bl, g, m) && |f| <= |lens|
    requires Over(t, 0, m) == 0 ==> Optimal(g, lens)
    requires xs != [] ==> |UsedTo(f, |f|)| < 2
    ensures Best(f, lens[..|f|], m)
  {
    hide Numbered, Heavy, Leaves, UsedTo, Over, Optimal, OptimalWithin, Total, Fib, CodeOk, Height;
    if xs == [] {
      assert f == g;
      OptimalPrefix(f, lens);
      if Total(f, |f|) < Fib(m + 3) {
        ShortNeedsNoRepair(t, g, m);
      }
      if Optimal(f, lens) {
        LimitKept(f, lens, bl, m);
      }
      if Total(f, |f|) < Fib(258) && OptimalWithin(f, m) {
        FitsByte(t, f);
        NotTooDeep(t, 0, m);
      }
    }
  }

  lemma LimitKept(f: seq<nat>, lens: seq<nat>, bl: seq<nat>, m: nat)
    requires CodeOk(lens, bl, f, m) && Optimal(f, lens)
    ensures OptimalWithin(f, m)
  {
    hide UsedTo, KraftAt, Optimal, CountLen, Pow2;
    UsedBelow(f, |f|);
    assert AtMost(lens, UsedTo(f, |f|), m);
  }

  lemma OptimalPrefix(f: seq<nat>, lens: seq<nat>)
    requires |f| <= |lens|
    ensures Optimal(f, lens) <==> Optimal(f, lens[..|f|])
  {
    hide UsedTo, SumAt, KraftAt, Pow2;
    assert Weighted(f, lens[..|f|]) == Weighted(f, lens);
  }

  /** build_tree; the results are what it adds to opt_len and static_len. */
  method BuildTree(b: Builder, code: array<nat>, blCount: array<nat>, m: nat, extra: seq<nat>, slens: seq<nat>)
    returns (opt: int, stat: int)
    requires b.Shape() && 3 <= b.elems <= code.Length && b.elems < Pow2(m) && 0 < m <= MAX_BITS
    requires blCount.Length == MAX_BITS + 1 && |extra| == b.elems && (slens == [] || b.elems <= |slens|)
    requires forall x :: 0 <= x < 3 ==> extra[x] == 0
    requires blCount != b.heap && blCount != b.freq && blCount != b.dl && blCount != b.depth
    requires code != blCount && code != b.heap && code != b.freq && code != b.dl && code != b.depth
    modifies b.freq, b.dl, b.depth, b.heap, b`heapLen, b`heapMax, b`maxCode, code, blCount
    ensures TreeReady(b.dl[..b.elems], code[..], old(b.freq[..b.elems]), m, b.maxCode)
    ensures opt == BitsTo(old(b.freq[..b.elems]), b.dl[..b.elems], extra, b.elems)
    ensures stat == if slens == [] then 0 else BitsTo(old(b.freq[..b.elems]), slens, extra, b.elems)
  {
    hide TreeReady, IsCode, CodesSet, LenCounts, KraftCounts, CodeOk, TreeBuilt, MaxCodeOk, Optimal, UsedTo, ForcedFrom,
         BitsTo, LengthsOf, MessageBits, StaticBits, Over, Descends, Monotone, HuffmanFor, Best, Spare;
    ghost var f := b.freq[..b.elems];
    var forced;
    ghost var t;
    t, forced := b.Construct();
    ghost var g := b.freq[..b.elems];
    HuffmanParts(t, g, b.dl[..], b.heap[..][b.heapMax..]);
    opt, stat := GenBitlen(b, blCount, m, extra, slens, t);
    LengthsAreCode(b.dl[..], blCount[..], g, m);
    MaxCodeRange(g, b.maxCode);
    Beyond(g, b.dl[..], blCount[..], m, b.maxCode);
    GenCodes.GenCodes(b.dl, code, blCount, b.maxCode, b.elems);
    IsBest(f, g, forced, t, m, b.dl[..], blCount[..]);
    TreeIsReady(f, g, forced, b.dl[..], blCount[..], code[..], m, b.maxCode);
    OptIsBits(f, g, forced, b.dl[..], blCount[..], m, extra, opt);
    StaticIsBits(f, g, forced, slens, extra, stat);
    opt, stat := TakeForced(forced, slens, opt, stat);
  }

  /** The symbols that were forced do not count in the block. */
  method TakeForced(forced: seq<nat>, slens: seq<nat>, optLen: int, staticLen: int) returns (opt: int, stat: int)
    requires slens != [] ==> InTable(forced, slens)
    ensures opt == optLen - |forced|
    ensures stat == if slens == [] then staticLen else staticLen - LengthsOf(slens, forced)
  {
    opt, stat := optLen, staticLen;
    for i := 0 to |forced|
      invariant opt == optLen - i
      invariant stat == if slens == [] then staticLen else staticLen - LengthsOf(slens, forced[..i])
    {
      opt := opt - 1;
      if slens != [] {
        stat := stat - slens[forced[i]];
        assert forced[..i + 1][..i] == forced[..i];
      }
    }
    assert forced[..|forced|] == forced;
  }

  lemma MessageIs(f: seq<nat>, lens: seq<nat>, extra: seq<nat>)
    requires |f| <= |lens| && |f| == |extra|
    ensures MessageBits(f, lens, extra) == BitsTo(f, lens, extra, |f|)
  {
    BitsUsed(f, lens, extra, |f|);
  }

  lemma OptIsBits(f: seq<nat>, g: seq<nat>, xs: seq<nat>, lens: seq<nat>, bl: seq<nat>, m: nat, extra: seq<nat>, opt: int)
    requires |f| == |g| <= |lens| && |f| == |extra| && opt == MessageBits(g, lens, extra)
    requires ForcedFrom(f, g, xs) && CodeOk(lens, bl, g, m) && (xs != [] ==> |UsedTo(g, |g|)| == 2)
    requires forall x :: 0 <= x < 3 && x < |extra| ==> extra[x] == 0
    ensures opt - |xs| == BitsTo(f, lens[..|f|], extra, |f|)
  {
    hide BitsTo, LengthsOf, MessageBits, CodeOk, ForcedFrom, UsedTo;
    ForcedOneBit(f, g, xs, lens, bl, m);
    ForcedBits(f, g, xs, lens, extra);
    MessageIs(g, lens, extra);
    BitsPrefix(f, lens, extra, |f|, |f|);
  }

  lemma StaticIsBits(f: seq<nat>, g: seq<nat>, xs: seq<nat>, slens: seq<nat>, extra: seq<nat>, stat: int)
    requires |f| == |extra| && (slens == [] || |f| <= |slens|)
    requires ForcedFrom(f, g, xs) && StaticBits(stat, g, slens, extra)
    requires forall x :: 0 <= x < 3 && x < |extra| ==> extra[x] == 0
    ensures if slens == [] then stat == 0
            else InTable(xs, slens) && stat - LengthsOf(slens, xs) == BitsTo(f, slens, extra, |f|)
  {
    hide BitsTo, LengthsOf, MessageBits;
    if slens != [] {
      ForcedBits(f, g, xs, slens, extra);
      MessageIs(g, slens, extra);
    }
  }

  /** Above the largest used symbol there are no codes. */
  lemma Beyond(f: seq<nat>, lens: seq<nat>, bl: seq<nat>, m: nat, maxCode: int)
    requires MaxCodeOk(f, maxCode) && CodeOk(lens, bl, f, m)
    ensures |f| <= |lens| && forall x :: 0 <= x < |f| && maxCode < x ==> lens[x] == 0
  {
  }

  lemma TreeIsReady(f: seq<nat>, g: seq<nat>, xs: seq<nat>, lens: seq<nat>, bl: seq<nat>, code: seq<nat>, m: nat,
                    maxCode: int)
    requires ForcedFrom(f, g, xs) && CodeOk(lens, bl, g, m) && MaxCodeOk(g, maxCode)
    requires 2 <= |UsedTo(g, |g|)| && |f| <= |lens| && bl == LenCounts(lens[..|f|])
    requires xs != [] ==> |UsedTo(g, |g|)| == 2 && |UsedTo(f, |f|)| < 2
    requires IsCode(lens[..|f|]) && CodesSet(code, lens[..|f|], |f|) && Monotone(g, lens)
    requires KraftCounts(bl, MAX_BITS + 1, MAX_BITS) == Pow2(MAX_BITS) && Best(f, lens[..|f|], m)
    ensures TreeReady(lens[..|f|], code, f, m, maxCode)
  {
    hide IsCode, CodesSet, LenCounts, KraftCounts, KraftAt, Counts, Pow2, UsedTo, Best, Spare;
    UsedBelow(g, |g|);
    var x := UsedTo(g, |g|)[0];
    assert g[x] != 0 && x <= maxCode;
    forall x | 0 <= x < |f| && f[x] != 0
      ensures g[x] != 0
    {
      assert x !in xs;
    }
    SpareForced(f, g, xs, lens, bl, m);
  }

  lemma SpareForced(f: seq<nat>, g: seq<nat>, xs: seq<nat>, lens: seq<nat>, bl: seq<nat>, m: nat)
    requires ForcedFrom(f, g, xs) && CodeOk(lens, bl, g, m) && |f| <= |lens|
    requires xs != [] ==> |UsedTo(g, |g|)| == 2 && |UsedTo(f, |f|)| < 2
    ensures Spare(f, lens[..|f|])
  {
    hide KraftAt, Counts, Pow2, UsedTo, LengthsOf;
    ForcedOneBit(f, g, xs, lens, bl, m);
    forall x | 0 <= x < |f| && f[x] == 0 && lens[x] != 0
      ensures lens[x] == 1 && |UsedTo(f, |f|)| < 2
    {
      assert x in xs;
      var i :| 0 <= i < |xs| && xs[i] == x;
    }
  }
}
