/**
 Code lengths from a Huffman tree (archival/gzip.c, gen_bitlen): lengths are cut at the
 maximum, the distribution is repaired until it is a code again, and the lengths are dealt out
 anew in order of frequency.
 */
module BitLengths {
  import opened Words
  import opened Sums
  import opened CodeCounts
  import opened Deepening
  import opened HuffmanGrow
  import opened TreeLengths
  import opened LengthPass

  /** One repair keeps the number of codes and takes one unit off the Kraft sum. */
  lemma RepairStep(bl: seq<nat>, m: nat, bits: nat)
    requires 0 < bits < m < |bl| && bl[bits] > 0 && bl[m] > 0
    ensures TotalCount(Repaired(bl, m, bits), m + 1) == TotalCount(bl, m + 1)
    ensures KraftCounts(Repaired(bl, m, bits), m + 1, m) == KraftCounts(bl, m + 1, m) - 1
    ensures Repaired(bl, m, bits)[m] >= bl[m] - 1
  {
    hide KraftCounts, TotalCount;
    var a := bl[bits := bl[bits] - 1];
    var b := a[bits + 1 := a[bits + 1] + 2];
    TotalUpdate(bl, m + 1, bits, bl[bits] - 1);
    TotalUpdate(a, m + 1, bits + 1, a[bits + 1] + 2);
    TotalUpdate(b, m + 1, m, b[m] - 1);
    KraftUpdate(bl, m + 1, m, bits, bl[bits] - 1);
    KraftUpdate(a, m + 1, m, bits + 1, a[bits + 1] + 2);
    KraftUpdate(b, m + 1, m, m, b[m] - 1);
    Distribute(bl[bits] - 1, 1, Pow2(m - bits));
    Distribute(a[bits + 1], 2, Pow2(m - (bits + 1)));
    assert Pow2(m - bits) == 2 * Pow2(m - (bits + 1));
  }

  /** What the overflow count means, and why there is always a leaf to move and an item to move to it. */
  ghost predicate Overfull(bl: seq<nat>, m: nat, overflow: int) {
    && 0 < m < |bl| && bl[0] == 0 && 0 <= overflow
    && 2 * KraftCounts(bl, m + 1, m) == 2 * Pow2(m) + overflow
    && TotalCount(bl, m + 1) < Pow2(m)
    && (overflow > 0 ==> 2 * bl[m] >= overflow + 2)
  }

  /** Some code is shorter than m bits. */
  lemma ShorterExists(bl: seq<nat>, m: nat, overflow: int, k: nat)
    requires Overfull(bl, m, overflow) && k <= m && forall b :: k < b < m ==> bl[b] == 0
    ensures exists b :: 1 <= b <= k && b < m && bl[b] != 0
  {
    if forall b :: 0 <= b < m ==> bl[b] == 0 {
      KraftAllLongest(bl, m, m);
    }
  }

  /** The loop that repairs the counts: as many codes as before fit again, and only the longest ones have moved. */
  method Repair(blCount: array<nat>, m: nat, excess: int)
    requires Overfull(blCount[..], m, excess) && excess > 0
    modifies blCount
    ensures Deepened(old(blCount[..]), blCount[..], m)
    ensures Overfull(blCount[..], m, 0) && TotalCount(blCount[..], m + 1) == old(TotalCount(blCount[..], m + 1))
    ensures forall b :: m < b < blCount.Length ==> blCount[b] == old(blCount[b])
  {
    hide KraftCounts, TotalCount, Deepened;
    ShorterExists(blCount[..], m, excess, m);
    NothingDeepened(blCount[..], m);
    var overflow := excess;
    while overflow > 0
      invariant Deepened(old(blCount[..]), blCount[..], m)
      invariant Overfull(blCount[..], m, overflow) && 0 <= overflow && overflow % 2 == 0
      invariant TotalCount(blCount[..], m + 1) == old(TotalCount(blCount[..], m + 1))
      invariant forall b :: m < b < blCount.Length ==> blCount[b] == old(blCount[b])
    {
      RepairOnce(blCount, m, overflow, old(blCount[..]));
      overflow := overflow - 2;
    }
  }

  method RepairOnce(blCount: array<nat>, m: nat, ghost overflow: int, ghost was: seq<nat>)
    requires Overfull(blCount[..], m, overflow) && overflow >= 2 && Deepened(was, blCount[..], m)
    modifies blCount
    ensures Deepened(was, blCount[..], m)
    ensures Overfull(blCount[..], m, overflow - 2)
    ensures TotalCount(blCount[..], m + 1) == old(TotalCount(blCount[..], m + 1))
    ensures forall b :: m < b < blCount.Length ==> blCount[b] == old(blCount[b])
  {
    hide KraftCounts, TotalCount, Deepened;
    ghost var bl := blCount[..];
    var bits := m - 1;
    ShorterExists(bl, m, overflow, m - 1);
    while blCount[bits] == 0
      invariant 0 < bits < m && blCount[..] == bl && forall b :: bits < b < m ==> bl[b] == 0
      decreases bits
    {
      ShorterExists(bl, m, overflow, bits);
      bits := bits - 1;
      ShorterExists(bl, m, overflow, bits);
    }
    RepairStep(bl, m, bits);
    DeepenStep(was, bl, m, bits);
    blCount[bits] := blCount[bits] - 1;
    blCount[bits + 1] := blCount[bits + 1] + 2;
    blCount[m] := blCount[m] - 1;
    assert blCount[..] == Repaired(bl, m, bits);
  }

  /** What each symbol adds to a block: its frequency times its length with extra bits. */
  function BlockCost(f: seq<nat>, lens: seq<nat>, extra: seq<nat>): (r: seq<int>)
    requires |f| <= |lens| && |f| == |extra|
    ensures |r| == |f|
  {
    seq(|f|, i requires 0 <= i < |f| => f[i] * (lens[i] + extra[i]))
  }

  /** The counters of the first pass after i nodes. */
  ghost predicate Passed(bl: seq<nat>, overflow: int, opt: int, lens: seq<nat>, dad: seq<nat>,
                         f: seq<nat>, extra: seq<nat>, ord: seq<nat>, m: nat, i: nat)
  {
    && 1 <= i <= |ord| && |dad| == |lens| && |f| <= |lens| && |f| == |extra| && InTable(ord, lens)
    && m < |bl| && InTable(Symbols(ord[..i], |f|), f)
    && overflow == SumAt(TooDeep(lens, dad, m), ord[1..i])
    && (forall b :: 0 <= b < |bl| ==> bl[b] == if b <= m then CountLen(lens, Symbols(ord[..i], |f|), b) else 0)
    && opt == SumAt(BlockCost(f, lens, extra), Symbols(ord[..i], |f|))
  }

  lemma SymbolsNext(ord: seq<nat>, i: nat, elems: nat)
    requires i < |ord|
    ensures Symbols(ord[..i + 1], elems) ==
            if ord[i] < elems then Symbols(ord[..i], elems) + [ord[i]] else Symbols(ord[..i], elems)
  {
    assert ord[..i + 1][..i] == ord[..i];
  }

  lemma SumSnoc(table: seq<int>, ns: seq<nat>, x: nat)
    requires InTable(ns, table) && x < |table|
    ensures InTable(ns + [x], table) && SumAt(table, ns + [x]) == SumAt(table, ns) + table[x]
  {
    SumAppend(table, ns, [x]);
    SumOne(table, x);
  }

  /** One more node: a symbol is counted and its bits are added; a node that is too deep is noted. */
  lemma PassNode(bl: seq<nat>, overflow: int, opt: int, lens: seq<nat>, dad: seq<nat>,
                 f: seq<nat>, extra: seq<nat>, ord: seq<nat>, m: nat, i: nat)
    requires Passed(bl, overflow, opt, lens, dad, f, extra, ord, m, i) && i < |ord|
    requires dad[ord[i]] < |lens| && lens[ord[i]] <= m
    ensures var n := ord[i];
            Passed(if n < |f| then bl[lens[n] := bl[lens[n]] + 1] else bl,
                   if lens[dad[n]] == m then overflow + 1 else overflow,
                   if n < |f| then opt + f[n] * (lens[n] + extra[n]) else opt,
                   lens, dad, f, extra, ord, m, i + 1)
  {
    hide SumAt, Symbols;
    var n, us := ord[i], Symbols(ord[..i], |f|);
    SymbolsNext(ord, i, |f|);
    assert ord[1..i + 1] == ord[1..i] + [n];
    SumSnoc(TooDeep(lens, dad, m), ord[1..i], n);
    if n < |f| {
      SumSnoc(BlockCost(f, lens, extra), us, n);
      forall b | 0 <= b <= m
        ensures CountLen(lens, us + [n], b) == CountLen(lens, us, b) + if lens[n] == b then 1 else 0
      {
        SumSnoc(LenIs(lens, b), us, n);
      }
    }
  }

  /** The bits of a block under fixed lengths, after i nodes; nothing is kept if there are none. */
  ghost predicate StaticPassed(stat: int, f: seq<nat>, slens: seq<nat>, extra: seq<nat>, ord: seq<nat>, i: nat) {
    if slens == [] then stat == 0
    else
      && i <= |ord| && |f| <= |slens| && |f| == |extra| && InTable(Symbols(ord[..i], |f|), f)
      && stat == SumAt(BlockCost(f, slens, extra), Symbols(ord[..i], |f|))
  }

  lemma StaticNode(stat: int, f: seq<nat>, slens: seq<nat>, extra: seq<nat>, ord: seq<nat>, i: nat)
    requires StaticPassed(stat, f, slens, extra, ord, i) && i < |ord|
    ensures var n := ord[i];
            StaticPassed(if n < |f| && slens != [] then stat + f[n] * (slens[n] + extra[n]) else stat,
                         f, slens, extra, ord, i + 1)
  {
    hide SumAt, Symbols;
    var n := ord[i];
    SymbolsNext(ord, i, |f|);
    if slens != [] && n < |f| {
      SumSnoc(BlockCost(f, slens, extra), Symbols(ord[..i], |f|), n);
    }
  }

  method ClearCounts(blCount: array<nat>)
    modifies blCount
    ensures forall b :: 0 <= b < blCount.Length ==> blCount[b] == 0
  {
    for bits := 0 to blCount.Length
      invariant forall b :: 0 <= b < bits ==> blCount[b] == 0
    {
      blCount[bits] := 0;
    }
  }

  /** The state of the first pass: fathers and lengths, the counts, and the sums. */
  datatype Pass = Pass(cur: seq<nat>, bl: seq<nat>, overflow: int, opt: int, stat: int)

  /** What the pass does with one node. */
  function NextPass(p: Pass, n: nat, f: seq<nat>, extra: seq<nat>, slens: seq<nat>, m: nat): Pass
    requires n < |p.cur| && p.cur[n] < |p.cur| && m < |p.bl|
    requires |f| == |extra| && (slens == [] || |f| <= |slens|)
  {
    var bits := p.cur[p.cur[n]] + 1;
    var b := Cut(bits, m);
    Pass(p.cur[n := b],
         if n < |f| then p.bl[b := p.bl[b] + 1] else p.bl,
         if bits > m then p.overflow + 1 else p.overflow,
         if n < |f| then p.opt + f[n] * (b + extra[n]) else p.opt,
         if n < |f| && slens != [] then p.stat + f[n] * (slens[n] + extra[n]) else p.stat)
  }

  /** After i nodes: the lengths given so far, and every counter what it stands for. */
  ghost predicate FirstPassed(p: Pass, dad: seq<nat>, f: seq<nat>, extra: seq<nat>, slens: seq<nat>,
                              ord: seq<nat>, m: nat, i: nat)
  {
    && Listed(dad, ord) && 1 <= i <= |ord|
    && p.cur == PassTo(dad, ord, m, i)
    && Passed(p.bl, p.overflow, p.opt, Lengths(dad, ord, m), dad, f, extra, ord, m, i)
    && StaticPassed(p.stat, f, slens, extra, ord, i)
  }

  lemma FirstStart(bl: seq<nat>, dad: seq<nat>, f: seq<nat>, extra: seq<nat>, slens: seq<nat>, ord: seq<nat>, m: nat)
    requires Listed(dad, ord) && m < |bl| && |f| == |extra| && |f| <= |dad|
    requires (slens == [] || |f| <= |slens|) && |f| <= ord[0] && forall b :: 0 <= b < |bl| ==> bl[b] == 0
    ensures ord[0] < |dad| && FirstPassed(Pass(dad[ord[0] := 0], bl, 0, 0, 0), dad, f, extra, slens, ord, m, 1)
  {
    hide NoDup;
    assert ord[..1] == [ord[0]];
    SymbolsOfOne(ord[0], |f|);
    assert ord[1..1] == [];
  }

  lemma FirstBounds(p: Pass, dad: seq<nat>, f: seq<nat>, extra: seq<nat>, slens: seq<nat>,
                    ord: seq<nat>, m: nat, i: nat)
    requires FirstPassed(p, dad, f, extra, slens, ord, m, i) && i < |ord|
    ensures ord[i] < |p.cur| == |dad| && p.cur[ord[i]] < |p.cur| && m < |p.bl|
  {
    hide SumAt, Symbols, PassTo, NoDup, CountLen;
    PassResult(dad, ord, m, i);
  }

  lemma FirstStep(p: Pass, dad: seq<nat>, f: seq<nat>, extra: seq<nat>, slens: seq<nat>,
                  ord: seq<nat>, m: nat, i: nat)
    requires i < |ord| && ord[i] < |p.cur| && p.cur[ord[i]] < |p.cur| && m < |p.bl|
    requires |f| == |extra| && (slens == [] || |f| <= |slens|)
    requires FirstPassed(p, dad, f, extra, slens, ord, m, i)
    ensures FirstPassed(NextPass(p, ord[i], f, extra, slens, m), dad, f, extra, slens, ord, m, i + 1)
  {
    hide SumAt, Symbols, PassTo, NoDup, CountLen, Passed, StaticPassed;
    PassResult(dad, ord, m, i);
    PassStep(dad, ord, m, i);
    FatherCut(dad, ord, m, i);
    PassTables(p.bl, p.overflow, p.opt, Lengths(dad, ord, m), dad, f, extra, ord, m, i);
    PassNode(p.bl, p.overflow, p.opt, Lengths(dad, ord, m), dad, f, extra, ord, m, i);
    StaticNode(p.stat, f, slens, extra, ord, i);
  }

  lemma PassTables(bl: seq<nat>, overflow: int, opt: int, lens: seq<nat>, dad: seq<nat>,
                   f: seq<nat>, extra: seq<nat>, ord: seq<nat>, m: nat, i: nat)
    requires Passed(bl, overflow, opt, lens, dad, f, extra, ord, m, i)
    ensures |dad| == |lens| && |f| <= |lens| && |f| == |extra| && InTable(ord, lens) && m < |bl|
  {
  }

  /** The first pass of gen_bitlen. */
  method FirstPass(heap: array<nat>, heapMax: nat, freq: array<nat>, dl: array<nat>, blCount: array<nat>,
                   maxCode: int, m: nat, extra: seq<nat>, slens: seq<nat>, ghost f: seq<nat>)
    returns (overflow: int, opt: int, stat: int)
    requires dl != heap && dl != freq && blCount != heap && blCount != freq && blCount != dl
    requires heapMax < heap.Length && 0 < m < blCount.Length && |f| == |extra| && (slens == [] || |f| <= |slens|)
    requires |f| <= freq.Length && f == freq[..|f|] && |f| <= dl.Length && maxCode < |f|
    requires Listed(dl[..], heap[..][heapMax..]) && |f| <= heap[heapMax]
    requires forall i :: heapMax <= i < heap.Length && heap[i] < |f| ==> heap[i] <= maxCode
    modifies dl, blCount
    ensures FirstPassed(Pass(dl[..], blCount[..], overflow, opt, stat), old(dl[..]), f, extra, slens,
                        heap[..][heapMax..], m, heap.Length - heapMax)
  {
    hide FirstPassed, Listed;
    ghost var dad, ord := dl[..], heap[..][heapMax..];
    ClearCounts(blCount);
    overflow, opt, stat := 0, 0, 0;
    FirstStart(blCount[..], dad, f, extra, slens, ord, m);
    dl[heap[heapMax]] := 0;
    for h := heapMax + 1 to heap.Length
      invariant FirstPassed(Pass(dl[..], blCount[..], overflow, opt, stat), dad, f, extra, slens, ord, m, h - heapMax)
    {
      ghost var p := Pass(dl[..], blCount[..], overflow, opt, stat);
      FirstBounds(p, dad, f, extra, slens, ord, m, h - heapMax);
      FirstStep(p, dad, f, extra, slens, ord, m, h - heapMax);
      var n := heap[h];
      assert n == ord[h - heapMax];
      overflow, opt, stat := PassOne(n, freq, dl, blCount, maxCode, m, extra, slens, f, overflow, opt, stat);
    }
  }

  method PassOne(n: nat, freq: array<nat>, dl: array<nat>, blCount: array<nat>, maxCode: int, m: nat,
                 extra: seq<nat>, slens: seq<nat>, ghost f: seq<nat>, overflow: int, opt: int, stat: int)
    returns (overflow': int, opt': int, stat': int)
    requires dl != freq && blCount != freq && blCount != dl
    requires n < dl.Length && dl[n] < dl.Length && m < blCount.Length
    requires |f| == |extra| && (slens == [] || |f| <= |slens|)
    requires |f| <= freq.Length && f == freq[..|f|] && (n <= maxCode <==> n < |f|)
    modifies dl, blCount
    ensures Pass(dl[..], blCount[..], overflow', opt', stat') ==
            NextPass(old(Pass(dl[..], blCount[..], overflow, opt, stat)), n, f, extra, slens, m)
  {
    overflow', opt', stat' := overflow, opt, stat;
    var bits: nat := dl[dl[n]] + 1;
    if bits > m {
      bits, overflow' := m, overflow' + 1;
    }
    dl[n] := bits;
    if n <= maxCode {
      blCount[bits] := blCount[bits] + 1;
      opt' := opt' + freq[n] * (bits + extra[n]);
      if slens != [] {
        stat' := stat' + freq[n] * (slens[n] + extra[n]);
      }
    }
  }
}
