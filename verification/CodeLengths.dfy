/** Code lengths for a table of frequencies (archival/gzip.c, gen_bitlen as a whole). */
module CodeLengths {
  import opened Words
  import opened Sums
  import opened CodeCounts
  import opened HuffmanCost
  import opened HuffmanTree
  import opened HuffmanGrow
  import opened HuffmanBuild
  import opened TreeLengths
  import opened LengthPass
  import opened BitLengths
  import opened Deepening
  import opened DealLengths
  import opened LengthOrder

  /** Every used symbol has a length from 1 to m, and the lengths fill the code space exactly. */
  ghost predicate CodeOk(lens: seq<nat>, bl: seq<nat>, f: seq<nat>, m: nat) {
    && |f| <= |lens| && 0 < m < |bl| && bl[0] == 0
    && Counts(bl, lens, UsedTo(f, |f|), m)
    && (forall b :: m < b < |bl| ==> bl[b] == 0)
    && (forall x :: 0 <= x < |f| ==> if f[x] == 0 then lens[x] == 0 else 1 <= lens[x] <= m)
    && KraftAt(lens, UsedTo(f, |f|), m) == Pow2(m)
  }

  lemma {:induction false} CountNone(lens: seq<nat>, us: seq<nat>, b: nat)
    requires InTable(us, lens) && forall i :: 0 <= i < |us| ==> lens[us[i]] != b
    ensures CountLen(lens, us, b) == 0
  {
    if us != [] {
      CountCons(lens, us, b);
      assert forall i :: 0 <= i < |us[1..]| ==> us[1..][i] == us[i + 1];
      CountNone(lens, us[1..], b);
    }
  }

  lemma CountsPermuted(bl: seq<nat>, lens: seq<nat>, a: seq<nat>, b: seq<nat>, m: nat)
    requires Counts(bl, lens, a, m) && multiset(a) == multiset(b)
    ensures Counts(bl, lens, b, m) && KraftAt(lens, b, m) == KraftAt(lens, a, m)
  {
    hide SumAt;
    PermutedInTable(a, b, lens);
    SumPermuted(KraftTable(lens, m), a, b);
    forall k | 0 <= k <= m
      ensures CountLen(lens, b, k) == CountLen(lens, a, k)
    {
      SumPermuted(LenIs(lens, k), a, b);
    }
    forall i | 0 <= i < |b|
      ensures lens[b[i]] <= m
    {
      assert b[i] in multiset(a);
    }
  }

  /** Counts that are a code again make the lengths a code. */
  lemma CodeDone(lens: seq<nat>, bl: seq<nat>, f: seq<nat>, m: nat, us: seq<nat>)
    requires |f| <= |lens| && multiset(us) == multiset(UsedTo(f, |f|))
    requires Counts(bl, lens, us, m) && Overfull(bl, m, 0) && forall b :: m < b < |bl| ==> bl[b] == 0
    requires forall x :: x in us ==> x < |lens| && 1 <= lens[x] <= m
    requires forall x :: 0 <= x < |f| && x !in us ==> lens[x] == 0
    ensures CodeOk(lens, bl, f, m)
  {
    hide KraftCounts, TotalCount, KraftAt, CountLen;
    CountsSums(bl, lens, us, m);
    CountsPermuted(bl, lens, us, UsedTo(f, |f|), m);
    forall x | 0 <= x < |f|
      ensures if f[x] == 0 then lens[x] == 0 else 1 <= lens[x] <= m
    {
      UsedIff(f, x);
      assert x in multiset(us) <==> x in multiset(UsedTo(f, |f|));
    }
  }

  lemma UsedIff(f: seq<nat>, x: nat)
    requires x < |f|
    ensures x in UsedTo(f, |f|) <==> f[x] != 0
  {
    UsedBelow(f, |f|);
    if f[x] != 0 {
      UsedAll(f, |f|, x);
    }
  }

  /** The lengths of the first pass keep unused symbols without a code. */
  lemma {:induction false} PassKeepsOthers(dad: seq<nat>, ord: seq<nat>, m: nat, i: nat, x: nat)
    requires Listed(dad, ord) && 1 <= i <= |ord| && x < |dad| && x !in ord
    ensures PassTo(dad, ord, m, i)[x] == dad[x]
  {
    hide NoDup;
    if i > 1 {
      PassKeepsOthers(dad, ord, m, i - 1, x);
    }
  }

  lemma SymbolIn(ord: seq<nat>, elems: nat, x: nat)
    requires x < elems
    ensures x in Symbols(ord, elems) <==> x in ord
  {
    SymbolsCount(ord, elems, x);
    assert x in ord <==> x in multiset(ord);
    assert x in Symbols(ord, elems) <==> x in multiset(Symbols(ord, elems));
  }

  /** What the first pass leaves for the used symbols. */
  ghost predicate AfterFirst(p: Pass, t: Tree, f: seq<nat>, extra: seq<nat>, us: seq<nat>, m: nat) {
    && |f| <= |p.cur| && |f| == |extra| && InTable(us, f)
    && Overfull(p.bl, m, p.overflow) && p.overflow == Over(t, 0, m)
    && Counts(p.bl, p.cur, us, m) && (forall b :: m < b < |p.bl| ==> p.bl[b] == 0)
    && (forall x :: x in us ==> x < |p.cur| && 1 <= p.cur[x] <= m)
    && (forall x :: 0 <= x < |f| && x !in us ==> p.cur[x] == 0)
    && p.opt == SumAt(BlockCost(f, p.cur, extra), us)
  }

  /** The list of nodes is in order for the pass, and its symbols are the used ones. */
  lemma ListReady(t: Tree, f: seq<nat>, dad: seq<nat>, ord: seq<nat>, maxCode: int)
    requires TreeBuilt(t, f, dad, ord) && 2 <= |UsedTo(f, |f|)| && MaxCodeOk(f, maxCode)
    ensures Listed(dad, ord) && |f| <= ord[0] && |f| <= |dad|
    ensures var us := Symbols(ord, |f|);
            multiset(us) == multiset(UsedTo(f, |f|)) && NoDup(multiset(us)) && InTable(us, f)
    ensures forall i :: 0 <= i < |ord| && ord[i] < |f| ==> ord[i] <= maxCode
  {
    hide NoDup, UsedTo, InnerCost, Proper, Symbols, Linked, BagAt;
    var us := Symbols(ord, |f|);
    SymbolsListed(t, f, dad, ord);
    UsedNoDup(f, |f|);
    UsedBelow(f, |f|);
    PermutedInTable(UsedTo(f, |f|), us, f);
    assert |multiset(Leaves(t))| == |Leaves(t)|;
    forall i | 0 <= i < |ord| && ord[i] < |f|
      ensures ord[i] <= maxCode
    {
      SymbolIn(ord, |f|, ord[i]);
      assert ord[i] in multiset(us);
      UsedIff(f, ord[i]);
    }
  }

  lemma FirstDone(p: Pass, t: Tree, dad: seq<nat>, f: seq<nat>, extra: seq<nat>, slens: seq<nat>,
                  ord: seq<nat>, maxCode: int, m: nat)
    requires FirstPassed(p, dad, f, extra, slens, ord, m, |ord|)
    requires TreeBuilt(t, f, dad, ord) && 2 <= |UsedTo(f, |f|)| && MaxCodeOk(f, maxCode) && |f| < Pow2(m) && 0 < m
    requires forall x :: 0 <= x < |f| && f[x] == 0 ==> dad[x] == 0
    ensures AfterFirst(p, t, f, extra, Symbols(ord, |f|), m)
  {
    hide NoDup, UsedTo, SumAt, PassTo, TreeBuilt, Listed, MaxCodeOk, BlockCost, Symbols, KraftCounts, TotalCount, CountLen, KraftAt;
    var us := Symbols(ord, |f|);
    ListReady(t, f, dad, ord, maxCode);
    assert ord[..|ord|] == ord;
    FirstCounts(p, t, dad, f, ord, maxCode, m);
    PassSums(t, f, dad, ord, m, us);
    CountsSums(p.bl, p.cur, us, m);
    ExcessIsOver(t, f, dad, ord, m);
    UsedBelow(f, |f|);
    PermutedInTable(UsedTo(f, |f|), us, f);
    CountNone(p.cur, us, 0);
  }

  lemma ExcessIsOver(t: Tree, f: seq<nat>, dad: seq<nat>, ord: seq<nat>, m: nat)
    requires TreeBuilt(t, f, dad, ord) && Listed(dad, ord)
    ensures Excess(dad, ord, m) == Over(t, 0, m)
  {
    hide NoDup, UsedTo, InnerCost, PassTo, Proper, Leaves, BagAt, Linked, SumAt;
    var lens := Lengths(dad, ord, m);
    PassDepths(t, f, dad, ord, m);
    ProperSums(t, lens, dad, 0, m);
    SumPermuted(TooDeep(lens, dad, m), Proper(t), ord[1..]);
  }

  /** Used symbols have a length in range after the first pass, the others none. */
  lemma FirstRange(t: Tree, dad: seq<nat>, f: seq<nat>, ord: seq<nat>, maxCode: int, m: nat, x: nat)
    requires TreeBuilt(t, f, dad, ord) && Listed(dad, ord) && 2 <= |UsedTo(f, |f|)| && MaxCodeOk(f, maxCode) && 0 < m
    requires forall y :: 0 <= y < |f| && f[y] == 0 ==> dad[y] == 0
    requires x < |f| <= |dad|
    ensures x in Symbols(ord, |f|) ==> 1 <= Lengths(dad, ord, m)[x] <= m
    ensures x !in Symbols(ord, |f|) ==> Lengths(dad, ord, m)[x] == 0
  {
    hide NoDup, UsedTo, PassTo, TreeBuilt, Listed, MaxCodeOk, Symbols;
    ListReady(t, f, dad, ord, maxCode);
    UsedIff(f, x);
    assert x in multiset(Symbols(ord, |f|)) <==> x in multiset(UsedTo(f, |f|));
    SymbolIn(ord, |f|, x);
    if x in UsedTo(f, |f|) {
      PassRange(t, f, dad, ord, m, x);
    } else {
      ListNonEmpty(dad, ord);
      PassKeepsOthers(dad, ord, m, |ord|, x);
    }
  }

  lemma ListNonEmpty(dad: seq<nat>, ord: seq<nat>)
    requires Listed(dad, ord)
    ensures 1 <= |ord|
  {
  }

  lemma FirstCounts(p: Pass, t: Tree, dad: seq<nat>, f: seq<nat>, ord: seq<nat>, maxCode: int, m: nat)
    requires 0 < m < |p.bl| && |f| <= |dad| == |p.cur| && InTable(Symbols(ord, |f|), p.cur)
    requires TreeBuilt(t, f, dad, ord) && Listed(dad, ord) && 2 <= |UsedTo(f, |f|)| && MaxCodeOk(f, maxCode)
    requires forall y :: 0 <= y < |f| && f[y] == 0 ==> dad[y] == 0
    requires p.cur == Lengths(dad, ord, m) && InTable(Symbols(ord, |f|), f)
    requires forall b :: 0 <= b <= m ==> p.bl[b] == CountLen(p.cur, Symbols(ord, |f|), b)
    ensures forall x :: x in Symbols(ord, |f|) ==> x < |p.cur| && 1 <= p.cur[x] <= m
    ensures forall x :: 0 <= x < |f| && x !in Symbols(ord, |f|) ==> p.cur[x] == 0
    ensures Counts(p.bl, p.cur, Symbols(ord, |f|), m)
  {
    hide NoDup, UsedTo, PassTo, TreeBuilt, Listed, MaxCodeOk, Symbols, CountLen;
    forall x | 0 <= x < |f|
      ensures x in Symbols(ord, |f|) ==> 1 <= p.cur[x] <= m
      ensures x !in Symbols(ord, |f|) ==> p.cur[x] == 0
    {
      FirstRange(t, dad, f, ord, maxCode, m, x);
    }
  }

  /** No lengths that satisfy Kraft's inequality, so no prefix code, make the message shorter. */
  ghost predicate Optimal(f: seq<nat>, lens: seq<nat>) {
    && |f| <= |lens| && InTable(UsedTo(f, |f|), f)
    && forall other: seq<nat>, k: nat ::
         |f| <= |other| && AtMost(other, UsedTo(f, |f|), k) && KraftAt(other, UsedTo(f, |f|), k) <= Pow2(k) ==>
           SumAt(Weighted(f, lens), UsedTo(f, |f|)) <= SumAt(Weighted(f, other), UsedTo(f, |f|))
  }

  ghost predicate AtMost(lens: seq<nat>, us: seq<nat>, k: nat) {
    InTable(us, lens) && forall i :: 0 <= i < |us| ==> lens[us[i]] <= k
  }

  function Items(f: seq<nat>, lens: seq<nat>, us: seq<nat>): (s: seq<Item>)
    requires InTable(us, f) && InTable(us, lens)
    ensures |s| == |us| && forall i :: 0 <= i < |us| ==> s[i] == Item(f[us[i]], lens[us[i]])
  {
    seq(|us|, i requires 0 <= i < |us| => Item(f[us[i]], lens[us[i]]))
  }

  /** Listed symbols with their frequencies and lengths, as weighted items. */
  lemma {:induction false} ItemSums(f: seq<nat>, lens: seq<nat>, us: seq<nat>, k: nat)
    requires InTable(us, f) && |f| <= |lens| && AtMost(lens, us, k)
    ensures var s := Items(f, lens, us);
            && Within(s, k) && Kraft(s, k) == KraftAt(lens, us, k)
            && Cost(s) == SumAt(Weighted(f, lens), us) && Weights(s) == BagAt(f, us)
  {
    var s := Items(f, lens, us);
    if us != [] {
      assert s[1..] == Items(f, lens, us[1..]);
      assert forall i :: 0 <= i < |us[1..]| ==> us[1..][i] == us[i + 1];
      ItemSums(f, lens, us[1..], k);
    }
  }

  lemma GreedyOptimal(f: seq<nat>, lens: seq<nat>)
    requires |f| <= |lens| && InTable(UsedTo(f, |f|), f)
    requires SumAt(Weighted(f, lens), UsedTo(f, |f|)) == HuffCost(BagAt(f, UsedTo(f, |f|)))
    ensures Optimal(f, lens)
  {
    hide UsedTo, SumAt, HuffCost, BagAt, Kraft, Weights, Cost, KraftAt;
    var us := UsedTo(f, |f|);
    forall other: seq<nat>, k: nat | |f| <= |other| && AtMost(other, us, k) && KraftAt(other, us, k) <= Pow2(k)
      ensures SumAt(Weighted(f, lens), us) <= SumAt(Weighted(f, other), us)
    {
      ItemSums(f, other, us, k);
      GreedyIsOptimal(Items(f, other, us), k);
    }
  }

  lemma FirstOptimal(p: Pass, t: Tree, dad: seq<nat>, f: seq<nat>, extra: seq<nat>, slens: seq<nat>, ord: seq<nat>, m: nat)
    requires FirstPassed(p, dad, f, extra, slens, ord, m, |ord|)
    requires TreeBuilt(t, f, dad, ord) && |f| <= |dad| && Over(t, 0, m) == 0
    ensures Optimal(f, p.cur)
  {
    hide NoDup, UsedTo, SumAt, PassTo, TreeBuilt, Listed, Passed, StaticPassed, HuffCost, BagAt, Optimal;
    ExcessIsOver(t, f, dad, ord, m);
    PassCost(t, f, dad, ord, m, UsedTo(f, |f|));
    GreedyOptimal(f, p.cur);
  }

  lemma StaticDone(p: Pass, dad: seq<nat>, f: seq<nat>, extra: seq<nat>, slens: seq<nat>, ord: seq<nat>, m: nat)
    requires FirstPassed(p, dad, f, extra, slens, ord, m, |ord|)
    ensures StaticPassed(p.stat, f, slens, extra, ord, |ord|) && |p.cur| == |dad|
  {
  }

  lemma CostPermuted(f: seq<nat>, lens: seq<nat>, extra: seq<nat>, us: seq<nat>)
    requires |f| <= |lens| && |f| == |extra| && InTable(us, f) && multiset(us) == multiset(UsedTo(f, |f|))
    ensures InTable(UsedTo(f, |f|), f)
    ensures SumAt(BlockCost(f, lens, extra), us) == SumAt(BlockCost(f, lens, extra), UsedTo(f, |f|))
  {
    SumPermuted(BlockCost(f, lens, extra), us, UsedTo(f, |f|));
  }

  /** The bits of a message of the used symbols. */
  ghost function MessageBits(f: seq<nat>, lens: seq<nat>, extra: seq<nat>): int
    requires |f| <= |lens| && |f| == |extra|
  {
    UsedBelow(f, |f|);
    SumAt(BlockCost(f, lens, extra), UsedTo(f, |f|))
  }

  ghost predicate StaticBits(stat: int, f: seq<nat>, slens: seq<nat>, extra: seq<nat>) {
    if slens == [] then stat == 0
    else |f| <= |slens| && |f| == |extra| && stat == MessageBits(f, slens, extra)
  }

  lemma StaticIs(stat: int, f: seq<nat>, slens: seq<nat>, extra: seq<nat>, ord: seq<nat>)
    requires StaticPassed(stat, f, slens, extra, ord, |ord|)
    requires multiset(Symbols(ord, |f|)) == multiset(UsedTo(f, |f|))
    ensures StaticBits(stat, f, slens, extra)
  {
    hide Symbols, UsedTo, SumAt;
    assert ord[..|ord|] == ord;
    if slens != [] {
      CostPermuted(f, slens, extra, Symbols(ord, |f|));
    }
  }

  /** Exchanging the codes of two symbols keeps the Kraft sum. */
  lemma SwapKraft(lens: seq<nat>, us: seq<nat>, x: nat, y: nat, m: nat)
    requires InTable(us, lens) && NoDup(multiset(us)) && x in us && y in us && x != y
    ensures KraftAt(lens[x := lens[y]][y := lens[x]], us, m) == KraftAt(lens, us, m)
  {
    hide SumAt, NoDup;
    var a := KraftTable(lens, m);
    assert KraftTable(lens[x := lens[y]][y := lens[x]], m) == a[x := a[y]][y := a[x]];
    SumUpdate(a, us, x, a[y]);
    SumUpdate(a[x := a[y]], us, y, a[x]);
  }

  lemma SwapCost(f: seq<nat>, lens: seq<nat>, us: seq<nat>, x: nat, y: nat)
    requires |f| <= |lens| && InTable(us, f) && NoDup(multiset(us)) && x in us && y in us && x != y
    ensures SumAt(Weighted(f, lens[x := lens[y]][y := lens[x]]), us) ==
              SumAt(Weighted(f, lens), us) + f[x] * lens[y] - f[x] * lens[x] + f[y] * lens[x] - f[y] * lens[y]
  {
    hide SumAt, NoDup;
    var a := Weighted(f, lens);
    assert Weighted(f, lens[x := lens[y]][y := lens[x]]) == a[x := f[x] * lens[y]][y := f[y] * lens[x]];
    SumUpdate(a, us, x, f[x] * lens[y]);
    SumUpdate(a[x := f[x] * lens[y]], us, y, f[y] * lens[x]);
  }

  lemma SwapGain(a: nat, b: nat, k: nat, l: nat)
    requires a < b && k < l
    ensures a * l - a * k + b * k - b * l < 0
  {
    assert a * l - a * k + b * k - b * l == (a - b) * (l - k);
  }

  /** Optimal lengths are longer for rarer symbols, or an exchange would save bits. */
  lemma OptimalIsMonotone(f: seq<nat>, lens: seq<nat>, bl: seq<nat>, m: nat)
    requires Optimal(f, lens) && CodeOk(lens, bl, f, m)
    ensures Monotone(f, lens)
  {
    hide UsedTo, SumAt, Weighted, KraftAt, NoDup, Counts, Pow2;
    var us := UsedTo(f, |f|);
    UsedBelow(f, |f|);
    UsedNoDup(f, |f|);
    forall x, y | 0 <= x < |f| && 0 <= y < |f| && 0 < f[x] < f[y]
      ensures lens[y] <= lens[x]
    {
      UsedAll(f, |f|, x);
      UsedAll(f, |f|, y);
      var other := lens[x := lens[y]][y := lens[x]];
      SwapKraft(lens, us, x, y, m);
      SwapCost(f, lens, us, x, y);
      assert AtMost(other, us, m);
      if lens[x] < lens[y] {
        SwapGain(f[x], f[y], lens[x], lens[y]);
      }
    }
  }

  /** gen_bitlen; the results are what it adds to opt_len and static_len. */
  method GenBitlen(b: Builder, blCount: array<nat>, m: nat, extra: seq<nat>, slens: seq<nat>, ghost t: Tree)
    returns (opt: int, stat: int)
    requires b.Shape() && blCount != b.heap && blCount != b.freq && blCount != b.dl
    requires 0 < b.heapMax < b.heap.Length && 0 < m < blCount.Length && b.elems < Pow2(m)
    requires |extra| == b.elems && (slens == [] || b.elems <= |slens|)
    requires TreeBuilt(t, b.freq[..b.elems], b.dl[..], b.heap[..][b.heapMax..])
    requires 2 <= |UsedTo(b.freq[..b.elems], b.elems)| && MaxCodeOk(b.freq[..b.elems], b.maxCode)
    requires Descends(b.heap[..][b.heapMax..], b.freq[..])
    requires forall x :: 0 <= x < b.elems && b.freq[x] == 0 ==> b.dl[x] == 0
    modifies b.dl, blCount
    ensures CodeOk(b.dl[..], blCount[..], b.freq[..b.elems], m) && Monotone(b.freq[..b.elems], b.dl[..])
    ensures opt == MessageBits(b.freq[..b.elems], b.dl[..], extra)
    ensures StaticBits(stat, b.freq[..b.elems], slens, extra)
    ensures Over(t, 0, m) == 0 ==> Optimal(b.freq[..b.elems], b.dl[..])
  {
    hide CodeOk, TreeBuilt, MaxCodeOk, FirstPassed, Listed, AfterFirst, Optimal, Overfull, Dealing, StaticPassed,
         Descends, Monotone, StaticBits, Counts, Symbols, UsedTo, NoDup, MessageBits;
    ghost var f, dad, ord := b.freq[..b.elems], b.dl[..], b.heap[..][b.heapMax..];
    ListReady(t, f, dad, ord, b.maxCode);
    MaxCodeRange(f, b.maxCode);
    var overflow;
    overflow, opt, stat := FirstPass(b.heap, b.heapMax, b.freq, b.dl, blCount, b.maxCode, m, extra, slens, f);
    ghost var p := Pass(b.dl[..], blCount[..], overflow, opt, stat);
    FirstDone(p, t, dad, f, extra, slens, ord, b.maxCode, m);
    StaticDone(p, dad, f, extra, slens, ord, m);
    StaticIs(stat, f, slens, extra, ord);
    OverflowMeans(p, t, f, extra, Symbols(ord, |f|), m);
    if overflow == 0 {
      FirstOptimal(p, t, dad, f, extra, slens, ord, m);
      FirstIsCode(p, t, f, extra, Symbols(ord, |f|), m);
      OptimalIsMonotone(f, p.cur, p.bl, m);
      return;
    }
    opt := RepairAndDeal(b, blCount, m, extra, f, overflow, opt, stat, t);
  }

  lemma OverflowMeans(p: Pass, t: Tree, f: seq<nat>, extra: seq<nat>, us: seq<nat>, m: nat)
    requires AfterFirst(p, t, f, extra, us, m)
    ensures p.overflow == Over(t, 0, m)
  {
  }

  lemma FirstIsCode(p: Pass, t: Tree, f: seq<nat>, extra: seq<nat>, us: seq<nat>, m: nat)
    requires |f| <= |p.cur| && |f| == |extra|
    requires AfterFirst(p, t, f, extra, us, m) && p.overflow == 0 && multiset(us) == multiset(UsedTo(f, |f|))
    ensures CodeOk(p.cur, p.bl, f, m) && p.opt == MessageBits(f, p.cur, extra)
  {
    hide Counts, Overfull, SumAt, UsedTo, CodeOk, BlockCost;
    CodeDone(p.cur, p.bl, f, m, us);
    CostPermuted(f, p.cur, extra, us);
  }

  lemma RepairReady(p: Pass, t: Tree, f: seq<nat>, extra: seq<nat>, us: seq<nat>, m: nat)
    requires AfterFirst(p, t, f, extra, us, m)
    ensures Overfull(p.bl, m, p.overflow) && |us| == TotalCount(p.bl, m + 1)
    ensures forall b :: m < b < |p.bl| ==> p.bl[b] == 0
    ensures forall x :: 0 <= x < |f| && x !in us ==> p.cur[x] == 0
    ensures |f| == |extra| && InTable(us, f) && p.opt == SumAt(BlockCost(f, p.cur, extra), us)
  {
    hide SumAt, KraftCounts, TotalCount, CountLen, KraftAt;
    CountsSums(p.bl, p.cur, us, m);
  }

  /** Repair of the counts, and new lengths from them. */
  method RepairAndDeal(b: Builder, blCount: array<nat>, m: nat, extra: seq<nat>, ghost f: seq<nat>,
                       overflow: int, optLen: int, ghost stat: int, ghost t: Tree)
    returns (opt: int)
    requires b.Shape() && blCount != b.heap && blCount != b.freq && blCount != b.dl
    requires 0 < b.heapMax < b.heap.Length && 0 < m < blCount.Length && |extra| == b.elems
    requires f == b.freq[..b.elems] && -1 <= b.maxCode < b.elems && overflow != 0
    requires Descends(b.heap[..][b.heapMax..], b.freq[..])
    requires forall i :: b.heapMax <= i < b.heap.Length && b.heap[i] < |f| ==> b.heap[i] <= b.maxCode
    requires var us := Symbols(b.heap[..][b.heapMax..], |f|);
             multiset(us) == multiset(UsedTo(f, |f|)) && NoDup(multiset(us)) && InTable(us, f)
    requires AfterFirst(Pass(b.dl[..], blCount[..], overflow, optLen, stat), t, f, extra,
                        Symbols(b.heap[..][b.heapMax..], |f|), m)
    modifies b.dl, blCount
    ensures CodeOk(b.dl[..], blCount[..], f, m) && Monotone(f, b.dl[..])
    ensures opt == MessageBits(f, b.dl[..], extra) && Deepened(old(blCount[..]), blCount[..], m)
  {
    hide Deepened, CodeOk, Dealing, Descends, LengthsRise, Monotone, Counts, Symbols, UsedTo, NoDup, MessageBits, AfterFirst, KraftCounts,
         TotalCount, SumAt, BlockCost;
    ghost var ord, us := b.heap[..][b.heapMax..], Symbols(b.heap[..][b.heapMax..], |f|);
    RepairReady(Pass(b.dl[..], blCount[..], overflow, optLen, stat), t, f, extra, us, m);
    Repair(blCount, m, overflow);
    DealStart(b.dl[..], blCount[..], optLen, f, extra, ord, m);
    ghost var stop;
    opt, stop := Deal(b.heap, b.heapMax, b.freq, b.dl, blCount, b.maxCode, m, extra, f, optLen);
    DealtAll(b.dl[..], blCount[..], opt, f, extra, ord, stop, m);
    CodeDone(b.dl[..], blCount[..], f, m, us);
    DealtCost(b.dl[..], blCount[..], opt, f, extra, ord, stop, m);
    SymbolsDescend(ord, b.freq[..], f);
    RisingIsMonotone(f, b.dl[..], us);
  }

  lemma DealtCost(lens: seq<nat>, bl: seq<nat>, opt: int, f: seq<nat>, extra: seq<nat>, ord: seq<nat>, h: nat, m: nat)
    requires |f| <= |lens| && |f| == |extra|
    requires Dealing(lens, bl, opt, f, extra, ord, h, 0, 0, m)
    requires multiset(Symbols(ord, |f|)) == multiset(UsedTo(f, |f|))
    ensures opt == MessageBits(f, lens, extra)
  {
    hide Symbols, UsedTo, SumAt, NoDup, Dealt, BlockCost;
    CostPermuted(f, lens, extra, Symbols(ord, |f|));
  }
}
