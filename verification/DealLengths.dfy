/**
 Dealing the code lengths out anew (archival/gzip.c, the last loop of gen_bitlen): the nodes are
 scanned from the least frequent one, and each symbol takes the longest length still to be given.
 */
module DealLengths {
  import opened Sums
  import opened CodeCounts
  import opened HuffmanGrow
  import opened LengthPass
  import opened BitLengths

  /** Changing one entry that is listed once changes the sum by the difference. */
  lemma SumUpdate(table: seq<int>, ns: seq<nat>, x: nat, v: int)
    requires InTable(ns, table) && NoDup(multiset(ns)) && x in ns
    ensures InTable(ns, table[x := v]) && SumAt(table[x := v], ns) == SumAt(table, ns) - table[x] + v
  {
    hide SumAt;
    var i :| 0 <= i < |ns| && ns[i] == x;
    SumDrop(table, ns, i);
    SumDrop(table[x := v], ns, i);
    OnlyOnce(ns, i);
    SumAgree(table, table[x := v], Drop(ns, i));
  }

  lemma OnlyOnce(ns: seq<nat>, i: nat)
    requires i < |ns| && NoDup(multiset(ns))
    ensures ns[i] !in Drop(ns, i)
  {
    DropMultiset(ns, i);
    assert multiset(ns)[ns[i]] <= 1;
    assert ns[i] !in multiset(Drop(ns, i));
  }

  /** The later in the list, the longer the code. */
  ghost predicate LengthsRise(lens: seq<nat>, us: seq<nat>) {
    InTable(us, lens) && forall i, k :: 0 <= i < k < |us| ==> lens[us[i]] <= lens[us[k]]
  }

  /** The dealt symbols have the counted lengths, n of `bits` bits and all the shorter ones still to come. */
  ghost predicate Dealt(lens: seq<nat>, bl: seq<nat>, dealt: seq<nat>, bits: nat, n: nat, m: nat) {
    && bits <= m < |bl| && n <= bl[bits] && InTable(dealt, lens) && LengthsRise(lens, dealt)
    && (forall i :: 0 <= i < |dealt| ==> bits <= lens[dealt[i]] && 1 <= lens[dealt[i]] <= m)
    && forall b :: 0 <= b <= m ==>
         CountLen(lens, dealt, b) == if b > bits then bl[b] else if b == bits then bl[b] - n else 0
  }

  lemma DealStep(lens: seq<nat>, bl: seq<nat>, dealt: seq<nat>, bits: nat, n: nat, m: nat, x: nat)
    requires Dealt(lens, bl, dealt, bits, n, m) && n > 0 && bits > 0 && x < |lens| && x !in dealt
    ensures Dealt(lens[x := bits], bl, [x] + dealt, bits, n - 1, m)
  {
    hide SumAt;
    var lens' := lens[x := bits];
    forall b | 0 <= b <= m
      ensures CountLen(lens', [x] + dealt, b) == CountLen(lens, dealt, b) + if b == bits then 1 else 0
    {
      SumAgree(LenIs(lens, b), LenIs(lens', b), dealt);
      SumCons(LenIs(lens', b), x, dealt);
    }
  }

  /** The state of the scan: position h in the list, the symbols before it still to come. */
  ghost predicate Dealing(lens: seq<nat>, bl: seq<nat>, opt: int, f: seq<nat>, extra: seq<nat>, ord: seq<nat>,
                          h: nat, bits: nat, n: nat, m: nat)
  {
    && h <= |ord| && |f| <= |lens| && |f| == |extra| && NoDup(multiset(Symbols(ord, |f|)))
    && bits <= m < |bl|
    && InTable(Symbols(ord, |f|), f)
    && Dealt(lens, bl, Symbols(ord[h..], |f|), bits, n, m)
    && |Symbols(ord[..h], |f|)| == n + TotalCount(bl, bits)
    && opt == SumAt(BlockCost(f, lens, extra), Symbols(ord, |f|))
  }

  lemma SymbolsSplit(ord: seq<nat>, h: nat, elems: nat)
    requires h <= |ord|
    ensures Symbols(ord, elems) == Symbols(ord[..h], elems) + Symbols(ord[h..], elems)
    ensures 0 < h ==> Symbols(ord[h - 1..], elems) ==
                      if ord[h - 1] < elems then [ord[h - 1]] + Symbols(ord[h..], elems) else Symbols(ord[h..], elems)
    ensures 0 < h ==> Symbols(ord[..h], elems) ==
                      if ord[h - 1] < elems then Symbols(ord[..h - 1], elems) + [ord[h - 1]]
                      else Symbols(ord[..h - 1], elems)
  {
    hide Symbols;
    assert ord == ord[..h] + ord[h..];
    SymbolsAppend(ord[..h], ord[h..], elems);
    if 0 < h {
      assert ord[h - 1..] == [ord[h - 1]] + ord[h..];
      SymbolsAppend([ord[h - 1]], ord[h..], elems);
      SymbolsOfOne(ord[h - 1], elems);
      assert [] + Symbols(ord[h..], elems) == Symbols(ord[h..], elems);
      SymbolsNext(ord, h - 1, elems);
    }
  }

  /** The next symbol to deal has not been dealt. */
  lemma NextFresh(ord: seq<nat>, h: nat, elems: nat)
    requires 0 < h <= |ord| && ord[h - 1] < elems && NoDup(multiset(Symbols(ord, elems)))
    ensures ord[h - 1] in Symbols(ord, elems) && ord[h - 1] !in Symbols(ord[h..], elems)
  {
    hide Symbols, NoDup;
    SymbolsSplit(ord, h, elems);
    FreshInParts(Symbols(ord[..h - 1], elems), ord[h - 1], Symbols(ord[h..], elems));
    assert Symbols(ord, elems) == Symbols(ord[..h - 1], elems) + [ord[h - 1]] + Symbols(ord[h..], elems);
  }

  lemma FreshInParts(a: seq<nat>, x: nat, b: seq<nat>)
    ensures NoDup(multiset(a + [x] + b)) ==> x !in b
  {
    if x in b {
      assert x in multiset(b);
      assert multiset(a + [x] + b)[x] >= 2;
    }
  }

  lemma CostUpdate(f: seq<nat>, lens: seq<nat>, extra: seq<nat>, x: nat, bits: nat)
    requires |f| <= |lens| && |f| == |extra| && x < |f|
    ensures BlockCost(f, lens[x := bits], extra) == BlockCost(f, lens, extra)[x := f[x] * (bits + extra[x])]
    ensures f[x] * (bits + extra[x]) - f[x] * (lens[x] + extra[x]) == (bits - lens[x]) * f[x]
  {
    assert f[x] * (bits + extra[x]) == f[x] * bits + f[x] * extra[x];
    assert f[x] * (lens[x] + extra[x]) == f[x] * lens[x] + f[x] * extra[x];
  }

  lemma SkipNode(lens: seq<nat>, bl: seq<nat>, opt: int, f: seq<nat>, extra: seq<nat>, ord: seq<nat>,
                 h: nat, bits: nat, n: nat, m: nat)
    requires Dealing(lens, bl, opt, f, extra, ord, h, bits, n, m) && n > 0
    ensures h > 0 && (ord[h - 1] >= |f| ==> Dealing(lens, bl, opt, f, extra, ord, h - 1, bits, n, m))
  {
    hide Symbols, NoDup, Dealt, SumAt;
    SymbolsOfNone(ord, |f|);
    SymbolsSplit(ord, h, |f|);
  }

  lemma SymbolsOfNone(ord: seq<nat>, elems: nat)
    ensures Symbols(ord[..0], elems) == []
  {
  }

  lemma DealNode(lens: seq<nat>, bl: seq<nat>, opt: int, f: seq<nat>, extra: seq<nat>, ord: seq<nat>,
                 h: nat, bits: nat, n: nat, m: nat)
    requires 0 < h <= |ord| && ord[h - 1] < |f| <= |lens| && |f| == |extra|
    requires Dealing(lens, bl, opt, f, extra, ord, h, bits, n, m) && n > 0 && bits > 0
    ensures Dealing(lens[ord[h - 1] := bits], bl, opt + (bits - lens[ord[h - 1]]) * f[ord[h - 1]], f, extra, ord,
                    h - 1, bits, n - 1, m)
  {
    hide Symbols, NoDup, Dealt, SumAt;
    var x := ord[h - 1];
    SymbolsSplit(ord, h, |f|);
    NextFresh(ord, h, |f|);
    DealStep(lens, bl, Symbols(ord[h..], |f|), bits, n, m, x);
    CostUpdate(f, lens, extra, x, bits);
    SumUpdate(BlockCost(f, lens, extra), Symbols(ord, |f|), x, f[x] * (bits + extra[x]));
  }

  lemma NextLength(lens: seq<nat>, bl: seq<nat>, opt: int, f: seq<nat>, extra: seq<nat>, ord: seq<nat>,
                   h: nat, bits: nat, m: nat)
    requires 0 < bits <= m < |bl|
    requires Dealing(lens, bl, opt, f, extra, ord, h, bits, 0, m)
    ensures Dealing(lens, bl, opt, f, extra, ord, h, bits - 1, bl[bits - 1], m)
  {
    hide Symbols, NoDup, SumAt, CountLen;
  }

  /** Nothing is left to deal: the counts are those of all the symbols. */
  lemma DealtAll(lens: seq<nat>, bl: seq<nat>, opt: int, f: seq<nat>, extra: seq<nat>, ord: seq<nat>, h: nat, m: nat)
    requires Dealing(lens, bl, opt, f, extra, ord, h, 0, 0, m) && bl[0] == 0
    ensures Counts(bl, lens, Symbols(ord, |f|), m)
    ensures forall x :: x in Symbols(ord, |f|) ==> x < |lens| && 1 <= lens[x] <= m
    ensures LengthsRise(lens, Symbols(ord, |f|))
  {
    hide Symbols, NoDup, SumAt, CountLen, BlockCost;
    SymbolsSplit(ord, h, |f|);
    var us := Symbols(ord, |f|);
    assert us == Symbols(ord[h..], |f|);
    assert forall i :: 0 <= i < |us| ==> 1 <= lens[us[i]] <= m;
  }

  lemma DealStart(lens: seq<nat>, bl: seq<nat>, opt: int, f: seq<nat>, extra: seq<nat>, ord: seq<nat>, m: nat)
    requires |f| <= |lens| && |f| == |extra| && NoDup(multiset(Symbols(ord, |f|))) && m < |bl|
    requires InTable(Symbols(ord, |f|), f) && |Symbols(ord, |f|)| == TotalCount(bl, m + 1)
    requires opt == SumAt(BlockCost(f, lens, extra), Symbols(ord, |f|))
    ensures Dealing(lens, bl, opt, f, extra, ord, |ord|, m, bl[m], m)
  {
    hide NoDup, SumAt, Dealt, Symbols, BlockCost;
    DealtNone(lens, bl, m);
    SymbolsEnds(ord, |f|);
  }

  lemma SymbolsEnds(ord: seq<nat>, elems: nat)
    ensures Symbols(ord[|ord|..], elems) == [] && Symbols(ord[..|ord|], elems) == Symbols(ord, elems)
  {
    assert ord[..|ord|] == ord;
  }

  lemma DealtNone(lens: seq<nat>, bl: seq<nat>, m: nat)
    requires m < |bl|
    ensures Dealt(lens, bl, [], m, bl[m], m)
  {
    hide CountLen;
    EmptySums(lens, m);
  }

  /** The last loops of gen_bitlen. */
  method Deal(heap: array<nat>, heapMax: nat, freq: array<nat>, dl: array<nat>, blCount: array<nat>,
              maxCode: int, m: nat, extra: seq<nat>, ghost f: seq<nat>, optLen: int)
    returns (opt: int, ghost stop: nat)
    requires dl != heap && dl != freq && dl != blCount
    requires heapMax < heap.Length && m < blCount.Length
    requires |f| <= freq.Length && f == freq[..|f|] && |f| <= dl.Length && maxCode < |f|
    requires forall i :: heapMax <= i < heap.Length && heap[i] < |f| ==> heap[i] <= maxCode
    requires Dealing(dl[..], blCount[..], optLen, f, extra, heap[..][heapMax..], heap.Length - heapMax, m, blCount[m], m)
    modifies dl
    ensures Dealing(dl[..], blCount[..], opt, f, extra, heap[..][heapMax..], stop, 0, blCount[0], m)
    ensures forall x :: 0 <= x < |f| && x !in Symbols(heap[..][heapMax..], |f|) ==> dl[x] == old(dl[x])
  {
    hide Dealing, Symbols;
    ghost var ord := heap[..][heapMax..];
    opt := optLen;
    var h: nat, bits: nat := heap.Length, m;
    while bits != 0
      invariant heapMax <= h <= heap.Length && bits <= m
      invariant Dealing(dl[..], blCount[..], opt, f, extra, ord, h - heapMax, bits, blCount[bits], m)
      invariant forall x :: 0 <= x < |f| && x !in Symbols(ord, |f|) ==> dl[x] == old(dl[x])
    {
      h, opt := DealBits(heap, heapMax, freq, dl, blCount, maxCode, m, extra, f, opt, h, bits);
      NextLength(dl[..], blCount[..], opt, f, extra, ord, h - heapMax, bits, m);
      bits := bits - 1;
    }
    stop := h - heapMax;
  }

  method DealBits(heap: array<nat>, heapMax: nat, freq: array<nat>, dl: array<nat>, blCount: array<nat>,
                  maxCode: int, m: nat, extra: seq<nat>, ghost f: seq<nat>, optLen: int, from: nat, bits: nat)
    returns (h: nat, opt: int)
    requires dl != heap && dl != freq && dl != blCount
    requires heapMax <= from <= heap.Length && 0 < bits <= m < blCount.Length
    requires |f| <= freq.Length && f == freq[..|f|] && |f| <= dl.Length && maxCode < |f|
    requires forall i :: heapMax <= i < heap.Length && heap[i] < |f| ==> heap[i] <= maxCode
    requires Dealing(dl[..], blCount[..], optLen, f, extra, heap[..][heapMax..], from - heapMax, bits, blCount[bits], m)
    modifies dl
    ensures heapMax <= h <= heap.Length
    ensures Dealing(dl[..], blCount[..], opt, f, extra, heap[..][heapMax..], h - heapMax, bits, 0, m)
    ensures forall x :: 0 <= x < |f| && x !in Symbols(heap[..][heapMax..], |f|) ==> dl[x] == old(dl[x])
  {
    hide Dealing, Symbols;
    ghost var ord, bl := heap[..][heapMax..], blCount[..];
    h, opt := from, optLen;
    var n := blCount[bits];
    while n != 0
      invariant heapMax <= h <= heap.Length && 0 <= n
      invariant Dealing(dl[..], bl, opt, f, extra, ord, h - heapMax, bits, n, m)
      invariant forall x :: 0 <= x < |f| && x !in Symbols(ord, |f|) ==> dl[x] == old(dl[x])
      decreases h
    {
      SkipNode(dl[..], bl, opt, f, extra, ord, h - heapMax, bits, n, m);
      h := h - 1;
      var x := heap[h];
      assert x == ord[h - heapMax];
      if x > maxCode {
        continue;
      }
      ghost var lens := dl[..];
      DealUsed(lens, bl, opt, f, extra, ord, h + 1 - heapMax, bits, n, m);
      DealNode(lens, bl, opt, f, extra, ord, h + 1 - heapMax, bits, n, m);
      if dl[x] != bits {
        opt := opt + (bits - dl[x]) * freq[x];
        dl[x] := bits;
      }
      assert dl[..] == lens[x := bits];
      n := n - 1;
    }
  }

  lemma DealUsed(lens: seq<nat>, bl: seq<nat>, opt: int, f: seq<nat>, extra: seq<nat>, ord: seq<nat>,
                 h: nat, bits: nat, n: nat, m: nat)
    requires Dealing(lens, bl, opt, f, extra, ord, h, bits, n, m) && 0 < h && ord[h - 1] < |f|
    ensures |f| == |extra| && ord[h - 1] in Symbols(ord, |f|)
  {
    hide Symbols, NoDup, Dealt, SumAt;
    NextFresh(ord, h, |f|);
  }
}
