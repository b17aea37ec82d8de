/**
 The first pass of gen_bitlen over the list of nodes (archival/gzip.c): fathers come before
 their sons, so the length of a node is one more than that of its father, cut at the maximum.
 */
module LengthPass {
  import opened Words
  import opened Sums
  import opened CodeCounts
  import opened HuffmanCost
  import opened HuffmanTree
  import opened HuffmanGrow
  import opened HuffmanBuild
  import opened TreeLengths

  ghost predicate Listed(dad: seq<nat>, ord: seq<nat>) {
    && 0 < |ord| && NoDup(multiset(ord))
    && (forall i :: 0 <= i < |ord| ==> ord[i] < |dad|)
    && (forall i :: 1 <= i < |ord| ==> dad[ord[i]] in ord[..i])
  }

  /** The array of fathers after the first i nodes have been given their lengths. */
  ghost function PassTo(dad: seq<nat>, ord: seq<nat>, m: nat, i: nat): (r: seq<nat>)
    requires 1 <= i <= |ord| && Listed(dad, ord)
    ensures |r| == |dad|
  {
    if i == 1 then dad[ord[0] := 0]
    else
      var prev := PassTo(dad, ord, m, i - 1);
      var n := ord[i - 1];
      assert dad[n] in ord[..i - 1];
      prev[n := Cut(prev[dad[n]] + 1, m)]
  }

  lemma Distinct(ord: seq<nat>, i: nat, j: nat)
    requires i < j < |ord| && NoDup(multiset(ord))
    ensures ord[i] != ord[j]
  {
    assert ord == ord[..i] + [ord[i]] + ord[i + 1..j] + [ord[j]] + ord[j + 1..];
    assert multiset(ord)[ord[i]] >= 1 + multiset([ord[j]])[ord[i]];
  }

  /** A length is final once it is given; a father is on record until then. */
  lemma {:induction false} PassFinal(dad: seq<nat>, ord: seq<nat>, m: nat, i: nat, j: nat, k: nat)
    requires Listed(dad, ord) && 1 <= i <= j <= |ord| && k < |ord|
    ensures k < i ==> PassTo(dad, ord, m, j)[ord[k]] == PassTo(dad, ord, m, i)[ord[k]]
    ensures k >= j ==> PassTo(dad, ord, m, j)[ord[k]] == dad[ord[k]]
    decreases j
  {
    hide NoDup;
    if k >= j {
      Distinct(ord, j - 1, k);
      if j > 1 {
        PassFinal(dad, ord, m, 1, j - 1, k);
      }
    } else if i < j && k < i {
      Distinct(ord, k, j - 1);
      PassFinal(dad, ord, m, i, j - 1, k);
    }
  }

  ghost function Lengths(dad: seq<nat>, ord: seq<nat>, m: nat): seq<nat>
    requires Listed(dad, ord)
  {
    PassTo(dad, ord, m, |ord|)
  }

  /** In the result, every node is one longer than its father, cut at the maximum. */
  lemma PassResult(dad: seq<nat>, ord: seq<nat>, m: nat, k: nat)
    requires Listed(dad, ord) && k < |ord|
    ensures var lens := Lengths(dad, ord, m);
            if k == 0 then lens[ord[0]] == 0
            else dad[ord[k]] < |lens| && lens[ord[k]] == Cut(lens[dad[ord[k]]] + 1, m)
    ensures k >= 1 ==> var prev := PassTo(dad, ord, m, k);
                       prev[ord[k]] == dad[ord[k]] && prev[dad[ord[k]]] == Lengths(dad, ord, m)[dad[ord[k]]]
  {
    hide NoDup, PassTo, Listed;
    NodeInTable(dad, ord, k);
    PassStep(dad, ord, m, k);
    PassFinal(dad, ord, m, k + 1, |ord|, k);
    if k >= 1 {
      FatherPassed(dad, ord, m, k);
      PassFinal(dad, ord, m, k, k, k);
    }
  }

  lemma NodeInTable(dad: seq<nat>, ord: seq<nat>, k: nat)
    requires Listed(dad, ord) && k < |ord|
    ensures ord[k] < |dad|
  {
  }

  lemma PassStep(dad: seq<nat>, ord: seq<nat>, m: nat, k: nat)
    requires Listed(dad, ord) && k < |ord|
    ensures k == 0 ==> PassTo(dad, ord, m, 1) == dad[ord[0] := 0]
    ensures k >= 1 ==> dad[ord[k]] in ord[..k] && dad[ord[k]] < |dad|
    ensures k >= 1 ==> var prev := PassTo(dad, ord, m, k);
                       PassTo(dad, ord, m, k + 1) == prev[ord[k] := Cut(prev[dad[ord[k]]] + 1, m)]
  {
    hide NoDup;
  }

  lemma FatherPassed(dad: seq<nat>, ord: seq<nat>, m: nat, k: nat)
    requires Listed(dad, ord) && 1 <= k < |ord|
    ensures dad[ord[k]] < |dad| && PassTo(dad, ord, m, k)[dad[ord[k]]] == Lengths(dad, ord, m)[dad[ord[k]]]
  {
    hide NoDup, PassTo;
    var j :| 0 <= j < k && ord[..k][j] == dad[ord[k]];
    PassFinal(dad, ord, m, k, |ord|, j);
  }

  lemma FatherCut(dad: seq<nat>, ord: seq<nat>, m: nat, k: nat)
    requires Listed(dad, ord) && 1 <= k < |ord|
    ensures dad[ord[k]] < |dad| && Lengths(dad, ord, m)[dad[ord[k]]] <= m
  {
    hide NoDup, PassTo;
    var j :| 0 <= j < k && ord[..k][j] == dad[ord[k]];
    PassResult(dad, ord, m, j);
  }

  /** The symbols of a list of nodes. */
  function Symbols(ns: seq<nat>, elems: nat): seq<nat> {
    if ns == [] then []
    else if ns[|ns| - 1] < elems then Symbols(ns[..|ns| - 1], elems) + [ns[|ns| - 1]]
    else Symbols(ns[..|ns| - 1], elems)
  }

  lemma {:induction false} SymbolsCount(ns: seq<nat>, elems: nat, x: nat)
    ensures multiset(Symbols(ns, elems))[x] == if x < elems then multiset(ns)[x] else 0
  {
    if ns != [] {
      var k := |ns| - 1;
      SymbolsCount(ns[..k], elems, x);
      assert ns == ns[..k] + [ns[k]];
    }
  }

  lemma SymbolsPermuted(a: seq<nat>, b: seq<nat>, elems: nat)
    requires multiset(a) == multiset(b)
    ensures multiset(Symbols(a, elems)) == multiset(Symbols(b, elems))
  {
    forall x
      ensures multiset(Symbols(a, elems))[x] == multiset(Symbols(b, elems))[x]
    {
      SymbolsCount(a, elems, x);
      SymbolsCount(b, elems, x);
    }
  }

  lemma {:induction false} SymbolsAppend(a: seq<nat>, b: seq<nat>, elems: nat)
    ensures Symbols(a + b, elems) == Symbols(a, elems) + Symbols(b, elems)
  {
    if b == [] {
      assert a + b == a;
    } else {
      var k := |b| - 1;
      SymbolsAppend(a, b[..k], elems);
      assert (a + b)[..|a| + k] == a + b[..k];
    }
  }

  /** The symbols among the nodes of a tree are its leaves. */
  lemma {:induction false} SymbolsOfTree(t: Tree, elems: nat)
    requires Numbered(t, elems)
    ensures Symbols([t.id] + Proper(t), elems) == Leaves(t)
  {
    hide Symbols;
    SymbolsOfOne(t.id, elems);
    match t
    case Leaf(n) =>
      assert [n] + Proper(t) == [n];
    case Node(n, l, r) =>
      SymbolsOfTree(l, elems);
      SymbolsOfTree(r, elems);
      SymbolsAppend([l.id] + Proper(l), [r.id] + Proper(r), elems);
      SymbolsAppend([n], Proper(t), elems);
      assert [] + Symbols(Proper(t), elems) == Symbols(Proper(t), elems);
  }

  lemma SymbolsOfOne(n: nat, elems: nat)
    ensures Symbols([n], elems) == if n < elems then [n] else []
  {
    assert [n][..0] == [];
  }

  /** The list of nodes holds each used symbol once. */
  lemma SymbolsListed(t: Tree, f: seq<nat>, dad: seq<nat>, ord: seq<nat>)
    requires TreeBuilt(t, f, dad, ord)
    ensures Listed(dad, ord) && multiset(Symbols(ord, |f|)) == multiset(UsedTo(f, |f|))
  {
    hide NoDup, UsedTo, InnerCost, Proper, Symbols, Linked, Leaves, BagAt;
    SymbolsOfTree(t, |f|);
    assert ord == [ord[0]] + ord[1..];
    ConsMultiset(t.id, ord[1..], Proper(t));
    SymbolsPermuted(ord, [t.id] + Proper(t), |f|);
  }

  /** The lengths of the pass are the cut depths in the tree. */
  lemma PassDepths(t: Tree, f: seq<nat>, dad: seq<nat>, ord: seq<nat>, m: nat)
    requires TreeBuilt(t, f, dad, ord) && Listed(dad, ord)
    ensures HasDepths(t, Lengths(dad, ord, m), 0, m)
  {
    hide NoDup, UsedTo, InnerCost, PassTo, Proper, Leaves, BagAt, Linked;
    var lens := Lengths(dad, ord, m);
    PassResult(dad, ord, m, 0);
    forall x | x in Proper(t)
      ensures x < |dad| && dad[x] < |lens| && lens[x] == Cut(lens[dad[x]] + 1, m)
    {
      assert x in multiset(ord[1..]);
      var k :| 0 <= k < |ord| - 1 && ord[1..][k] == x;
      PassResult(dad, ord, m, k + 1);
    }
    DepthsFollow(t, lens, dad, 0, m);
  }

  /** The overflow count of the pass. */
  ghost function Excess(dad: seq<nat>, ord: seq<nat>, m: nat): int
    requires Listed(dad, ord)
  {
    SumAt(TooDeep(Lengths(dad, ord, m), dad, m), ord[1..])
  }

  /** What the pass leaves: lengths within the maximum, and the excess of their Kraft sum. */
  lemma PassSums(t: Tree, f: seq<nat>, dad: seq<nat>, ord: seq<nat>, m: nat, us: seq<nat>)
    requires TreeBuilt(t, f, dad, ord) && Listed(dad, ord) && multiset(us) == multiset(UsedTo(f, |f|))
    ensures var lens := Lengths(dad, ord, m);
            && InTable(us, lens) && 0 <= Excess(dad, ord, m)
            && 2 * KraftAt(lens, us, m) == 2 * Pow2(m) + Excess(dad, ord, m)
            && (Excess(dad, ord, m) > 0 ==> 2 * CountLen(lens, us, m) >= Excess(dad, ord, m) + 2)
  {
    hide NoDup, UsedTo, InnerCost, PassTo, Proper, Leaves, BagAt, Linked, SumAt;
    var lens := Lengths(dad, ord, m);
    PassDepths(t, f, dad, ord, m);
    LeafSums(t, lens, 0, m);
    ProperSums(t, lens, dad, 0, m);
    KraftExcess(t, 0, m);
    SumPermuted(KraftTable(lens, m), Leaves(t), us);
    SumPermuted(LenIs(lens, m), Leaves(t), us);
    SumPermuted(TooDeep(lens, dad, m), Proper(t), ord[1..]);
  }

  lemma PassRange(t: Tree, f: seq<nat>, dad: seq<nat>, ord: seq<nat>, m: nat, x: nat)
    requires TreeBuilt(t, f, dad, ord) && Listed(dad, ord) && x in UsedTo(f, |f|)
    requires 0 < m && 2 <= |UsedTo(f, |f|)|
    ensures x < |dad| && 1 <= Lengths(dad, ord, m)[x] <= m
  {
    hide NoDup, UsedTo, InnerCost, PassTo, Proper, BagAt, Linked;
    PassDepths(t, f, dad, ord, m);
    assert x in multiset(Leaves(t));
    assert |Leaves(t)| == |multiset(Leaves(t))| == |multiset(UsedTo(f, |f|))| == |UsedTo(f, |f|)|;
    LeafLengths(t, Lengths(dad, ord, m), 0, m, x);
  }

  /** Without overflow the message is as short as the greedy construction makes it. */
  lemma PassCost(t: Tree, f: seq<nat>, dad: seq<nat>, ord: seq<nat>, m: nat, us: seq<nat>)
    requires TreeBuilt(t, f, dad, ord) && Listed(dad, ord) && multiset(us) == multiset(UsedTo(f, |f|))
    requires Excess(dad, ord, m) == 0
    ensures InTable(us, f) && InTable(UsedTo(f, |f|), f)
    ensures SumAt(Weighted(f, Lengths(dad, ord, m)), us) == HuffCost(BagAt(f, UsedTo(f, |f|)))
  {
    hide NoDup, UsedTo, InnerCost, PassTo, Proper, Leaves, BagAt, Linked, SumAt;
    var lens := Lengths(dad, ord, m);
    PassDepths(t, f, dad, ord, m);
    ProperSums(t, lens, dad, 0, m);
    SumPermuted(TooDeep(lens, dad, m), Proper(t), ord[1..]);
    DepthCost(t, f, lens, 0, m);
    SumPermuted(Weighted(f, lens), Leaves(t), us);
  }
}
