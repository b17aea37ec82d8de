/**
 Codes with a limit on their lengths (archival/gzip.c, build_tree and gen_bitlen): the tree is high only if
 every optimal code needs a length like that, so the lengths are optimal whenever the limit allows it.
 */
module LimitedCodes {
  import opened Words
  import opened Sums
  import opened CodeCounts
  import opened HuffmanCost
  import opened HuffmanTree
  import opened HuffmanGrow
  import opened HuffmanHeight
  import opened HuffmanBuild
  import opened TreeLengths
  import opened HuffmanDepth
  import opened LengthPass
  import opened CodeLengths

  /** Some prefix code with lengths up to m makes the message as short as any does. */
  ghost predicate OptimalWithin(f: seq<nat>, m: nat) {
    && InTable(UsedTo(f, |f|), f)
    && exists other: seq<nat> ::
         |f| <= |other| && AtMost(other, UsedTo(f, |f|), m) && KraftAt(other, UsedTo(f, |f|), m) <= Pow2(m) && Optimal(f, other)
  }

  /** A height that every optimal code needs. */
  ghost predicate Needed(t: Tree, f: seq<nat>) {
    Height(t) < 256 ==> forall m: nat :: OptimalWithin(f, m) ==> Height(t) <= m
  }

  /** The depths in the tree, not cut, are lengths of a code that costs what the greedy construction does. */
  lemma UncutCost(t: Tree, f: seq<nat>, dad: seq<nat>, ord: seq<nat>) returns (lens: seq<nat>)
    requires TreeBuilt(t, f, dad, ord)
    ensures |f| <= |lens| && InTable(UsedTo(f, |f|), f) && AtMost(lens, UsedTo(f, |f|), Height(t))
    ensures KraftAt(lens, UsedTo(f, |f|), Height(t)) == Pow2(Height(t))
    ensures SumAt(Weighted(f, lens), UsedTo(f, |f|)) == HuffCost(BagAt(f, UsedTo(f, |f|)))
  {
    hide NoDup, UsedTo, SumAt, PassTo, BagAt, HuffCost, Proper, Linked, InnerCost, Height, KraftTable, Attains, Heavy;
    var us, m := UsedTo(f, |f|), Height(t);
    SymbolsListed(t, f, dad, ord);
    NotTooDeep(t, 0, m);
    ExcessIsOver(t, f, dad, ord, m);
    PassSums(t, f, dad, ord, m, us);
    PassCost(t, f, dad, ord, m, us);
    lens := Lengths(dad, ord, m);
    PassDepths(t, f, dad, ord, m);
    forall i | 0 <= i < |us|
      ensures lens[us[i]] <= m
    {
      assert us[i] in multiset(Leaves(t));
      LeafLengths(t, lens, 0, m, us[i]);
    }
  }

  /** A code for the symbols, as depths for their leaves. */
  function Leaved(us: seq<nat>, lens: seq<nat>): (s: seq<Bough>)
    requires InTable(us, lens)
    ensures |s| == |us| && forall i :: 0 <= i < |us| ==> s[i] == Bough(Leaf(us[i]), lens[us[i]])
  {
    seq(|us|, i requires 0 <= i < |us| => Bough(Leaf(us[i]), lens[us[i]]))
  }

  lemma CodeAttains(f: seq<nat>, other: seq<nat>, us: seq<nat>, m: nat)
    requires InTable(us, f) && |f| <= |other| && AtMost(other, us, m) && KraftAt(other, us, m) <= Pow2(m)
    requires SumAt(Weighted(f, other), us) <= HuffCost(BagAt(f, us))
    ensures Attains(LeafForest(us), f, m)
  {
    hide SumAt, BagAt, HuffCost, KraftAt, Kraft, Cost, Weights, Leaved;
    var s := Leaved(us, other);
    ItemSums(f, other, us, m);
    assert Reaches(s, f, m);
    assert Loads(s, f, m) == Items(f, other, us);
    assert Hung(s, f, m);
    assert Trees(s) == LeafForest(us);
  }

  /** No optimal code has all its lengths below the height of the tree. */
  lemma HeightIsNeeded(t: Tree, f: seq<nat>, dad: seq<nat>, ord: seq<nat>)
    requires TreeBuilt(t, f, dad, ord)
    ensures Needed(t, f)
  {
    hide UsedTo, SumAt, KraftAt, HuffCost, BagAt, Attains, Height, Proper, Linked, InnerCost, NoDup, Heavy, Leaves;
    var lens := UncutCost(t, f, dad, ord);
    var us := UsedTo(f, |f|);
    if Height(t) < 256 {
      forall m: nat | OptimalWithin(f, m)
        ensures Height(t) <= m
      {
        var other :| |f| <= |other| && AtMost(other, us, m) && KraftAt(other, us, m) <= Pow2(m) && Optimal(f, other);
        CodeAttains(f, other, us, m);
      }
    }
  }

  /** Below Fib(258) occurrences the heights fit into a byte. */
  lemma FitsByte(t: Tree, f: seq<nat>)
    requires Numbered(t, |f|) && Heavy(t, f) && multiset(Leaves(t)) == multiset(UsedTo(f, |f|)) && Total(f, |f|) < Fib(258)
    ensures Height(t) < 256
  {
    hide Heavy, Numbered, Weight, Under, UsedTo, Positive, Fib, Height, Leaves;
    TreeTotal(t, f);
    DeepIsHeavy(t, f, Weight(t, f));
    if Height(t) >= 256 {
      FibRises(258, Height(t) + 2);
    }
  }
}
