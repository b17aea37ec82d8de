/** The depths of the leaves of a Huffman tree, cut at a maximum. */
module TreeLengths {
  import opened Words
  import opened Sums
  import opened CodeCounts
  import opened HuffmanTree

  function Cut(d: nat, m: nat): nat {
    if d < m then d else m
  }

  /** lens holds the cut depth of every node of t, whose root is at depth d. */
  predicate HasDepths(t: Tree, lens: seq<nat>, d: nat, m: nat) {
    && t.id < |lens| && lens[t.id] == Cut(d, m)
    && match t
       case Leaf(_) => true
       case Node(_, l, r) => HasDepths(l, lens, d + 1, m) && HasDepths(r, lens, d + 1, m)
  }

  /** The number of nodes below the root that are deeper than m. */
  function Over(t: Tree, d: nat, m: nat): nat {
    match t
    case Leaf(_) => 0
    case Node(_, l, r) => (if d + 1 > m then 2 else 0) + Over(l, d + 1, m) + Over(r, d + 1, m)
  }

  /** The Kraft sum of the cut depths. */
  function KraftTree(t: Tree, d: nat, m: nat): nat {
    match t
    case Leaf(_) => Pow2(m - Cut(d, m))
    case Node(_, l, r) => KraftTree(l, d + 1, m) + KraftTree(r, d + 1, m)
  }

  /** The number of leaves at depth m or deeper. */
  function Deepest(t: Tree, d: nat, m: nat): nat {
    match t
    case Leaf(_) => if d >= m then 1 else 0
    case Node(_, l, r) => Deepest(l, d + 1, m) + Deepest(r, d + 1, m)
  }

  /** Below the maximum, the excess of the Kraft sum is half the number of nodes that are too deep. */
  lemma {:induction false} KraftExcess(t: Tree, d: nat, m: nat)
    ensures d >= m ==> Over(t, d, m) + 2 == 2 * KraftTree(t, d, m) == 2 * Deepest(t, d, m)
    ensures d <= m ==> 2 * KraftTree(t, d, m) == 2 * Pow2(m - d) + Over(t, d, m)
    ensures d <= m && Over(t, d, m) > 0 ==> 2 * Deepest(t, d, m) >= Over(t, d, m) + 2
  {
    match t
    case Leaf(_) =>
    case Node(_, l, r) =>
      KraftExcess(l, d + 1, m);
      KraftExcess(r, d + 1, m);
  }

  /** The cut depths follow from the depths of the fathers. */
  lemma {:induction false} DepthsFollow(t: Tree, lens: seq<nat>, dad: seq<nat>, d: nat, m: nat)
    requires Linked(t, dad) && |dad| <= |lens| && t.id < |lens| && lens[t.id] == Cut(d, m)
    requires forall x :: x in Proper(t) ==> x < |dad| && dad[x] < |lens| && lens[x] == Cut(lens[dad[x]] + 1, m)
    ensures HasDepths(t, lens, d, m)
  {
    match t
    case Leaf(_) =>
    case Node(_, l, r) =>
      assert Proper(t) == ([l.id] + Proper(l)) + ([r.id] + Proper(r));
      assert l.id in Proper(t) && r.id in Proper(t);
      assert forall x :: x in Proper(l) || x in Proper(r) ==> x in Proper(t);
      DepthsFollow(l, lens, dad, d + 1, m);
      DepthsFollow(r, lens, dad, d + 1, m);
  }

  /** 1 for every node whose father is at the maximum already. */
  function TooDeep(lens: seq<nat>, dad: seq<nat>, m: nat): (r: seq<int>)
    requires |dad| == |lens|
    ensures |r| == |lens|
    ensures forall i :: 0 <= i < |lens| ==> r[i] == if dad[i] < |lens| && lens[dad[i]] == m then 1 else 0
  {
    seq(|lens|, i requires 0 <= i < |lens| => if dad[i] < |lens| && lens[dad[i]] == m then 1 else 0)
  }

  /** The sums over the leaves, from the structure of the tree. */
  lemma {:induction false} LeafSums(t: Tree, lens: seq<nat>, d: nat, m: nat)
    requires HasDepths(t, lens, d, m)
    ensures InTable(Leaves(t), lens) && KraftAt(lens, Leaves(t), m) == KraftTree(t, d, m)
    ensures CountLen(lens, Leaves(t), m) == Deepest(t, d, m)
  {
    match t
    case Leaf(n) =>
      SumOne(KraftTable(lens, m), n);
      SumOne(LenIs(lens, m), n);
    case Node(_, l, r) =>
      LeafSums(l, lens, d + 1, m);
      LeafSums(r, lens, d + 1, m);
      SumAppend(KraftTable(lens, m), Leaves(l), Leaves(r));
      SumAppend(LenIs(lens, m), Leaves(l), Leaves(r));
  }

  lemma {:induction false} LeafLengths(t: Tree, lens: seq<nat>, d: nat, m: nat, x: nat)
    requires HasDepths(t, lens, d, m) && x in Leaves(t)
    ensures x < |lens| && lens[x] <= m && (m > 0 && (d > 0 || t.Node?) ==> lens[x] > 0)
  {
    match t
    case Leaf(_) =>
    case Node(_, l, r) =>
      if x in Leaves(l) {
        LeafLengths(l, lens, d + 1, m, x);
      } else {
        LeafLengths(r, lens, d + 1, m, x);
      }
  }

  lemma {:induction false} ProperSums(t: Tree, lens: seq<nat>, dad: seq<nat>, d: nat, m: nat)
    requires HasDepths(t, lens, d, m) && Linked(t, dad) && |dad| == |lens|
    ensures InTable(Proper(t), lens) && SumAt(TooDeep(lens, dad, m), Proper(t)) == Over(t, d, m)
  {
    match t
    case Leaf(_) =>
    case Node(_, l, r) =>
      var table := TooDeep(lens, dad, m);
      ProperSums(l, lens, dad, d + 1, m);
      ProperSums(r, lens, dad, d + 1, m);
      SumCons(table, l.id, Proper(l));
      SumCons(table, r.id, Proper(r));
      SumAppend(table, [l.id] + Proper(l), [r.id] + Proper(r));
  }

  /** What each symbol adds to a message: its frequency times its length. */
  function Weighted(f: seq<nat>, lens: seq<nat>): (r: seq<int>)
    requires |f| <= |lens|
    ensures |r| == |f| && forall i :: 0 <= i < |f| ==> r[i] == f[i] * lens[i]
  {
    seq(|f|, i requires 0 <= i < |f| => f[i] * lens[i])
  }

  /** If no node is too deep, the length of the message is the weight of the inner nodes. */
  lemma {:induction false} DepthCost(t: Tree, f: seq<nat>, lens: seq<nat>, d: nat, m: nat)
    requires HasDepths(t, lens, d, m) && Over(t, d, m) == 0 && d <= m && Numbered(t, |f|) && |f| <= |lens|
    ensures InTable(Leaves(t), f) && SumAt(Weighted(f, lens), Leaves(t)) == InnerCost(t, f) + d * Weight(t, f)
  {
    match t
    case Leaf(n) =>
      SumOne(Weighted(f, lens), n);
      assert f[n] * lens[n] == d * Weight(t, f);
    case Node(_, l, r) =>
      DepthCost(l, f, lens, d + 1, m);
      DepthCost(r, f, lens, d + 1, m);
      SumAppend(Weighted(f, lens), Leaves(l), Leaves(r));
      NextLevel(d, Weight(l, f), Weight(r, f));
  }

  lemma NextLevel(d: nat, a: nat, b: nat)
    ensures (d + 1) * a + (d + 1) * b == (a + b) + d * (a + b)
  {
    Distribute(d, 1, a);
    Distribute(d, 1, b);
    assert d * (a + b) == d * a + d * b;
  }
}
