/**
 Forests of Huffman trees.  A tree carries the node numbers that the construction uses for its
 arrays; the leaves are symbols.
 */
module HuffmanTree {
  import opened Sums
  import opened HuffmanCost

  datatype Tree = Leaf(id: nat) | Node(id: nat, left: Tree, right: Tree)

  /** The nodes below the root. */
  function Proper(t: Tree): seq<nat> {
    match t
    case Leaf(_) => []
    case Node(_, l, r) => ([l.id] + Proper(l)) + ([r.id] + Proper(r))
  }

  function Leaves(t: Tree): (s: seq<nat>)
    ensures |s| >= 1
  {
    match t
    case Leaf(n) => [n]
    case Node(_, l, r) => Leaves(l) + Leaves(r)
  }

  function Height(t: Tree): nat {
    match t
    case Leaf(_) => 0
    case Node(_, l, r) => 1 + if Height(l) > Height(r) then Height(l) else Height(r)
  }

  /** The father of every node below the root is recorded in dad. */
  predicate Linked(t: Tree, dad: seq<nat>) {
    match t
    case Leaf(_) => true
    case Node(n, l, r) =>
      && l.id < |dad| && dad[l.id] == n && Linked(l, dad)
      && r.id < |dad| && dad[r.id] == n && Linked(r, dad)
  }

  /** Leaf numbers are below elems, where the inner nodes start. */
  predicate Numbered(t: Tree, elems: nat) {
    match t
    case Leaf(n) => n < elems
    case Node(n, l, r) => elems <= n && Numbered(l, elems) && Numbered(r, elems)
  }

  /** The frequencies of the leaves, taken together. */
  function Weight(t: Tree, f: seq<nat>): nat
    requires Numbered(t, |f|)
  {
    match t
    case Leaf(n) => f[n]
    case Node(_, l, r) => Weight(l, f) + Weight(r, f)
  }

  /** The weights of the inner nodes, taken together. */
  function InnerCost(t: Tree, f: seq<nat>): nat
    requires Numbered(t, |f|)
  {
    match t
    case Leaf(_) => 0
    case Node(_, l, r) => Weight(t, f) + InnerCost(l, f) + InnerCost(r, f)
  }

  predicate AllNumbered(forest: seq<Tree>, elems: nat) {
    forall i :: 0 <= i < |forest| ==> Numbered(forest[i], elems)
  }

  function Roots(forest: seq<Tree>): (s: seq<nat>)
    ensures |s| == |forest| && forall i :: 0 <= i < |s| ==> s[i] == forest[i].id
  {
    seq(|forest|, i requires 0 <= i < |forest| => forest[i].id)
  }

  ghost function ForestProper(forest: seq<Tree>): multiset<nat> {
    if forest == [] then multiset{} else multiset(Proper(forest[0])) + ForestProper(forest[1..])
  }

  ghost function ForestLeaves(forest: seq<Tree>): multiset<nat> {
    if forest == [] then multiset{} else multiset(Leaves(forest[0])) + ForestLeaves(forest[1..])
  }

  ghost function ForestCost(forest: seq<Tree>, f: seq<nat>): nat
    requires AllNumbered(forest, |f|)
  {
    if forest == [] then 0 else InnerCost(forest[0], f) + ForestCost(forest[1..], f)
  }

  ghost function ForestWeights(forest: seq<Tree>, f: seq<nat>): multiset<nat>
    requires AllNumbered(forest, |f|)
  {
    if forest == [] then multiset{} else multiset{Weight(forest[0], f)} + ForestWeights(forest[1..], f)
  }

  /** Taking one tree out of a forest. */
  lemma {:induction false} TakeTreeProper(forest: seq<Tree>, i: nat)
    requires i < |forest|
    ensures ForestProper(forest) == multiset(Proper(forest[i])) + ForestProper(Drop(forest, i))
  {
    hide Proper;
    if i == 0 {
      assert Drop(forest, 0) == forest[1..];
    } else {
      TakeTreeProper(forest[1..], i - 1);
      var r := Drop(forest, i);
      assert r[0] == forest[0] && r[1..] == Drop(forest[1..], i - 1);
      BagSwap(multiset(Proper(forest[0])), multiset(Proper(forest[i])), ForestProper(r[1..]));
    }
  }

  lemma {:induction false} TakeTreeLeaves(forest: seq<Tree>, i: nat)
    requires i < |forest|
    ensures ForestLeaves(forest) == multiset(Leaves(forest[i])) + ForestLeaves(Drop(forest, i))
  {
    hide Leaves;
    if i == 0 {
      assert Drop(forest, 0) == forest[1..];
    } else {
      TakeTreeLeaves(forest[1..], i - 1);
      var r := Drop(forest, i);
      assert r[0] == forest[0] && r[1..] == Drop(forest[1..], i - 1);
      BagSwap(multiset(Leaves(forest[0])), multiset(Leaves(forest[i])), ForestLeaves(r[1..]));
    }
  }

  lemma {:induction false} TakeTreeCost(forest: seq<Tree>, i: nat, f: seq<nat>)
    requires i < |forest| && AllNumbered(forest, |f|)
    ensures AllNumbered(Drop(forest, i), |f|)
    ensures ForestCost(forest, f) == InnerCost(forest[i], f) + ForestCost(Drop(forest, i), f)
  {
    hide InnerCost, Numbered;
    if i == 0 {
      assert Drop(forest, 0) == forest[1..];
    } else {
      TakeTreeCost(forest[1..], i - 1, f);
      var r := Drop(forest, i);
      assert r[0] == forest[0] && r[1..] == Drop(forest[1..], i - 1);
    }
  }

  lemma {:induction false} TakeTreeWeight(forest: seq<Tree>, i: nat, f: seq<nat>)
    requires i < |forest| && AllNumbered(forest, |f|)
    ensures AllNumbered(Drop(forest, i), |f|)
    ensures ForestWeights(forest, f) == multiset{Weight(forest[i], f)} + ForestWeights(Drop(forest, i), f)
  {
    hide Weight, Numbered;
    if i == 0 {
      assert Drop(forest, 0) == forest[1..];
    } else {
      TakeTreeWeight(forest[1..], i - 1, f);
      var r := Drop(forest, i);
      assert r[0] == forest[0] && r[1..] == Drop(forest[1..], i - 1);
      BagSwap(multiset{Weight(forest[0], f)}, multiset{Weight(forest[i], f)}, ForestWeights(r[1..], f));
    }
  }

  /** What a forest holds does not depend on the order of its trees. */
  lemma {:induction false} ForestPermuted(a: seq<Tree>, b: seq<Tree>)
    requires multiset(a) == multiset(b)
    ensures ForestProper(a) == ForestProper(b) && ForestLeaves(a) == ForestLeaves(b)
    decreases |a|
  {
    hide Proper, Leaves, ForestProper, ForestLeaves;
    if a == [] {
      assert |multiset(b)| == |b|;
      assert b == [];
    } else {
      var i := FirstIn(a, b);
      ForestPermuted(Drop(a, 0), Drop(b, i));
      TakeTreeProper(a, 0);
      TakeTreeProper(b, i);
      TakeTreeLeaves(a, 0);
      TakeTreeLeaves(b, i);
    }
  }

  lemma FirstIn(a: seq<Tree>, b: seq<Tree>) returns (i: nat)
    requires a != [] && multiset(a) == multiset(b)
    ensures i < |b| && b[i] == a[0] && multiset(Drop(a, 0)) == multiset(Drop(b, i))
  {
    assert a[0] in multiset(b);
    i :| 0 <= i < |b| && b[i] == a[0];
    DropMultiset(a, 0);
    DropMultiset(b, i);
  }

  lemma {:induction false} ForestCostPermuted(a: seq<Tree>, b: seq<Tree>, f: seq<nat>)
    requires multiset(a) == multiset(b) && AllNumbered(a, |f|)
    ensures AllNumbered(b, |f|)
    ensures ForestCost(a, f) == ForestCost(b, f) && ForestWeights(a, f) == ForestWeights(b, f)
    decreases |a|
  {
    hide InnerCost, Weight, Numbered, ForestCost, ForestWeights;
    forall i | 0 <= i < |b| ensures Numbered(b[i], |f|) {
      assert b[i] in multiset(a);
    }
    if a == [] {
      assert |multiset(b)| == |b|;
      assert b == [];
    } else {
      var i := FirstIn(a, b);
      TakeTreeCost(a, 0, f);
      TakeTreeWeight(a, 0, f);
      TakeTreeCost(b, i, f);
      TakeTreeWeight(b, i, f);
      ForestCostPermuted(Drop(a, 0), Drop(b, i), f);
    }
  }

  /** The forest with its first two trees joined under a new root. */
  function Join(forest: seq<Tree>, n: nat): seq<Tree>
    requires |forest| >= 2
  {
    [Node(n, forest[0], forest[1])] + forest[2..]
  }

  lemma NodeProper(n: nat, l: Tree, r: Tree)
    ensures multiset(Proper(Node(n, l, r))) == multiset{l.id, r.id} + (multiset(Proper(l)) + multiset(Proper(r)))
  {
    hide Proper;
    var a, b := [l.id] + Proper(l), [r.id] + Proper(r);
    NodeProperIs(n, l, r);
    assert multiset(a) == multiset{l.id} + multiset(Proper(l));
    assert multiset(b) == multiset{r.id} + multiset(Proper(r));
  }

  lemma NodeProperIs(n: nat, l: Tree, r: Tree)
    ensures Proper(Node(n, l, r)) == ([l.id] + Proper(l)) + ([r.id] + Proper(r))
  {
  }

  lemma JoinProper(forest: seq<Tree>, n: nat)
    requires |forest| >= 2
    ensures ForestProper(Join(forest, n)) == ForestProper(forest) + multiset{forest[0].id, forest[1].id}
  {
    hide ForestProper, Proper;
    TakeTreeProper(forest, 0);
    TakeTreeProper(Drop(forest, 0), 0);
    TakeTreeProper(Join(forest, n), 0);
    var rest := Drop(Drop(forest, 0), 0);
    assert rest == Drop(Join(forest, n), 0);
    NodeProper(n, forest[0], forest[1]);
    Shuffle(multiset(Proper(forest[0])), multiset(Proper(forest[1])), ForestProper(rest),
            multiset{forest[0].id, forest[1].id});
  }

  lemma Shuffle(p: multiset<nat>, q: multiset<nat>, r: multiset<nat>, s: multiset<nat>)
    ensures (s + (p + q)) + r == (p + (q + r)) + s
  {
  }

  lemma JoinLeaves(forest: seq<Tree>, n: nat)
    requires |forest| >= 2
    ensures ForestLeaves(Join(forest, n)) == ForestLeaves(forest)
  {
    hide ForestLeaves;
    TakeTreeLeaves(forest, 0);
    TakeTreeLeaves(Drop(forest, 0), 0);
    TakeTreeLeaves(Join(forest, n), 0);
    assert Drop(Drop(forest, 0), 0) == Drop(Join(forest, n), 0);
  }

  lemma JoinCost(forest: seq<Tree>, n: nat, f: seq<nat>)
    requires |forest| >= 2 && AllNumbered(forest, |f|) && |f| <= n
    ensures AllNumbered(Join(forest, n), |f|)
    ensures var a, b := Weight(forest[0], f), Weight(forest[1], f);
            && ForestCost(Join(forest, n), f) == ForestCost(forest, f) + a + b
            && ForestWeights(forest, f) == multiset{a} + (multiset{b} + ForestWeights(forest[2..], f))
            && Weight(Join(forest, n)[0], f) == a + b
            && ForestWeights(Join(forest, n), f) ==
               multiset{Weight(Join(forest, n)[0], f)} + ForestWeights(forest[2..], f)
  {
    hide ForestCost, ForestWeights;
    TakeTreeCost(forest, 0, f);
    TakeTreeWeight(forest, 0, f);
    TakeTreeCost(Drop(forest, 0), 0, f);
    TakeTreeWeight(Drop(forest, 0), 0, f);
    TakeTreeCost(Join(forest, n), 0, f);
    TakeTreeWeight(Join(forest, n), 0, f);
    assert Drop(Drop(forest, 0), 0) == forest[2..] == Drop(Join(forest, n), 0);
  }

  /** Joining the two lightest trees is one step of the greedy construction. */
  lemma JoinGreedy(forest: seq<Tree>, n: nat, f: seq<nat>)
    requires |forest| >= 2 && AllNumbered(forest, |f|) && |f| <= n
    requires forall k :: 0 <= k < |forest| ==> Weight(forest[0], f) <= Weight(forest[k], f)
    requires forall k :: 1 <= k < |forest| ==> Weight(forest[1], f) <= Weight(forest[k], f)
    ensures AllNumbered(Join(forest, n), |f|)
    ensures ForestCost(Join(forest, n), f) + HuffCost(ForestWeights(Join(forest, n), f))
            == ForestCost(forest, f) + HuffCost(ForestWeights(forest, f))
  {
    hide ForestCost, ForestWeights, HuffCost, Weight, IsMin;
    JoinCost(forest, n, f);
    LightestWeight(forest, 0, f);
    LightestWeight(Drop(forest, 0), 0, f);
    TakeTreeCost(Drop(forest, 0), 0, f);
    TakeTreeWeight(Drop(forest, 0), 0, f);
    assert Drop(Drop(forest, 0), 0) == forest[2..];
    HuffBag(ForestWeights(forest, f), Weight(forest[0], f), Weight(forest[1], f),
            ForestWeights(forest[2..], f), ForestWeights(Join(forest, n), f), Weight(Join(forest, n)[0], f));
  }

  lemma {:induction false} WeightOfSome(forest: seq<Tree>, x: nat, f: seq<nat>) returns (k: nat)
    requires AllNumbered(forest, |f|) && x in ForestWeights(forest, f)
    ensures k < |forest| && Weight(forest[k], f) == x
  {
    if Weight(forest[0], f) == x {
      k := 0;
    } else {
      k := WeightOfSome(forest[1..], x, f);
      k := k + 1;
    }
  }

  lemma LightestWeight(forest: seq<Tree>, i: nat, f: seq<nat>)
    requires i < |forest| && AllNumbered(forest, |f|)
    requires forall k :: 0 <= k < |forest| ==> Weight(forest[i], f) <= Weight(forest[k], f)
    ensures IsMin(ForestWeights(forest, f), Weight(forest[i], f))
  {
    hide Weight, ForestWeights, ForestCost;
    var ws := ForestWeights(forest, f);
    TakeTreeCost(forest, i, f);
    TakeTreeWeight(forest, i, f);
    assert Weight(forest[i], f) in ws;
    forall x | x in ws
      ensures Weight(forest[i], f) <= x
    {
      var k := WeightOfSome(forest, x, f);
    }
  }

  /** The sons of the root weigh no more than w. */
  predicate Under(t: Tree, f: seq<nat>, w: nat)
    requires Numbered(t, |f|)
  {
    t.Node? ==> Weight(t.left, f) <= w && Weight(t.right, f) <= w
  }

  /** No node weighs more than a brother of its father. */
  predicate Heavy(t: Tree, f: seq<nat>)
    requires Numbered(t, |f|)
  {
    t.Node? ==>
      && Heavy(t.left, f) && Heavy(t.right, f)
      && Under(t.left, f, Weight(t.right, f)) && Under(t.right, f, Weight(t.left, f))
  }

  /** Every tree of the forest is like that, and would be together with any other. */
  ghost predicate Uncles(forest: seq<Tree>, f: seq<nat>)
    requires AllNumbered(forest, |f|)
  {
    && (forall i :: 0 <= i < |forest| ==> Heavy(forest[i], f))
    && forall i, k :: 0 <= i < |forest| && 0 <= k < |forest| ==> Under(forest[i], f, Weight(forest[k], f))
  }

  lemma UnclesPermuted(a: seq<Tree>, b: seq<Tree>, f: seq<nat>)
    requires multiset(a) == multiset(b) && AllNumbered(a, |f|) && AllNumbered(b, |f|) && Uncles(a, f)
    ensures Uncles(b, f)
  {
    hide Heavy, Under, Weight, Numbered;
    forall i | 0 <= i < |b|
      ensures b[i] in a
    {
      assert b[i] in multiset(a);
    }
  }

  /** Joining the two lightest trees keeps that. */
  lemma JoinUncles(forest: seq<Tree>, n: nat, f: seq<nat>)
    requires |forest| >= 2 && AllNumbered(forest, |f|) && |f| <= n && Uncles(forest, f)
    requires forall k :: 0 <= k < |forest| ==> Weight(forest[0], f) <= Weight(forest[k], f)
    requires forall k :: 1 <= k < |forest| ==> Weight(forest[1], f) <= Weight(forest[k], f)
    ensures AllNumbered(Join(forest, n), |f|) && Uncles(Join(forest, n), f)
  {
    var g := Join(forest, n);
    assert forall i :: 1 <= i < |g| ==> g[i] == forest[i + 1];
    forall i, k | 0 <= i < |g| && 0 <= k < |g|
      ensures Under(g[i], f, Weight(g[k], f))
    {
      if i > 0 {
        assert Under(g[i], f, Weight(forest[if k == 0 then 0 else k + 1], f));
      }
    }
  }
}
