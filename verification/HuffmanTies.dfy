/**
 The depths that break ties in the queue (archival/gzip.c, build_tree): as long as they fit into a byte they
 are the heights of the trees, and every combination keeps the depth that an optimal code needs.
 */
module HuffmanTies {
  import opened HuffmanHeap
  import opened HuffmanTree
  import opened HuffmanGrow
  import opened HuffmanHeight

  /** No subtree is so high that its height does not fit into a byte. */
  predicate Bytes(forest: seq<Tree>) {
    forall i :: 0 <= i < |forest| ==> Height(forest[i]) < 256
  }

  /** The heights of the trees are on record. */
  predicate Deep(forest: seq<Tree>, d: seq<nat>) {
    Bytes(forest) ==> forall i :: 0 <= i < |forest| ==> forest[i].id < |d| && d[forest[i].id] == Height(forest[i])
  }

  /** What the used symbols can attain is still attained. */
  ghost predicate Shallow(forest: seq<Tree>, f: seq<nat>) {
    Bytes(forest) ==> forall h: nat :: Attains(LeafForest(UsedTo(f, |f|)), f, h) ==> Attains(forest, f, h)
  }

  lemma PermutedIn(forest: seq<Tree>, g: seq<Tree>, i: nat) returns (k: nat)
    requires multiset(g) == multiset(forest) && i < |g|
    ensures k < |forest| && forest[k] == g[i]
  {
    assert g[i] in multiset(forest);
    k :| 0 <= k < |forest| && forest[k] == g[i];
  }

  lemma DeepPermuted(forest: seq<Tree>, g: seq<Tree>, d: seq<nat>)
    requires multiset(g) == multiset(forest)
    ensures Bytes(g) ==> Bytes(forest)
    ensures Deep(forest, d) ==> Deep(g, d)
  {
    hide Height;
    if Bytes(g) {
      forall i | 0 <= i < |forest|
        ensures Height(forest[i]) < 256
      {
        var k := PermutedIn(g, forest, i);
      }
      if Deep(forest, d) {
        forall i | 0 <= i < |g|
          ensures g[i].id < |d| && d[g[i].id] == Height(g[i])
        {
          var k := PermutedIn(forest, g, i);
        }
      }
    }
  }

  lemma ShallowPermuted(forest: seq<Tree>, g: seq<Tree>, f: seq<nat>)
    requires multiset(g) == multiset(forest) && Shallow(forest, f)
    ensures Shallow(g, f)
  {
    hide Hung, Bytes, UsedTo, Trees;
    DeepPermuted(forest, g, []);
  }

  lemma JoinBytes(g: seq<Tree>, node: nat)
    requires |g| >= 2 && Bytes(Join(g, node))
    ensures Bytes(g) && Height(g[0]) < 255 && Height(g[1]) < 255
    ensures Height(Join(g, node)[0]) == 1 + if Height(g[0]) > Height(g[1]) then Height(g[0]) else Height(g[1])
  {
    assert Height(Join(g, node)[0]) < 256;
    forall i | 0 <= i < |g|
      ensures Height(g[i]) < 256
    {
      assert i >= 2 ==> g[i] == Join(g, node)[i - 1];
    }
  }

  /** The depth of a father, one more than that of its deeper son. */
  function DepthAbove(d: seq<nat>, n: nat, m: nat): nat
    requires n < |d| && m < |d|
  {
    ((if d[n] >= d[m] then d[n] else d[m]) + 1) % 256
  }

  lemma JoinDeep(g: seq<Tree>, node: nat, d: seq<nat>)
    requires |g| >= 2 && Deep(g, d) && g[0].id < |d| && g[1].id < |d| && node < |d|
    requires forall i :: 0 <= i < |g| ==> g[i].id < node
    ensures Deep(Join(g, node), d[node := DepthAbove(d, g[0].id, g[1].id)])
  {
    hide Height;
    var g' := Join(g, node);
    if Bytes(g') {
      JoinBytes(g, node);
      assert forall i :: 1 <= i < |g'| ==> g'[i] == g[i + 1];
    }
  }

  /** The order of the queue is the order of the trees. */
  lemma QueueOrder(a: Tree, b: Tree, f: seq<nat>, freq: seq<nat>, d: seq<nat>, dad: seq<nat>, node: nat)
    requires TreeOk(a, f, freq, dad, node) && TreeOk(b, f, freq, dad, node) && a.id < |freq| == |d| && b.id < |freq|
    requires d[a.id] == Height(a) && d[b.id] == Height(b) && Smaller(freq, d, a.id, b.id)
    ensures Before(a, b, f)
  {
  }

  lemma JoinShallow(g: seq<Tree>, node: nat, f: seq<nat>, freq: seq<nat>, d: seq<nat>, dad: seq<nat>)
    requires |g| >= 2 && AllNumbered(g, |f|) && |f| <= node && Shallow(g, f) && Deep(g, d) && |freq| == |d|
    requires forall i :: 0 <= i < |g| ==> TreeOk(g[i], f, freq, dad, node) && g[i].id < |freq|
    requires forall k :: 0 <= k < |g| ==> Smaller(freq, d, g[0].id, g[k].id)
    requires forall k :: 1 <= k < |g| ==> Smaller(freq, d, g[1].id, g[k].id)
    ensures Shallow(Join(g, node), f)
  {
    hide Height, Attains, TreeOk, Before, Numbered, UsedTo, Smaller;
    if Bytes(Join(g, node)) {
      JoinBytes(g, node);
      forall k | 0 <= k < |g|
        ensures Before(g[0], g[k], f) && (k >= 1 ==> Before(g[1], g[k], f))
      {
        QueueOrder(g[0], g[k], f, freq, d, dad, node);
        if k >= 1 {
          QueueOrder(g[1], g[k], f, freq, d, dad, node);
        }
      }
      forall h: nat | Attains(LeafForest(UsedTo(f, |f|)), f, h)
        ensures Attains(Join(g, node), f, h)
      {
        JoinAttains(g, node, f, h);
      }
    }
  }
}
