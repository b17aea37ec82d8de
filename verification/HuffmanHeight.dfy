/**
 Ties in the queue (archival/gzip.c, smaller): of two nodes with the same frequency the one with the lower
 subtree comes first.  The theorem is that no optimal code then has a shorter longest code.
 */
module HuffmanHeight {
  import opened Words
  import opened Sums
  import opened HuffmanCost
  import opened HuffmanTree

  /** A tree of the forest that hangs at depth l. */
  datatype Bough = Bough(t: Tree, l: nat)

  function Trees(s: seq<Bough>): (r: seq<Tree>)
    ensures |r| == |s| && forall i :: 0 <= i < |s| ==> r[i] == s[i].t
  {
    seq(|s|, i requires 0 <= i < |s| => s[i].t)
  }

  predicate Reaches(s: seq<Bough>, f: seq<nat>, h: nat) {
    forall i :: 0 <= i < |s| ==> Numbered(s[i].t, |f|) && s[i].l + Height(s[i].t) <= h
  }

  function Loads(s: seq<Bough>, f: seq<nat>, h: nat): (r: seq<Item>)
    requires Reaches(s, f, h)
    ensures |r| == |s| && Within(r, h) && forall i :: 0 <= i < |s| ==> r[i] == Item(Weight(s[i].t, f), s[i].l)
  {
    seq(|s|, i requires 0 <= i < |s| => Item(Weight(s[i].t, f), s[i].l))
  }

  /** The depths satisfy Kraft's inequality, cost no more than any others, and put no leaf deeper than h. */
  ghost predicate Hung(s: seq<Bough>, f: seq<nat>, h: nat) {
    && Reaches(s, f, h) && Kraft(Loads(s, f, h), h) <= Pow2(h)
    && Cost(Loads(s, f, h)) <= HuffCost(Weights(Loads(s, f, h)))
  }

  /** Some best depths for the trees of the forest put no leaf deeper than h. */
  ghost predicate Attains(forest: seq<Tree>, f: seq<nat>, h: nat) {
    exists s: seq<Bough> :: multiset(Trees(s)) == multiset(forest) && Hung(s, f, h)
  }

  /** The order of the queue. */
  predicate Before(a: Tree, b: Tree, f: seq<nat>)
    requires Numbered(a, |f|) && Numbered(b, |f|)
  {
    Weight(a, f) < Weight(b, f) || (Weight(a, f) == Weight(b, f) && Height(a) <= Height(b))
  }

  lemma BringUp(s: seq<Bough>, i: nat, f: seq<nat>, h: nat) returns (r: seq<Bough>)
    requires i < |s| && Hung(s, f, h)
    ensures r == [s[i]] + Drop(s, i) && multiset(Trees(r)) == multiset(Trees(s)) && Hung(r, f, h)
  {
    hide Cost, Kraft, Weights, HuffCost, Loads, Reaches, Trees;
    r := [s[i]] + Drop(s, i);
    UpTrees(s, i);
    UpLoads(s, i, f, h);
    MoveFront(Loads(s, f, h), i, h);
  }

  lemma UpTrees(s: seq<Bough>, i: nat)
    requires i < |s|
    ensures multiset(Trees([s[i]] + Drop(s, i))) == multiset(Trees(s))
  {
    hide Trees;
    FrontMultiset(Trees(s), i);
    assert Trees([s[i]] + Drop(s, i)) == [Trees(s)[i]] + Drop(Trees(s), i);
  }

  lemma UpLoads(s: seq<Bough>, i: nat, f: seq<nat>, h: nat)
    requires i < |s| && Reaches(s, f, h)
    ensures var r := [s[i]] + Drop(s, i);
            Reaches(r, f, h) && Loads(r, f, h) == [Loads(s, f, h)[i]] + Drop(Loads(s, f, h), i)
  {
    hide Loads, Weight, Height, Numbered;
    var r := [s[i]] + Drop(s, i);
    assert forall k :: 0 <= k < |r| ==> r[k] == s[if k == 0 then i else if k <= i then k - 1 else k];
  }

  /** The two lowest come first. */
  ghost predicate LowestFirst(s: seq<Bough>) {
    |s| >= 2 && s[0].l >= s[1].l && forall i :: 2 <= i < |s| ==> s[i].l <= s[1].l
  }

  lemma Lowest(s: seq<Bough>) returns (p: nat)
    requires |s| > 0
    ensures p < |s| && forall i :: 0 <= i < |s| ==> s[i].l <= s[p].l
  {
    p := 0;
    for k := 0 to |s|
      invariant p < |s| && forall i :: 0 <= i < k ==> s[i].l <= s[p].l
    {
      if s[k].l > s[p].l {
        p := k;
      }
    }
  }

  lemma PutLowestFirst(s: seq<Bough>, f: seq<nat>, h: nat) returns (r: seq<Bough>)
    requires |s| >= 2 && Hung(s, f, h)
    ensures |r| == |s| && multiset(Trees(r)) == multiset(Trees(s)) && Hung(r, f, h) && LowestFirst(r)
  {
    hide Hung, Trees;
    var p := Lowest(s);
    var s1 := BringUp(s, p, f, h);
    var q := Lowest(s1[1..]);
    var s2 := BringUp(s1, q + 1, f, h);
    r := BringUp(s2, 1, f, h);
    assert s2[1] == s1[0] && r[0] == s1[0] && r[1] == s1[q + 1];
    forall i | 2 <= i < |r|
      ensures r[i].l <= r[1].l
    {
      assert r[i] == s2[i] == s1[if i - 1 < q + 1 then i - 1 else i];
    }
    assert s1[0] == s[p] && s1[q + 1] == Drop(s, p)[q];
  }

  /** s with the trees at i and j exchanged. */
  function SwapTrees(s: seq<Bough>, i: nat, j: nat): seq<Bough>
    requires i < j < |s|
  {
    s[i := Bough(s[j].t, s[i].l)][j := Bough(s[i].t, s[j].l)]
  }

  lemma SwapBag(s: seq<Bough>, i: nat, j: nat)
    requires i < j < |s|
    ensures multiset(Trees(SwapTrees(s, i, j))) == multiset(Trees(s))
  {
    var ts := Trees(s);
    assert Trees(SwapTrees(s, i, j)) == ts[i := ts[j]][j := ts[i]];
  }

  lemma ProductPositive(a: int, b: int)
    requires a > 0 && b > 0
    ensures a * b > 0
  {
  }

  /** In best depths, hanging the tree that comes first lower puts no leaf deeper than before. */
  lemma SwapHung(s: seq<Bough>, i: nat, j: nat, f: seq<nat>, h: nat)
    requires i < j < |s| && Hung(s, f, h) && s[i].l >= s[j].l && Before(s[j].t, s[i].t, f)
    ensures Hung(SwapTrees(s, i, j), f, h)
  {
    hide Cost, Kraft, Weights, HuffCost, Weight, Height, Numbered, Loads;
    var r := SwapTrees(s, i, j);
    var a := Loads(s, f, h);
    var b := SwapWeights(a, i, j);
    Exchange(a, i, j, h);
    ExchangeCost(a, i, j, h);
    GreedyIsOptimal(b, h);
    if Weight(s[j].t, f) < Weight(s[i].t, f) && s[j].l < s[i].l {
      ProductPositive(a[i].w - a[j].w, a[i].l - a[j].l);
      assert false;
    }
    assert Reaches(r, f, h);
    assert Loads(r, f, h) == b;
  }

  /** A tree that comes before the others can hang lowest. */
  lemma HangAt(s: seq<Bough>, i: nat, a: Tree, f: seq<nat>, h: nat) returns (r: seq<Bough>)
    requires i < |s| && Hung(s, f, h) && a in Trees(s)[i..] && Numbered(a, |f|)
    requires forall k :: i < k < |s| ==> s[k].l <= s[i].l
    requires forall k :: i <= k < |s| ==> Numbered(s[k].t, |f|) && Before(a, s[k].t, f)
    ensures |r| == |s| && multiset(Trees(r)) == multiset(Trees(s)) && Hung(r, f, h) && r[i].t == a
    ensures (forall k :: 0 <= k < i ==> r[k] == s[k]) && forall k :: 0 <= k < |s| ==> r[k].l == s[k].l
  {
    hide Hung, Before, Numbered;
    var j :| 0 <= j < |s| - i && Trees(s)[i..][j] == a;
    if j == 0 {
      r := s;
    } else {
      SwapHung(s, i, i + j, f, h);
      SwapBag(s, i, i + j);
      r := SwapTrees(s, i, i + j);
    }
  }

  lemma ShortenHung(s: seq<Bough>, f: seq<nat>, h: nat)
    requires LowestFirst(s) && Hung(s, f, h)
    ensures var r := s[0 := Bough(s[0].t, s[1].l)]; Hung(r, f, h) && Trees(r) == Trees(s) && r[0].l > 0
  {
    hide Cost, Kraft, Weights, HuffCost, Weight, Height, Numbered;
    var r := s[0 := Bough(s[0].t, s[1].l)];
    var a := Loads(s, f, h);
    Shorten(a, h);
    assert Reaches(r, f, h);
    assert Loads(r, f, h) == a[0 := Item(a[0].w, a[1].l)];
    TwoCodesNeedABit(Loads(r, f, h), h);
  }

  /** The two trees under one root, one level up. */
  lemma MergeHung(s: seq<Bough>, n: nat, f: seq<nat>, h: nat)
    requires |s| >= 2 && Hung(s, f, h) && s[0].l == s[1].l > 0 && |f| <= n
    requires forall k :: 0 <= k < |s| ==> Numbered(s[k].t, |f|) && Before(s[0].t, s[k].t, f)
    requires forall k :: 1 <= k < |s| ==> Numbered(s[k].t, |f|) && Before(s[1].t, s[k].t, f)
    ensures Hung([Bough(Node(n, s[0].t, s[1].t), s[0].l - 1)] + s[2..], f, h)
  {
    hide Cost, Kraft, Weights, HuffCost, Loads, Reaches;
    var a := Loads(s, f, h);
    MergeLoads(s, n, f, h);
    MergeSums(a, h);
    LeastLoads(a);
  }

  lemma MergeLoads(s: seq<Bough>, n: nat, f: seq<nat>, h: nat)
    requires |s| >= 2 && Reaches(s, f, h) && s[0].l == s[1].l > 0 && |f| <= n
    ensures var r := [Bough(Node(n, s[0].t, s[1].t), s[0].l - 1)] + s[2..];
            Reaches(r, f, h) && Loads(r, f, h) == Merge(Loads(s, f, h))
  {
    hide Loads;
    var r := [Bough(Node(n, s[0].t, s[1].t), s[0].l - 1)] + s[2..];
    assert forall k :: 1 <= k < |r| ==> r[k] == s[k + 1];
  }

  /** One greedy step on loads whose two lightest come first. */
  lemma LeastLoads(a: seq<Item>)
    requires |a| >= 2 && a[0].l > 0 && (forall k :: 0 <= k < |a| ==> a[0].w <= a[k].w) && forall k :: 1 <= k < |a| ==> a[1].w <= a[k].w
    ensures HuffCost(Weights(a)) == a[0].w + a[1].w + HuffCost(Weights(Merge(a)))
  {
    hide HuffCost, IsMin;
    assert a[1..][1..] == a[2..] && Merge(a)[1..] == a[2..];
    LeastOf(a);
    LeastOf(a[1..]);
    HuffBag(Weights(a), a[0].w, a[1].w, Weights(a[2..]), Weights(Merge(a)), a[0].w + a[1].w);
  }

  lemma LeastOf(a: seq<Item>)
    requires |a| >= 1 && forall k :: 0 <= k < |a| ==> a[0].w <= a[k].w
    ensures IsMin(Weights(a), a[0].w)
  {
    forall x | x in Weights(a)
      ensures a[0].w <= x
    {
      var i := FindWeight(a, x);
    }
  }

  lemma FirstOut<T>(a: seq<T>, b: seq<T>)
    requires a != [] && b != [] && a[0] == b[0] && multiset(a) == multiset(b)
    ensures multiset(a[1..]) == multiset(b[1..])
  {
    assert a == [a[0]] + a[1..] && b == [b[0]] + b[1..];
    assert multiset(a[1..]) == multiset(a) - multiset{a[0]} && multiset(b[1..]) == multiset(b) - multiset{b[0]};
  }

  lemma AllIn(s: seq<Bough>, i: nat, g: seq<Tree>, a: Tree, f: seq<nat>)
    requires i <= |s| && multiset(Trees(s)[i..]) == multiset(g) && Numbered(a, |f|)
    requires forall k :: 0 <= k < |g| ==> Numbered(g[k], |f|) && Before(a, g[k], f)
    ensures forall k :: i <= k < |s| ==> Numbered(s[k].t, |f|) && Before(a, s[k].t, f)
  {
    hide Before, Numbered;
    forall k | i <= k < |s|
      ensures Numbered(s[k].t, |f|) && Before(a, s[k].t, f)
    {
      assert s[k].t == Trees(s)[i..][k - i];
      assert s[k].t in multiset(g);
    }
  }

  /** Joining the first two trees of the queue keeps what the forest can attain. */
  lemma JoinAttains(g: seq<Tree>, n: nat, f: seq<nat>, h: nat)
    requires |g| >= 2 && AllNumbered(g, |f|) && |f| <= n && Attains(g, f, h)
    requires forall k :: 0 <= k < |g| ==> Before(g[0], g[k], f)
    requires forall k :: 1 <= k < |g| ==> Before(g[1], g[k], f)
    ensures Attains(Join(g, n), f, h)
  {
    hide Hung, Before, Numbered;
    var s :| multiset(Trees(s)) == multiset(g) && Hung(s, f, h);
    assert |multiset(g)| == |g| && |multiset(Trees(s))| == |s|;
    var s1 := PutLowestFirst(s, f, h);
    assert Trees(s1)[0..] == Trees(s1) && g[0] in multiset(Trees(s1));
    AllIn(s1, 0, g, g[0], f);
    var s2 := HangAt(s1, 0, g[0], f, h);
    FirstOut(Trees(s2), g);
    assert g[1..][0] == g[1] && g[1] in multiset(Trees(s2)[1..]);
    AllIn(s2, 1, g[1..], g[1], f);
    var s3 := HangAt(s2, 1, g[1], f, h);
    ShortenHung(s3, f, h);
    JoinLast(s3[0 := Bough(s3[0].t, s3[1].l)], g, n, f, h);
  }

  lemma JoinLast(s: seq<Bough>, g: seq<Tree>, n: nat, f: seq<nat>, h: nat)
    requires |g| >= 2 && AllNumbered(g, |f|) && |f| <= n && multiset(Trees(s)) == multiset(g) && Hung(s, f, h)
    requires |s| == |g| && s[0].t == g[0] && s[1].t == g[1] && s[0].l == s[1].l > 0
    requires forall k :: 0 <= k < |g| ==> Before(g[0], g[k], f)
    requires forall k :: 1 <= k < |g| ==> Before(g[1], g[k], f)
    ensures Attains(Join(g, n), f, h)
  {
    hide Hung, Before, Numbered;
    var r := [Bough(Node(n, s[0].t, s[1].t), s[0].l - 1)] + s[2..];
    FirstOut(Trees(s), g);
    FirstOut(Trees(s)[1..], g[1..]);
    assert Trees(s)[0..] == Trees(s);
    AllIn(s, 0, g, g[0], f);
    AllIn(s, 1, g[1..], g[1], f);
    MergeHung(s, n, f, h);
    assert Trees(s)[1..][1..] == Trees(s)[2..] && g[1..][1..] == g[2..];
    assert Trees(r) == [Node(n, s[0].t, s[1].t)] + Trees(s)[2..];
  }

  /** One tree attains nothing below its height. */
  lemma HeightAttained(t: Tree, f: seq<nat>, h: nat)
    requires Attains([t], f, h)
    ensures Height(t) <= h
  {
    hide Numbered, Height, Cost, Kraft, Weights, HuffCost;
    var s :| multiset(Trees(s)) == multiset([t]) && Hung(s, f, h);
    assert t in multiset(Trees(s));
  }
}
