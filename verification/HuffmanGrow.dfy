/**
 The state of the tree construction between two combinations (archival/gzip.c, the loop of
 build_tree): the nodes still in the queue are the roots of a forest, the nodes taken out so far
 are listed with fathers before sons.
 */
module HuffmanGrow {
  import opened Sums
  import opened HuffmanTree

  ghost predicate NoDup(ms: multiset<nat>) {
    forall x :: x in ms ==> ms[x] == 1
  }

  /** Every listed node has its father before it in the list, or in the queue. */
  ghost predicate FathersFirst(done: seq<nat>, live: multiset<nat>, dad: seq<nat>) {
    forall i :: 0 <= i < |done| ==>
      done[i] < |dad| && (dad[done[i]] in live || dad[done[i]] in done[..i])
  }

  /** The tree at a root: its nodes are linked and its weight is on record. */
  ghost predicate TreeOk(t: Tree, f: seq<nat>, freq: seq<nat>, dad: seq<nat>, node: nat) {
    && Numbered(t, |f|) && Linked(t, dad)
    && t.id < node <= |freq| && freq[t.id] == Weight(t, f)
  }

  ghost predicate Growing(forest: seq<Tree>, f: seq<nat>, freq: seq<nat>, dad: seq<nat>,
                          live: multiset<nat>, done: seq<nat>, node: nat)
  {
    && |f| <= node <= |freq| == |dad|
    && live == multiset(Roots(forest)) && NoDup(live)
    && ForestProper(forest) == multiset(done) && NoDup(multiset(done))
    && (forall i :: 0 <= i < |forest| ==> TreeOk(forest[i], f, freq, dad, node))
    && (forall x :: x in done ==> x < node && x !in live)
    && FathersFirst(done, live, dad)
  }

  lemma {:induction false} LinkedElsewhere(t: Tree, dad: seq<nat>, dad': seq<nat>)
    requires Linked(t, dad) && |dad| == |dad'|
    requires forall i :: 0 <= i < |Proper(t)| && Proper(t)[i] < |dad| ==> dad'[Proper(t)[i]] == dad[Proper(t)[i]]
    ensures Linked(t, dad')
  {
    match t
    case Leaf(_) =>
    case Node(n, l, r) =>
      var a, b := [l.id] + Proper(l), [r.id] + Proper(r);
      assert Proper(t) == a + b;
      assert forall i :: 0 <= i < |Proper(l)| ==> Proper(l)[i] == Proper(t)[i + 1];
      assert forall i :: 0 <= i < |Proper(r)| ==> Proper(r)[i] == Proper(t)[i + 1 + |a|];
      assert l.id == Proper(t)[0] && r.id == Proper(t)[|a|];
      LinkedElsewhere(l, dad, dad');
      LinkedElsewhere(r, dad, dad');
  }

  lemma ProperInForest(forest: seq<Tree>, i: nat, x: nat)
    requires i < |forest| && x in Proper(forest[i])
    ensures x in ForestProper(forest)
  {
    hide Proper, ForestProper;
    TakeTreeProper(forest, i);
    assert x in multiset(Proper(forest[i]));
  }

  lemma PickTwo<T>(s: seq<T>, i: nat, j: nat) returns (g: seq<T>)
    requires i < |s| && j < |s| && i != j
    ensures multiset(g) == multiset(s) && |g| >= 2 && g[0] == s[i] && g[1] == s[j]
  {
    var rest, k := Drop(s, i), if j < i then j else j - 1;
    assert rest[k] == s[j];
    FrontMultiset(s, i);
    FrontMultiset(rest, k);
    ConsMultiset(s[i], [rest[k]] + Drop(rest, k), rest);
    g := [s[i]] + ([rest[k]] + Drop(rest, k));
  }

  /** The forest with the trees rooted at n and m in front. */
  lemma BringFront(forest: seq<Tree>, n: nat, m: nat) returns (g: seq<Tree>)
    requires n != m && n in Roots(forest) && m in Roots(forest)
    ensures multiset(g) == multiset(forest) && |g| >= 2 && g[0].id == n && g[1].id == m
  {
    var i :| 0 <= i < |forest| && Roots(forest)[i] == n;
    var j :| 0 <= j < |forest| && Roots(forest)[j] == m;
    g := PickTwo(forest, i, j);
  }

  lemma RootsPermuted(a: seq<Tree>, b: seq<Tree>)
    requires multiset(a) == multiset(b)
    ensures multiset(Roots(a)) == multiset(Roots(b))
    decreases |a|
  {
    if a == [] {
      assert |multiset(b)| == |b|;
      assert b == [];
    } else {
      var i := FirstIn(a, b);
      RootsPermuted(Drop(a, 0), Drop(b, i));
      assert Roots(Drop(a, 0)) == Drop(Roots(a), 0);
      assert Roots(Drop(b, i)) == Drop(Roots(b), i);
      DropMultiset(Roots(a), 0);
      DropMultiset(Roots(b), i);
    }
  }

  /** The forest may be taken in any order. */
  lemma GrowingPermuted(forest: seq<Tree>, g: seq<Tree>, f: seq<nat>, freq: seq<nat>, dad: seq<nat>,
                        live: multiset<nat>, done: seq<nat>, node: nat)
    requires Growing(forest, f, freq, dad, live, done, node) && multiset(g) == multiset(forest)
    ensures Growing(g, f, freq, dad, live, done, node)
  {
    hide FathersFirst, NoDup, TreeOk, ForestProper;
    RootsPermuted(forest, g);
    ForestPermuted(forest, g);
    forall i | 0 <= i < |g|
      ensures TreeOk(g[i], f, freq, dad, node)
    {
      assert g[i] in multiset(forest);
    }
  }

  lemma JoinRoots(g: seq<Tree>, n: nat)
    requires |g| >= 2
    ensures multiset(Roots(Join(g, n))) == multiset(Roots(g)) - multiset{g[0].id} - multiset{g[1].id} + multiset{n}
  {
    var rest := Roots(g)[2..];
    assert Roots(g) == [g[0].id, g[1].id] + rest;
    assert Roots(Join(g, n)) == [n] + rest;
  }

  lemma FathersStep(done: seq<nat>, live: multiset<nat>, dad: seq<nat>, n: nat, m: nat, node: nat)
    requires FathersFirst(done, live, dad) && n < |dad| && m < |dad| && n != m && NoDup(live)
    requires n in live && m in live && n !in done && m !in done
    ensures FathersFirst([m, n] + done, live - multiset{n} - multiset{m} + multiset{node},
                         dad[n := node][m := node])
  {
    var done', dad' := [m, n] + done, dad[n := node][m := node];
    forall i | 0 <= i < |done'|
      ensures done'[i] < |dad'| && (dad'[done'[i]] in live - multiset{n} - multiset{m} + multiset{node} ||
                                    dad'[done'[i]] in done'[..i])
    {
      if i >= 2 {
        assert done'[..i] == [m, n] + done[..i - 2];
        assert done[i - 2] in done;
      }
    }
  }

  lemma TreesStep(g: seq<Tree>, f: seq<nat>, freq: seq<nat>, dad: seq<nat>,
                  live: multiset<nat>, done: seq<nat>, node: nat)
    requires |g| >= 2 && Growing(g, f, freq, dad, live, done, node) && node < |freq| && g[0].id != g[1].id
    ensures var n, m := g[0].id, g[1].id;
            forall i :: 0 <= i < |g| - 1 ==>
              TreeOk(Join(g, node)[i], f, freq[node := freq[n] + freq[m]], dad[n := node][m := node], node + 1)
  {
    hide ForestProper, FathersFirst, NoDup, Weight, Linked, Proper;
    var n, m := g[0].id, g[1].id;
    var freq', dad' := freq[node := freq[n] + freq[m]], dad[n := node][m := node];
    forall i | 0 <= i < |g|
      ensures TreeOk(g[i], f, freq', dad', node)
    {
      TreeKept(g, f, freq, dad, live, done, node, i);
    }
    TreeJoined(g[0], g[1], f, freq', dad', node);
  }

  lemma TreeKept(g: seq<Tree>, f: seq<nat>, freq: seq<nat>, dad: seq<nat>,
                 live: multiset<nat>, done: seq<nat>, node: nat, i: nat)
    requires |g| >= 2 && Growing(g, f, freq, dad, live, done, node) && node < |freq| && i < |g|
    ensures var n, m := g[0].id, g[1].id;
            TreeOk(g[i], f, freq[node := freq[n] + freq[m]], dad[n := node][m := node], node)
  {
    hide ForestProper, FathersFirst, NoDup, Weight, Linked, Proper;
    var n, m := g[0].id, g[1].id;
    var dad' := dad[n := node][m := node];
    RootIn(g, 0);
    RootIn(g, 1);
    forall k | 0 <= k < |Proper(g[i])| && Proper(g[i])[k] < |dad|
      ensures dad'[Proper(g[i])[k]] == dad[Proper(g[i])[k]]
    {
      ProperInForest(g, i, Proper(g[i])[k]);
      assert Proper(g[i])[k] in done;
    }
    assert TreeOk(g[i], f, freq, dad, node);
    LinkedElsewhere(g[i], dad, dad');
  }

  lemma TreeJoined(l: Tree, r: Tree, f: seq<nat>, freq: seq<nat>, dad: seq<nat>, node: nat)
    requires TreeOk(l, f, freq, dad, node) && TreeOk(r, f, freq, dad, node) && |f| <= node < |freq|
    requires l.id < |dad| && dad[l.id] == node && r.id < |dad| && dad[r.id] == node
    requires freq[node] == freq[l.id] + freq[r.id]
    ensures TreeOk(Node(node, l, r), f, freq, dad, node + 1)
  {
  }

  lemma RootIn(g: seq<Tree>, i: nat)
    requires i < |g|
    ensures g[i].id in multiset(Roots(g))
  {
    assert Roots(g)[i] == g[i].id;
  }

  lemma RootsDistinct(g: seq<Tree>, i: nat, j: nat)
    requires i < j < |g| && NoDup(multiset(Roots(g)))
    ensures g[i].id != g[j].id
  {
    var r := Roots(g);
    assert r == r[..i] + [r[i]] + r[i + 1..j] + [r[j]] + r[j + 1..];
    assert multiset(r)[r[i]] >= 1 + multiset([r[j]])[r[i]];
  }

  /** One combination keeps the state. */
  lemma GrowStep(g: seq<Tree>, f: seq<nat>, freq: seq<nat>, dad: seq<nat>,
                 live: multiset<nat>, done: seq<nat>, node: nat)
    requires |g| >= 2 && Growing(g, f, freq, dad, live, done, node) && node < |freq| && g[0].id != g[1].id
    ensures var n, m := g[0].id, g[1].id;
            Growing(Join(g, node), f, freq[node := freq[n] + freq[m]], dad[n := node][m := node],
                    live - multiset{n} - multiset{m} + multiset{node}, [m, n] + done, node + 1)
  {
    hide ForestProper, TreeOk, FathersFirst;
    var n, m := g[0].id, g[1].id;
    RootIn(g, 0);
    RootIn(g, 1);
    RootBelow(g, f, freq, dad, live, done, node);
    TreesStep(g, f, freq, dad, live, done, node);
    JoinRoots(g, node);
    JoinProper(g, node);
    FathersStep(done, live, dad, n, m, node);
    DoneStep(done, n, m);
  }

  lemma DoneStep(done: seq<nat>, n: nat, m: nat)
    requires NoDup(multiset(done)) && n !in done && m !in done && n != m
    ensures NoDup(multiset([m, n] + done))
    ensures multiset([m, n] + done) == multiset(done) + multiset{n, m}
  {
    assert multiset([m, n] + done) == multiset{m, n} + multiset(done);
    assert n !in multiset(done) && m !in multiset(done);
  }

  lemma RootBelow(g: seq<Tree>, f: seq<nat>, freq: seq<nat>, dad: seq<nat>,
                  live: multiset<nat>, done: seq<nat>, node: nat)
    requires Growing(g, f, freq, dad, live, done, node)
    ensures forall x :: x in live ==> x < node
  {
    forall x | x in live
      ensures x < node
    {
      var i :| 0 <= i < |g| && Roots(g)[i] == x;
      assert TreeOk(g[i], f, freq, dad, node);
    }
  }

  /** The symbols below n with a frequency, in order. */
  function UsedTo(f: seq<nat>, n: nat): seq<nat>
    requires n <= |f|
  {
    if n == 0 then []
    else if f[n - 1] != 0 then UsedTo(f, n - 1) + [n - 1]
    else UsedTo(f, n - 1)
  }

  lemma {:induction false} UsedBelow(f: seq<nat>, n: nat)
    requires n <= |f|
    ensures |UsedTo(f, n)| <= n
    ensures forall i :: 0 <= i < |UsedTo(f, n)| ==> UsedTo(f, n)[i] < n && f[UsedTo(f, n)[i]] != 0
  {
    if n > 0 {
      UsedBelow(f, n - 1);
    }
  }

  lemma NoDupAppend(us: seq<nat>, x: nat)
    requires NoDup(multiset(us)) && x !in us
    ensures NoDup(multiset(us + [x]))
  {
    assert x !in multiset(us);
    assert multiset(us + [x]) == multiset(us) + multiset{x};
  }

  lemma {:induction false} UsedNoDup(f: seq<nat>, n: nat)
    requires n <= |f|
    ensures NoDup(multiset(UsedTo(f, n)))
  {
    if n > 0 {
      hide NoDup;
      UsedNoDup(f, n - 1);
      if f[n - 1] != 0 {
        UsedBelow(f, n - 1);
        NoDupAppend(UsedTo(f, n - 1), n - 1);
      }
    }
  }

  lemma {:induction false} UsedAll(f: seq<nat>, n: nat, x: nat)
    requires n <= |f| && x < n && f[x] != 0
    ensures x in UsedTo(f, n)
  {
    if x < n - 1 {
      UsedAll(f, n - 1, x);
    }
  }

  lemma {:induction false} UsedSame(f: seq<nat>, x: nat, n: nat)
    requires n <= x < |f|
    ensures UsedTo(f[x := 1], n) == UsedTo(f, n)
  {
    if n > 0 {
      UsedSame(f, x, n - 1);
    }
  }

  /** Giving a frequency to an unused symbol adds it to the list. */
  lemma {:induction false} UsedMore(f: seq<nat>, x: nat, n: nat)
    requires x < n <= |f| && f[x] == 0
    ensures multiset(UsedTo(f[x := 1], n)) == multiset(UsedTo(f, n)) + multiset{x}
  {
    if x == n - 1 {
      UsedSame(f, x, n - 1);
    } else {
      UsedMore(f, x, n - 1);
      SnocMultiset(UsedTo(f, n - 1), UsedTo(f[x := 1], n - 1), multiset{x}, n - 1);
    }
  }

  /** Every used symbol as a tree of its own. */
  function LeafForest(us: seq<nat>): seq<Tree> {
    seq(|us|, i requires 0 <= i < |us| => Leaf(us[i]))
  }

  lemma {:induction false} LeafForestSums(us: seq<nat>, f: seq<nat>)
    requires InTable(us, f)
    ensures ForestProper(LeafForest(us)) == multiset{} && ForestLeaves(LeafForest(us)) == multiset(us)
    ensures AllNumbered(LeafForest(us), |f|) && ForestCost(LeafForest(us), f) == 0
  {
    var g := LeafForest(us);
    if us != [] {
      assert g[1..] == LeafForest(us[1..]);
      LeafForestSums(us[1..], f);
      assert us == [us[0]] + us[1..];
    }
  }

  /** The frequencies of the listed symbols. */
  ghost function BagAt(f: seq<nat>, us: seq<nat>): multiset<nat>
    requires InTable(us, f)
  {
    if us == [] then multiset{} else multiset{f[us[0]]} + BagAt(f, us[1..])
  }

  lemma {:induction false} LeafForestWeights(us: seq<nat>, f: seq<nat>)
    requires InTable(us, f)
    ensures AllNumbered(LeafForest(us), |f|) && ForestWeights(LeafForest(us), f) == BagAt(f, us)
  {
    var g := LeafForest(us);
    if us != [] {
      assert g[1..] == LeafForest(us[1..]);
      LeafForestWeights(us[1..], f);
    }
  }

  /** The construction starts with the used symbols in the queue and no fathers. */
  lemma StartGrowing(us: seq<nat>, f: seq<nat>, freq: seq<nat>, dad: seq<nat>)
    requires |f| <= |freq| == |dad| && f == freq[..|f|] && InTable(us, f) && NoDup(multiset(us))
    ensures Growing(LeafForest(us), f, freq, dad, multiset(us), [], |f|)
  {
    LeafForestSums(us, f);
    assert Roots(LeafForest(us)) == us;
  }
}
