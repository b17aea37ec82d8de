/** The construction of a Huffman tree (archival/gzip.c, build_tree). */
module HuffmanBuild {
  import opened Sums
  import opened HuffmanCost
  import opened HuffmanHeap
  import opened HuffmanTree
  import opened HuffmanGrow
  import opened HuffmanHeight
  import opened HuffmanTies

  /** A heap does not notice changes to nodes that are not in it. */
  lemma HeapElsewhere(f: seq<nat>, d: seq<nat>, h: seq<nat>, len: nat, k: nat, node: nat, x: nat, y: nat)
    requires 1 <= k && NodesOk(f, d, h, len) && HeapFrom(f, d, h, len, k) && node < |f|
    requires forall j :: k <= j <= len ==> h[j] != node
    ensures HeapFrom(f[node := x], d[node := y], h, len, k)
  {
    forall j | 2 <= j <= len && k <= j / 2
      ensures Ordered(f[node := x], d[node := y], h, j / 2, j)
    {
      assert Ordered(f, d, h, j / 2, j);
    }
  }

  lemma HeapFromLater(f: seq<nat>, d: seq<nat>, h: seq<nat>, h': seq<nat>, len: nat, len': nat, k: nat)
    requires 1 <= k && HeapFrom(f, d, h, len, k) && len' <= len < |h| && |h| == |h'|
    requires forall j :: k <= j <= len' ==> h'[j] == h[j]
    ensures HeapFrom(f, d, h', len', k)
  {
    forall j | 2 <= j <= len' && k <= j / 2
      ensures Ordered(f, d, h', j / 2, j)
    {
      assert Ordered(f, d, h, j / 2, j);
    }
  }

  /** h' is h with the least of its len nodes, top, taken out. */
  ghost predicate RootRemoved(f: seq<nat>, d: seq<nat>, h: seq<nat>, len: nat, h': seq<nat>, top: nat) {
    && 2 <= len < |h| == |h'| && top == h[1] && top < |f| == |d|
    && Queue(h', len - 1) == Queue(h, len) - multiset{top}
    && (forall x :: x in Queue(h, len) ==> x < |f| && Smaller(f, d, top, x))
    && forall i :: len < i < |h| ==> h'[i] == h[i]
  }

  lemma RootIsLeastOfAll(f: seq<nat>, d: seq<nat>, h: seq<nat>, len: nat, x: nat)
    requires NodesOk(f, d, h, len) && HeapFrom(f, d, h, len, 1) && x in Queue(h, len)
    ensures 1 <= len && x < |f| == |d| && h[1] < |f| && Smaller(f, d, h[1], x)
  {
    hide HeapFrom;
    var j :| 0 <= j < len && h[1..len + 1][j] == x;
    RootIsLeast(f, d, h, len, j + 1);
  }

  lemma BagWithoutFirst(h: seq<nat>, len: nat)
    requires 2 <= len < |h|
    ensures Queue(h[1 := h[len]], len - 1) == Queue(h, len) - multiset{h[1]}
  {
    var mid := h[2..len];
    assert h[1..len + 1] == [h[1]] + (mid + [h[len]]);
    assert h[1 := h[len]][1..len] == [h[len]] + mid;
  }

  /** The last node is put in front; it moves down later. */
  lemma RemoveRoot(f: seq<nat>, d: seq<nat>, h: seq<nat>, len: nat)
    requires 2 <= len && NodesOk(f, d, h, len) && HeapFrom(f, d, h, len, 1)
    ensures var h' := h[1 := h[len]];
            && NodesOk(f, d, h', len - 1) && HeapFrom(f, d, h', len - 1, 2)
            && RootRemoved(f, d, h, len, h', h[1])
  {
    hide HeapFrom;
    var h' := h[1 := h[len]];
    assert HeapFrom(f, d, h, len, 2) by {
      HeapFromMore(f, d, h, len);
    }
    HeapFromLater(f, d, h, h', len, len - 1, 2);
    BagWithoutFirst(h, len);
    forall x | x in Queue(h, len)
      ensures x < |f| && Smaller(f, d, h[1], x)
    {
      RootIsLeastOfAll(f, d, h, len, x);
    }
  }

  lemma HeapFromMore(f: seq<nat>, d: seq<nat>, h: seq<nat>, len: nat)
    requires HeapFrom(f, d, h, len, 1)
    ensures HeapFrom(f, d, h, len, 2)
  {
  }

  lemma RemovedThenRearranged(f: seq<nat>, d: seq<nat>, h: seq<nat>, len: nat, h1: seq<nat>, h2: seq<nat>, top: nat)
    requires RootRemoved(f, d, h, len, h1, top) && Rearranged(h1, h2, len - 1)
    ensures RootRemoved(f, d, h, len, h2, top)
  {
  }

  /** Putting a new node first leaves a heap from the second position on. */
  lemma ReplaceRoot(f: seq<nat>, d: seq<nat>, h: seq<nat>, h': seq<nat>, len: nat, node: nat, x: nat, y: nat)
    requires 1 <= len && NodesOk(f, d, h, len) && HeapFrom(f, d, h, len, 1) && node < |f|
    requires |h'| == |h| && h'[1] == node && forall j :: 2 <= j <= len ==> h'[j] == h[j]
    requires forall j :: 1 <= j <= len ==> h[j] != node
    ensures NodesOk(f[node := x], d[node := y], h', len)
    ensures HeapFrom(f[node := x], d[node := y], h', len, 2)
  {
    hide HeapFrom;
    HeapFromMore(f, d, h, len);
    HeapElsewhere(f, d, h, len, 2, node, x, y);
    HeapFromLater(f[node := x], d[node := y], h, h', len, len, 2);
  }

  /** After the least node n is out, the rest are other nodes of the queue. */
  lemma RestOfQueue(f: seq<nat>, d: seq<nat>, h: seq<nat>, len: nat, h1: seq<nat>, n: nat)
    requires RootRemoved(f, d, h, len, h1, n) && NoDup(Queue(h, len))
    ensures n in Queue(h, len)
    ensures forall j :: 1 <= j < len ==> h1[j] in Queue(h, len) && h1[j] != n
  {
    assert n == h[1..len + 1][0];
    forall j | 1 <= j < len
      ensures h1[j] in Queue(h, len) && h1[j] != n
    {
      assert h1[j] == h1[1..len][j - 1];
      assert h1[j] in Queue(h1, len - 1);
    }
  }

  lemma BelowNode(h: seq<nat>, len: nat, node: nat, x: nat)
    requires len < |h| && x in Queue(h, len) && forall j :: 1 <= j <= len ==> h[j] < node
    ensures x < node
  {
    var j :| 0 <= j < len && h[1..len + 1][j] == x;
  }

  /** h' is h with its two least nodes n and m listed at the far end and replaced by node. */
  ghost predicate Combined(f: seq<nat>, d: seq<nat>, h: seq<nat>, len: nat, max: nat, h': seq<nat>, n: nat, m: nat, node: nat) {
    && 2 <= len < max - 2 && max <= |h| == |h'|
    && n < |f| == |d| && m < |f| && n != m
    && n in Queue(h, len) && m in Queue(h, len)
    && (forall x :: x in Queue(h, len) ==> x < |f| && Smaller(f, d, n, x) && (x != n ==> Smaller(f, d, m, x)))
    && Queue(h', len - 1) == Queue(h, len) - multiset{n} - multiset{m} + multiset{node}
    && h'[max - 2..] == [m, n] + h[max..]
  }

  lemma CombineBags(h: seq<nat>, len: nat, h1: seq<nat>, h2: seq<nat>, n: nat, node: nat)
    requires 2 <= len < |h| == |h1| == |h2| && h2[1] == node && forall j :: 2 <= j < len ==> h2[j] == h1[j]
    requires Queue(h1, len - 1) == Queue(h, len) - multiset{n}
    ensures Queue(h2, len - 1) == Queue(h, len) - multiset{n} - multiset{h1[1]} + multiset{node}
  {
    var rest := h1[2..len];
    assert h1[1..len] == [h1[1]] + rest;
    assert h2[1..len] == [node] + rest;
  }

  lemma SecondLeast(f: seq<nat>, d: seq<nat>, h: seq<nat>, len: nat, h1: seq<nat>, n: nat)
    requires RootRemoved(f, d, h, len, h1, n) && NodesOk(f, d, h1, len - 1) && HeapFrom(f, d, h1, len - 1, 1)
    ensures h1[1] < |f|
    ensures forall x :: x in Queue(h, len) ==> x < |f| && Smaller(f, d, n, x) && (x != n ==> Smaller(f, d, h1[1], x))
  {
    hide HeapFrom;
    forall x | x in Queue(h, len)
      ensures x < |f| && Smaller(f, d, n, x) && (x != n ==> Smaller(f, d, h1[1], x))
    {
      if x != n {
        assert x in Queue(h1, len - 1);
        RootIsLeastOfAll(f, d, h1, len - 1, x);
      }
    }
  }

  /** Taking out n, listing n and m, and putting node in the place of m. */
  lemma CombineSteps(f: seq<nat>, d: seq<nat>, h: seq<nat>, len: nat, max: nat, h1: seq<nat>, h3: seq<nat>,
                     n: nat, node: nat)
    requires 2 <= len < max - 2 && max <= |h| && NoDup(Queue(h, len))
    requires RootRemoved(f, d, h, len, h1, n) && NodesOk(f, d, h1, len - 1) && HeapFrom(f, d, h1, len - 1, 1)
    requires Rearranged(h1[max - 1 := n][max - 2 := h1[1]][1 := node], h3, len - 1)
    ensures Combined(f, d, h, len, max, h3, n, h1[1], node)
  {
    hide HeapFrom, NoDup, Smaller, Queue;
    var m := h1[1];
    var h2 := h1[max - 1 := n][max - 2 := m][1 := node];
    CombineBags(h, len, h1, h2, n, node);
    SecondLeast(f, d, h, len, h1, n);
    RestOfQueue(f, d, h, len, h1, n);
    assert h3[max - 2..] == [m, n] + h[max..];
  }

  /** What the forest stands for: its leaves, and the cost that the greedy construction will reach. */
  ghost predicate Greedy(forest: seq<Tree>, f: seq<nat>, leaves: multiset<nat>, total: nat) {
    && AllNumbered(forest, |f|) && ForestLeaves(forest) == leaves && Uncles(forest, f) && Shallow(forest, f)
    && ForestCost(forest, f) + HuffCost(ForestWeights(forest, f)) == total
  }

  lemma LighterRoot(a: Tree, b: Tree, f: seq<nat>, freq: seq<nat>, d: seq<nat>, dad: seq<nat>, node: nat)
    requires TreeOk(a, f, freq, dad, node) && TreeOk(b, f, freq, dad, node)
    requires a.id < |freq| == |d| && b.id < |freq| && Smaller(freq, d, a.id, b.id)
    ensures Numbered(a, |f|) && Numbered(b, |f|) && Weight(a, f) <= Weight(b, f) && b.id < node
  {
    hide Weight, Linked, Numbered;
  }

  /** The trees of the two least nodes, brought to the front, are the least. */
  lemma FrontLeast(g: seq<Tree>, f: seq<nat>, freq: seq<nat>, d: seq<nat>, dad: seq<nat>, h: seq<nat>, len: nat,
                   max: nat, h': seq<nat>, n: nat, m: nat, node: nat)
    requires len < |h| && max <= |h| && Combined(freq, d, h, len, max, h', n, m, node)
    requires Growing(g, f, freq, dad, Queue(h, len), h[max..], node) && |g| >= 2 && g[0].id == n && g[1].id == m
    ensures forall k :: 0 <= k < |g| ==> TreeOk(g[k], f, freq, dad, node) && g[k].id < node && g[k].id < |freq|
    ensures forall k :: 0 <= k < |g| ==> Smaller(freq, d, n, g[k].id) && Numbered(g[k], |f|) && Weight(g[0], f) <= Weight(g[k], f)
    ensures forall k :: 1 <= k < |g| ==> Smaller(freq, d, m, g[k].id) && Weight(g[1], f) <= Weight(g[k], f)
  {
    hide NoDup, FathersFirst, ForestProper, Queue, TreeOk, Smaller, Weight, Numbered;
    forall k | 0 <= k < |g|
      ensures g[k].id < node && g[k].id < |freq| && Smaller(freq, d, n, g[k].id) && (k >= 1 ==> Smaller(freq, d, m, g[k].id))
      ensures Numbered(g[0], |f|) && Numbered(g[k], |f|) && Weight(g[0], f) <= Weight(g[k], f)
      ensures k >= 1 ==> Numbered(g[1], |f|) && Weight(g[1], f) <= Weight(g[k], f)
    {
      RootIn(g, k);
      assert TreeOk(g[0], f, freq, dad, node) && TreeOk(g[1], f, freq, dad, node) && TreeOk(g[k], f, freq, dad, node);
      if k >= 1 {
        assert g[k].id != n by { RootsDistinct(g, 0, k); }
        LighterRoot(g[1], g[k], f, freq, d, dad, node);
      }
      LighterRoot(g[0], g[k], f, freq, d, dad, node);
    }
  }

  /** A combination of the two least nodes, seen on the forest. */
  lemma CombineForest(forest: seq<Tree>, f: seq<nat>, freq: seq<nat>, d: seq<nat>, dad: seq<nat>, h: seq<nat>, len: nat,
                      max: nat, h': seq<nat>, freq': seq<nat>, dad': seq<nat>, n: nat, m: nat, node: nat,
                      leaves: multiset<nat>, total: nat)
    returns (forest': seq<Tree>)
    requires 1 <= len < |h| == |h'| && 2 <= max <= |h| && node < |freq| == |dad| && n < |freq| && m < |freq|
    requires freq' == freq[node := freq[n] + freq[m]] && dad' == dad[n := node][m := node]
    requires Combined(freq, d, h, len, max, h', n, m, node)
    requires Growing(forest, f, freq, dad, Queue(h, len), h[max..], node) && Greedy(forest, f, leaves, total)
    requires Deep(forest, d)
    ensures |forest'| == |forest| - 1 && Greedy(forest', f, leaves, total)
    ensures Growing(forest', f, freq', dad', Queue(h', len - 1), h'[max - 2..], node + 1)
    ensures Deep(forest', d[node := DepthAbove(d, n, m)])
  {
    hide NoDup, FathersFirst, ForestProper, Queue, HuffCost, ForestCost, ForestWeights, ForestLeaves, Weight, Uncles,
         Deep, Shallow, TreeOk, Smaller;
    var g := BringFront(forest, n, m);
    GrowingPermuted(forest, g, f, freq, dad, Queue(h, len), h[max..], node);
    ForestPermuted(forest, g);
    ForestCostPermuted(forest, g, f);
    assert |g| == |forest| by { assert |multiset(g)| == |g| && |multiset(forest)| == |forest|; }
    FrontLeast(g, f, freq, d, dad, h, len, max, h', n, m, node);
    DeepPermuted(forest, g, d);
    ShallowPermuted(forest, g, f);
    JoinDeep(g, node, d);
    JoinShallow(g, node, f, freq, d, dad);
    forest' := Join(g, node);
    JoinLeaves(g, node);
    JoinGreedy(g, node, f);
    UnclesPermuted(forest, g, f);
    JoinUncles(g, node, f);
    GrowStep(g, f, freq, dad, Queue(h, len), h[max..], node);
  }

  /** Listed nodes come by decreasing frequency. */
  ghost predicate Descends(ord: seq<nat>, freq: seq<nat>) {
    && InTable(ord, freq)
    && forall i, k :: 0 <= i < k < |ord| ==> freq[ord[k]] <= freq[ord[i]]
  }

  /** The nodes in the queue are at least as frequent as those listed. */
  ghost predicate Above(live: multiset<nat>, done: seq<nat>, freq: seq<nat>)
    requires InTable(done, freq)
  {
    done != [] ==> forall x :: x in live ==> x < |freq| && freq[done[0]] <= freq[x]
  }

  lemma DescendStep(freq: seq<nat>, d: seq<nat>, h: seq<nat>, len: nat, max: nat, h': seq<nat>, n: nat, m: nat, node: nat)
    requires Combined(freq, d, h, len, max, h', n, m, node) && node < |freq| && NoDup(Queue(h, len))
    requires Descends(h[max..], freq) && Above(Queue(h, len), h[max..], freq)
    requires (forall x :: x in Queue(h, len) ==> x < node) && forall i :: max <= i < |h| ==> h[i] < node
    ensures var freq' := freq[node := freq[n] + freq[m]];
            Descends(h'[max - 2..], freq') && Above(Queue(h', len - 1), h'[max - 2..], freq')
  {
    hide Queue;
    var live, done, done' := Queue(h, len), h[max..], [m, n] + h[max..];
    var freq' := freq[node := freq[n] + freq[m]];
    assert forall i :: 0 <= i < |done| ==> done[i] == h[max + i];
    assert forall i :: 2 <= i < |done'| ==> done'[i] == done[i - 2];
    forall i | 0 <= i < |done|
      ensures freq[done[i]] <= freq[n]
    {
      assert i > 0 ==> freq[done[i]] <= freq[done[0]];
    }
    forall x | x in live - multiset{n} - multiset{m} + multiset{node}
      ensures x < |freq'| && freq'[m] <= freq'[x]
    {
      if x != node {
        assert live[n] == 1 && x in live;
      }
    }
  }

  lemma ListedBelow(forest: seq<Tree>, f: seq<nat>, freq: seq<nat>, dad: seq<nat>, h: seq<nat>, len: nat, max: nat,
                    node: nat)
    requires len < |h| && max <= |h| && Growing(forest, f, freq, dad, Queue(h, len), h[max..], node)
    ensures NoDup(Queue(h, len)) && (forall x :: x in Queue(h, len) ==> x < node) && forall i :: max <= i < |h| ==> h[i] < node
  {
    hide NoDup, FathersFirst, ForestProper, Queue, TreeOk;
    RootBelow(forest, f, freq, dad, Queue(h, len), h[max..], node);
    forall i | max <= i < |h|
      ensures h[i] < node
    {
      assert h[max..][i - max] == h[i] && h[i] in h[max..];
    }
  }

  lemma CombinedBounds(f: seq<nat>, d: seq<nat>, h: seq<nat>, len: nat, max: nat, h': seq<nat>, n: nat, m: nat, node: nat)
    requires Combined(f, d, h, len, max, h', n, m, node)
    ensures n < |f| && m < |f|
  {
  }

  lemma GrowingBounds(forest: seq<Tree>, f: seq<nat>, freq: seq<nat>, dad: seq<nat>,
                      live: multiset<nat>, done: seq<nat>, node: nat)
    requires Growing(forest, f, freq, dad, live, done, node)
    ensures |freq| == |dad|
  {
  }

  lemma QueueBelow(forest: seq<Tree>, f: seq<nat>, freq: seq<nat>, dad: seq<nat>, h: seq<nat>, len: nat, max: nat,
                   node: nat)
    requires len < |h| && max <= |h| && Growing(forest, f, freq, dad, Queue(h, len), h[max..], node)
    ensures NoDup(Queue(h, len)) && forall j :: 1 <= j <= len ==> h[j] < node
  {
    hide NoDup, FathersFirst, ForestProper;
    RootBelow(forest, f, freq, dad, Queue(h, len), h[max..], node);
    forall j | 1 <= j <= len
      ensures h[j] < node
    {
      assert h[j] == h[1..len + 1][j - 1];
      assert h[j] in Queue(h, len);
    }
  }

  /** maxCode is the largest symbol with a frequency, or -1. */
  ghost predicate MaxCodeOk(f: seq<nat>, maxCode: int) {
    && -1 <= maxCode < |f| && (0 <= maxCode ==> f[maxCode] != 0)
    && forall x :: maxCode < x < |f| ==> f[x] == 0
  }

  lemma MaxCodeIs(f: seq<nat>, maxCode: int)
    requires -1 <= maxCode < |f| && (0 <= maxCode ==> f[maxCode] != 0)
    requires forall x :: maxCode < x < |f| ==> f[x] == 0
    ensures MaxCodeOk(f, maxCode)
  {
  }

  lemma MaxCodeRange(f: seq<nat>, maxCode: int)
    requires MaxCodeOk(f, maxCode)
    ensures -1 <= maxCode < |f|
  {
  }

  lemma QueueIs(h: seq<nat>, len: nat, us: seq<nat>)
    requires len < |h| && h[1..len + 1] == us
    ensures Queue(h, len) == multiset(us)
  {
  }

  /** The symbol that is given a code when fewer than two have one. */
  function NewCode(maxCode: int): nat
    requires -1 <= maxCode
  {
    if maxCode < 2 then maxCode + 1 else 0
  }

  lemma NewCodeUnused(f: seq<nat>, maxCode: int)
    requires 3 <= |f| && MaxCodeOk(f, maxCode) && |UsedTo(f, |f|)| < 2
    ensures var x := NewCode(maxCode);
            x < 3 && f[x] == 0 && MaxCodeOk(f[x := 1], if x > maxCode then x else maxCode)
  {
    if maxCode >= 2 && f[0] != 0 {
      UsedAll(f, |f|, 0);
      UsedAll(f, |f|, maxCode);
    }
  }

  /** g is f with the symbols of xs, which had no frequency, given the frequency 1. */
  ghost predicate ForcedFrom(f: seq<nat>, g: seq<nat>, xs: seq<nat>) {
    && |f| == |g| && |xs| <= 2
    && (forall i :: 0 <= i < |xs| ==> xs[i] < |f| && xs[i] < 3 && f[xs[i]] == 0 && g[xs[i]] == 1)
    && (forall i, j :: 0 <= i < j < |xs| ==> xs[i] != xs[j])
    && (forall n :: 0 <= n < |f| && n !in xs ==> g[n] == f[n])
  }

  lemma ForceOne(f: seq<nat>, g: seq<nat>, xs: seq<nat>, x: nat)
    requires ForcedFrom(f, g, xs) && |xs| < 2 && x < |g| && x < 3 && g[x] == 0
    ensures ForcedFrom(f, g[x := 1], xs + [x])
  {
    assert x !in xs;
  }

  lemma QueueAppend(h: seq<nat>, len: nat, x: nat)
    requires len + 1 < |h|
    ensures Queue(h[len + 1 := x], len + 1) == Queue(h, len) + multiset{x}
  {
    assert h[len + 1 := x][1..len + 2] == h[1..len + 1] + [x];
  }

  lemma QueueSize(h: seq<nat>, len: nat)
    requires len < |h|
    ensures |Queue(h, len)| == len
  {
  }

  /** Symbols without a frequency are not in the queue and have no code. */
  ghost predicate UnusedApart(f: seq<nat>, dl: seq<nat>, live: multiset<nat>) {
    && |f| <= |dl|
    && forall x :: 0 <= x < |f| && f[x] == 0 ==> dl[x] == 0 && x !in live
  }

  lemma StayApart(f: seq<nat>, freq: seq<nat>, d: seq<nat>, dl: seq<nat>, h: seq<nat>, len: nat, max: nat, h': seq<nat>,
                  n: nat, m: nat, node: nat)
    requires 1 <= len < |h| == |h'| && n < |dl| && m < |dl| && |f| <= node
    requires Combined(freq, d, h, len, max, h', n, m, node) && UnusedApart(f, dl, Queue(h, len))
    ensures UnusedApart(f, dl[n := node][m := node], Queue(h', len - 1))
  {
    hide Queue;
  }

  /** No optimal code for the used symbols has all its lengths below the height of t. */
  ghost predicate Shallowest(t: Tree, f: seq<nat>) {
    Height(t) < 256 ==> forall h: nat :: Attains(LeafForest(UsedTo(f, |f|)), f, h) ==> Height(t) <= h
  }

  lemma ShallowTree(t: Tree, f: seq<nat>)
    requires Shallow([t], f)
    ensures Shallowest(t, f)
  {
    hide Attains, Height, UsedTo;
    if Height(t) < 256 {
      forall h: nat | Attains(LeafForest(UsedTo(f, |f|)), f, h)
        ensures Height(t) <= h
      {
        HeightAttained(t, f, h);
      }
    }
  }

  /** t is a Huffman tree on the used symbols of f, recorded in dad; ord lists its nodes, fathers first. */
  ghost predicate TreeBuilt(t: Tree, f: seq<nat>, dad: seq<nat>, ord: seq<nat>) {
    && Numbered(t, |f|) && Linked(t, dad) && |f| <= |dad|
    && multiset(Leaves(t)) == multiset(UsedTo(f, |f|))
    && |ord| >= 1 && ord[0] == t.id && multiset(ord[1..]) == multiset(Proper(t))
    && NoDup(multiset(ord))
    && (forall i :: 0 <= i < |ord| ==> ord[i] < |dad|)
    && (forall i :: 1 <= i < |ord| ==> dad[ord[i]] in ord[..i])
    && InTable(UsedTo(f, |f|), f) && InnerCost(t, f) == HuffCost(BagAt(f, UsedTo(f, |f|)))
    && Heavy(t, f) && Shallowest(t, f)
  }

  /** When one tree is left, its root completes the list. */
  lemma FinishTree(forest: seq<Tree>, f: seq<nat>, freq: seq<nat>, dad: seq<nat>, live: multiset<nat>,
                   done: seq<nat>, node: nat, total: nat)
    requires |forest| == 1 && Growing(forest, f, freq, dad, live, done, node)
    requires Greedy(forest, f, multiset(UsedTo(f, |f|)), total)
    requires InTable(UsedTo(f, |f|), f) && total == HuffCost(BagAt(f, UsedTo(f, |f|)))
    ensures live == multiset{forest[0].id}
    ensures TreeBuilt(forest[0], f, dad, [forest[0].id] + done)
  {
    hide UsedTo, InnerCost, ForestProper, ForestLeaves, ForestCost, ForestWeights, HuffCost, BagAt;
    hide NoDup, FathersFirst, Proper, Leaves, Linked, Weight, Heavy, Shallow, Shallowest;
    var t := forest[0];
    assert forest == [t];
    ShallowTree(t, f);
    assert Roots(forest) == [t.id];
    assert TreeOk(t, f, freq, dad, node);
    FinishSums(forest, f);
    FinishOrder(done, dad, t.id);
    NoDupCons(done, t.id);
  }

  lemma FinishOrder(done: seq<nat>, dad: seq<nat>, root: nat)
    requires FathersFirst(done, multiset{root}, dad) && root < |dad|
    ensures var ord := [root] + done;
            && ord[1..] == done
            && (forall i :: 0 <= i < |ord| ==> ord[i] < |dad|)
            && (forall i :: 1 <= i < |ord| ==> dad[ord[i]] in ord[..i])
  {
    var ord := [root] + done;
    forall i | 1 <= i < |ord|
      ensures dad[ord[i]] in ord[..i]
    {
      assert ord[..i] == [root] + done[..i - 1];
    }
  }

  lemma NoDupCons(done: seq<nat>, x: nat)
    requires NoDup(multiset(done)) && x !in done
    ensures NoDup(multiset([x] + done))
  {
    assert multiset([x] + done) == multiset{x} + multiset(done);
    assert x !in multiset(done);
  }

  lemma FinishSums(forest: seq<Tree>, f: seq<nat>)
    requires |forest| == 1 && AllNumbered(forest, |f|)
    ensures ForestProper(forest) == multiset(Proper(forest[0]))
    ensures ForestLeaves(forest) == multiset(Leaves(forest[0]))
    ensures ForestCost(forest, f) + HuffCost(ForestWeights(forest, f)) == InnerCost(forest[0], f)
  {
    assert forest[1..] == [];
    assert ForestWeights(forest, f) == multiset{Weight(forest[0], f)};
    HuffBase(ForestWeights(forest, f));
  }

  lemma PreparedNodes(f: seq<nat>, freq: seq<nat>, dl: seq<nat>, depth: seq<nat>, h: seq<nat>, len: nat)
    requires |f| <= |freq| == |dl| == |depth| && f == freq[..|f|] && len < |h|
    requires Queue(h, len) == multiset(UsedTo(f, |f|))
    requires forall x :: 0 <= x < |f| ==> if f[x] == 0 then dl[x] == 0 else depth[x] == 0
    ensures NodesOk(freq, depth, h, len) && len <= |f| && len == |UsedTo(f, |f|)|
    ensures Growing(LeafForest(UsedTo(f, |f|)), f, freq, dl, Queue(h, len), [], |f|)
    ensures UnusedApart(f, dl, Queue(h, len)) && Deep(LeafForest(UsedTo(f, |f|)), depth)
  {
    hide Growing;
    var us := UsedTo(f, |f|);
    UsedBelow(f, |f|);
    UsedNoDup(f, |f|);
    StartGrowing(us, f, freq, dl);
    QueueSize(h, len);
    assert |multiset(us)| == |us|;
    forall j | 1 <= j <= len
      ensures h[j] < |freq|
    {
      assert h[j] == h[1..len + 1][j - 1];
      assert h[j] in multiset(us);
    }
    forall x | 0 <= x < |f| && f[x] == 0
      ensures x !in Queue(h, len)
    {
      assert x !in us;
    }
  }

  lemma StartGreedy(us: seq<nat>, f: seq<nat>) returns (total: nat)
    requires us == UsedTo(f, |f|)
    ensures InTable(us, f) && total == HuffCost(BagAt(f, us)) && Greedy(LeafForest(us), f, multiset(us), total)
  {
    hide HuffCost, BagAt, ForestWeights, ForestCost, ForestLeaves;
    UsedBelow(f, |f|);
    LeafForestSums(us, f);
    LeafForestWeights(us, f);
    total := HuffCost(BagAt(f, us));
  }

  lemma RootFirst(done: seq<nat>, live: multiset<nat>, r: nat, freq: seq<nat>)
    requires Descends(done, freq) && Above(live, done, freq) && r in live && r < |freq|
    ensures Descends([r] + done, freq)
  {
    var ord := [r] + done;
    forall i, k | 0 <= i < k < |ord|
      ensures freq[ord[k]] <= freq[ord[i]]
    {
      assert ord[k] == done[k - 1] && (k > 1 ==> freq[done[k - 1]] <= freq[done[0]]);
    }
  }

  lemma OnlyRoot(h: seq<nat>, r: nat)
    requires 1 < |h| && Queue(h, 1) == multiset{r}
    ensures h[1] == r
  {
    assert h[1..2] == [h[1]];
    assert h[1] in Queue(h, 1);
  }

  class Builder {
    const elems: nat
    const freq: array<nat>   // frequency of each node
    const dl: array<nat>     // father of each node, later the length of its code
    const depth: array<nat>  // depth of each subtree
    const heap: array<nat>   // the queue from 1 up, the nodes taken out from heapMax up
    var heapLen: nat
    var heapMax: nat
    var maxCode: int         // largest symbol with a frequency

    constructor (elems: nat, heapSize: nat)
      requires 2 * elems < heapSize
      ensures this.elems == elems && heap.Length == heapSize && Shape()
      ensures fresh(freq) && fresh(dl) && fresh(depth) && fresh(heap)
    {
      maxCode := -1;
      this.elems := elems;
      freq, dl, depth := new nat[2 * elems + 1], new nat[2 * elems + 1], new nat[2 * elems + 1];
      heap := new nat[heapSize];
      heapLen, heapMax := 0, heapSize;
    }

    ghost predicate Shape() {
      && freq.Length == dl.Length == depth.Length == 2 * elems + 1 < heap.Length + 1
      && freq != dl && freq != depth && freq != heap && dl != depth && dl != heap && depth != heap
    }

    ghost predicate QueueOk()
      reads freq, depth, heap, this`heapLen
    {
      && NodesOk(freq[..], depth[..], heap[..], heapLen)
      && HeapFrom(freq[..], depth[..], heap[..], heapLen, 1)
    }

    /** pqremove: takes the least node out of the queue. */
    method PqRemove() returns (top: nat)
      requires Shape() && QueueOk() && 2 <= heapLen
      modifies heap, this`heapLen
      ensures QueueOk() && heapLen == old(heapLen) - 1
      ensures RootRemoved(freq[..], depth[..], old(heap[..]), old(heapLen), heap[..], top)
    {
      hide HeapFrom, Rearranged, RootRemoved;
      ghost var f, d, h := freq[..], depth[..], heap[..];
      RemoveRoot(f, d, h, heapLen);
      top := heap[1];
      heap[1] := heap[heapLen];
      heapLen := heapLen - 1;
      ghost var h1 := heap[..];
      assert h1 == h[1 := h[heapLen + 1]];
      PqDownHeap(freq, depth, heap, heapLen, 1);
      RemovedThenRearranged(f, d, h, heapLen + 1, h1, heap[..], top);
    }

    /** Lists the sons and creates their father, which takes the place of m in the queue. */
    method CreateFather(n: nat, m: nat, node: nat)
      requires Shape() && n != m && n < node && m < node < freq.Length
      requires 1 <= heapLen < heapMax - 2 && heapMax <= heap.Length
      modifies freq, depth, dl, heap, this`heapMax
      ensures heapMax == old(heapMax) - 2
      ensures heap[..] == old(heap[..])[heapMax + 1 := n][heapMax := m][1 := node]
      ensures freq[..] == old(freq[..])[node := old(freq[n] + freq[m])]
      ensures depth[..] == old(depth[..])[node := DepthAbove(old(depth[..]), n, m)]
      ensures dl[..] == old(dl[..])[n := node][m := node]
    {
      heapMax := heapMax - 1;
      heap[heapMax] := n;
      heapMax := heapMax - 1;
      heap[heapMax] := m;
      freq[node] := freq[n] + freq[m];
      depth[node] := ((if depth[n] >= depth[m] then depth[n] else depth[m]) + 1) % 256;
      dl[n], dl[m] := node, node;
      heap[1] := node;
    }

    /** Combines the two least nodes of the queue under a new father. */
    method CombineTwo(node: nat) returns (n: nat, m: nat)
      requires Shape() && QueueOk() && 2 <= heapLen < heapMax - 2 && heapMax <= heap.Length
      requires node < freq.Length && NoDup(Queue(heap[..], heapLen))
      requires forall j :: 1 <= j <= heapLen ==> heap[j] < node
      modifies freq, depth, dl, heap, this`heapLen, this`heapMax
      ensures QueueOk() && heapLen == old(heapLen) - 1 && heapMax == old(heapMax) - 2
      ensures Combined(old(freq[..]), old(depth[..]), old(heap[..]), old(heapLen), old(heapMax), heap[..], n, m, node)
      ensures freq[..] == old(freq[..])[node := old(freq[..])[n] + old(freq[..])[m]]
      ensures dl[..] == old(dl[..])[n := node][m := node]
      ensures depth[..] == old(depth[..])[node := DepthAbove(old(depth[..]), n, m)]
    {
      hide HeapFrom, NoDup, Rearranged, RootRemoved, Combined;
      ghost var f, d, h, len, max := freq[..], depth[..], heap[..], heapLen, heapMax;
      n := PqRemove();
      ghost var h1 := heap[..];
      m := heap[1];
      RestOfQueue(f, d, h, len, h1, n);
      forall x | x in Queue(h, len) ensures x < node {
        BelowNode(h, len, node, x);
      }
      CreateFather(n, m, node);
      ReplaceRoot(f, d, h1, heap[..], heapLen, node, freq[node], depth[node]);
      PqDownHeap(freq, depth, heap, heapLen, 1);
      CombineSteps(f, d, h, len, max, h1, heap[..], n, node);
    }

    /** The state of the construction: node is the next father, k nodes were there at the start. */
    ghost predicate Building(forest: seq<Tree>, f: seq<nat>, node: nat)
      reads this, freq, dl, depth, heap
    {
      && Shape() && QueueOk() && |f| == elems <= node && |forest| == heapLen
      && 1 <= heapLen && heapLen + (node - elems) <= elems && heapMax == heap.Length - 2 * (node - elems)
      && freq[..elems] == f && UnusedApart(f, dl[..], Queue(heap[..], heapLen))
      && Growing(forest, f, freq[..], dl[..], Queue(heap[..], heapLen), heap[..][heapMax..], node)
      && Descends(heap[..][heapMax..], freq[..]) && Above(Queue(heap[..], heapLen), heap[..][heapMax..], freq[..])
      && Deep(forest, depth[..])
    }

    /** One turn of the construction loop. */
    method Grow(node: nat, ghost forest: seq<Tree>, ghost f: seq<nat>, ghost leaves: multiset<nat>, ghost total: nat)
      returns (ghost forest': seq<Tree>)
      requires Building(forest, f, node) && 2 <= heapLen && Greedy(forest, f, leaves, total)
      modifies freq, depth, dl, heap, this`heapLen, this`heapMax
      ensures Building(forest', f, node + 1) && Greedy(forest', f, leaves, total)
      ensures heapLen == old(heapLen) - 1
    {
      hide Growing, Greedy, HeapFrom, Combined, Queue, UnusedApart, Descends, Above, Deep;
      ghost var d := depth[..];
      ghost var fr, dad, h, len, max := freq[..], dl[..], heap[..], heapLen, heapMax;
      ListedBelow(forest, f, fr, dad, h, len, max, node);
      QueueBelow(forest, f, fr, dad, h, len, max, node);
      var n, m := CombineTwo(node);
      CombinedBounds(fr, d, h, len, max, heap[..], n, m, node);
      GrowingBounds(forest, f, fr, dad, Queue(h, len), h[max..], node);
      StayApart(f, fr, d, dad, h, len, max, heap[..], n, m, node);
      DescendStep(fr, d, h, len, max, heap[..], n, m, node);
      forest' := CombineForest(forest, f, fr, d, dad, h, len, max, heap[..], freq[..], dl[..], n, m, node, leaves, total);
    }

    /** The symbols with a frequency are in the queue, in some order. */
    ghost predicate Queued(f: seq<nat>)
      reads this`heapLen, this`maxCode, freq, heap, depth
    {
      && Shape() && heapLen < heap.Length && |f| == elems && f == freq[..elems]
      && (forall x :: 0 <= x < elems && f[x] != 0 ==> depth[x] == 0)
      && Queue(heap[..], heapLen) == multiset(UsedTo(f, elems))
      && MaxCodeOk(f, maxCode)
    }

    /** The first loop of build_tree: collects the used symbols; the others get no code. */
    method StartQueue()
      requires Shape()
      modifies dl, depth, heap, this`heapLen, this`heapMax, this`maxCode
      ensures Queued(freq[..elems]) && heapMax == heap.Length
      ensures forall n :: 0 <= n < elems && freq[n] == 0 ==> dl[n] == 0
    {
      hide Queue, MaxCodeOk;
      heapLen, heapMax, maxCode := 0, heap.Length, -1;
      ghost var f := freq[..elems];
      for n := 0 to elems
        invariant heapLen <= n && heap[1..heapLen + 1] == UsedTo(f, n) && f == freq[..elems]
        invariant heapMax == heap.Length && -1 <= maxCode < n && (0 <= maxCode ==> f[maxCode] != 0)
        invariant forall x :: maxCode < x < n ==> f[x] == 0
        invariant forall x :: 0 <= x < n && f[x] == 0 ==> dl[x] == 0
        invariant forall x :: 0 <= x < n && f[x] != 0 ==> depth[x] == 0
      {
        if freq[n] != 0 {
          heapLen := heapLen + 1;
          heap[heapLen], maxCode := n, n;
          depth[n] := 0;
        } else {
          dl[n] := 0;
        }
      }
      QueueIs(heap[..], heapLen, UsedTo(f, elems));
      MaxCodeIs(f, maxCode);
    }

    /** At least two codes are needed: gives the frequency 1 to the symbols 0, 1 or 2 that are missing. */
    method Force() returns (forced: seq<nat>)
      requires Shape() && 3 <= elems && Queued(freq[..elems])
      requires forall n :: 0 <= n < elems && freq[n] == 0 ==> dl[n] == 0
      modifies freq, depth, heap, this`heapLen, this`maxCode
      ensures Queued(freq[..elems]) && 2 <= heapLen && (forced != [] ==> heapLen == 2)
      ensures ForcedFrom(old(freq[..elems]), freq[..elems], forced) && |forced| == heapLen - old(heapLen)
      ensures forall n :: 0 <= n < elems && freq[n] == 0 ==> dl[n] == 0
    {
      forced := [];
      ghost var f0 := freq[..elems];
      while heapLen < 2
        invariant Queued(freq[..elems]) && |forced| == heapLen - old(heapLen)
        invariant old(heapLen) <= heapLen && (forced != [] ==> heapLen <= 2)
        invariant ForcedFrom(f0, freq[..elems], forced)
        invariant forall n :: 0 <= n < elems && freq[n] == 0 ==> dl[n] == 0
      {
        forced := ForceStep(f0, forced);
      }
    }

    method ForceStep(ghost f0: seq<nat>, xs: seq<nat>) returns (xs': seq<nat>)
      requires Shape() && 3 <= elems && Queued(freq[..elems]) && heapLen < 2 && |xs| <= heapLen
      requires ForcedFrom(f0, freq[..elems], xs)
      modifies freq, depth, heap, this`heapLen, this`maxCode
      ensures Queued(freq[..elems]) && heapLen == old(heapLen) + 1 && |xs'| == |xs| + 1
      ensures ForcedFrom(f0, freq[..elems], xs')
      ensures forall n :: 0 <= n < elems && freq[n] == 0 ==> old(freq[n]) == 0
    {
      hide Queue, MaxCodeOk, ForcedFrom;
      ghost var f: seq<nat>, h: seq<nat> := freq[..elems], heap[..];
      QueueSize(h, heapLen);
      assert |multiset(UsedTo(f, elems))| == |UsedTo(f, elems)|;
      MaxCodeRange(f, maxCode);
      NewCodeUnused(f, maxCode);
      var code: nat := NewCode(maxCode);
      UsedMore(f, code, elems);
      QueueAppend(h, heapLen, code);
      ForceOne(f0, f, xs, code);
      xs' := xs + [code];
      if code > maxCode {
        maxCode := code;
      }
      heapLen := heapLen + 1;
      heap[heapLen] := code;
      freq[code] := 1;
      depth[code] := 0;
      assert freq[..elems] == f[code := 1];
      assert heap[..] == h[heapLen := code];
    }

    /** Establishes sub-heaps of increasing lengths. */
    method Heapify()
      requires Shape() && NodesOk(freq[..], depth[..], heap[..], heapLen)
      modifies heap
      ensures QueueOk() && Queue(heap[..], heapLen) == old(Queue(heap[..], heapLen))
    {
      hide Ordered, Queue;
      ghost var h := heap[..];
      var n: nat := heapLen / 2;
      while n >= 1
        invariant n <= heapLen / 2 && NodesOk(freq[..], depth[..], heap[..], heapLen)
        invariant HeapFrom(freq[..], depth[..], heap[..], heapLen, n + 1)
        invariant Queue(heap[..], heapLen) == Queue(h, heapLen)
      {
        PqDownHeap(freq, depth, heap, heapLen, n);
        n := n - 1;
      }
    }

    /** Fills the queue with the used symbols, at least two of them. */
    method Prepare() returns (forced: seq<nat>)
      requires Shape() && 3 <= elems
      modifies freq, dl, depth, heap, this`heapLen, this`heapMax, this`maxCode
      ensures 2 <= heapLen <= elems && ForcedFrom(old(freq[..elems]), freq[..elems], forced)
      ensures forced != [] ==> heapLen == 2 && |UsedTo(old(freq[..elems]), elems)| < 2
      ensures MaxCodeOk(freq[..elems], maxCode)
      ensures Building(LeafForest(UsedTo(freq[..elems], elems)), freq[..elems], elems)
    {
      hide HeapFrom, Queue, MaxCodeOk, ForcedFrom, Growing, UnusedApart;
      StartQueue();
      QueueSize(heap[..], heapLen);
      assert |multiset(UsedTo(freq[..elems], elems))| == |UsedTo(freq[..elems], elems)|;
      forced := Force();
      ghost var f := freq[..elems];
      PreparedNodes(f, freq[..], dl[..], depth[..], heap[..], heapLen);
      Heapify();
      assert heap[..][heapMax..] == [];
    }

    /** Combines until one node is left in the queue. */
    method CombineAll(ghost forest: seq<Tree>, ghost f: seq<nat>, ghost leaves: multiset<nat>, ghost total: nat)
      returns (ghost t: Tree, ghost node: nat)
      requires Building(forest, f, elems) && Greedy(forest, f, leaves, total)
      modifies freq, depth, dl, heap, this`heapLen, this`heapMax
      ensures heapLen == 1 && Building([t], f, node) && Greedy([t], f, leaves, total)
    {
      hide HeapFrom, Queue, Growing, Greedy, UnusedApart;
      ghost var trees := forest;
      var next := elems;
      while heapLen >= 2
        invariant Building(trees, f, next) && Greedy(trees, f, leaves, total)
        decreases heapLen
      {
        trees := Grow(next, trees, f, leaves, total);
        next := next + 1;
      }
      t, node := trees[0], next;
      assert trees == [t];
    }

    /** The last node, the root, completes the list of all nodes from heapMax on. */
    method ListRoot(ghost t: Tree, ghost f: seq<nat>, ghost node: nat, ghost total: nat)
      requires heapLen == 1 && Building([t], f, node) && Greedy([t], f, multiset(UsedTo(f, |f|)), total)
      requires InTable(UsedTo(f, |f|), f) && total == HuffCost(BagAt(f, UsedTo(f, |f|)))
      modifies heap, this`heapMax
      ensures 0 < heapMax < heap.Length && TreeBuilt(t, f, dl[..], heap[..][heapMax..])
      ensures Descends(heap[..][heapMax..], freq[..])
    {
      hide HeapFrom, Queue, Growing, Greedy, TreeBuilt, UsedTo, BagAt, HuffCost;
      ghost var h := heap[..];
      FinishTree([t], f, freq[..], dl[..], Queue(h, 1), h[heapMax..], node, total);
      OnlyRoot(h, t.id);
      heapMax := heapMax - 1;
      heap[heapMax] := heap[1];
      assert heap[..][heapMax..] == [t.id] + h[heapMax + 1..];
      RootFirst(h[heapMax + 1..], Queue(h, 1), t.id, freq[..]);
    }

    /** build_tree up to gen_bitlen: a Huffman tree on the used symbols. */
    method Construct() returns (ghost t: Tree, forced: seq<nat>)
      requires Shape() && 3 <= elems
      modifies freq, dl, depth, heap, this`heapLen, this`heapMax, this`maxCode
      ensures ForcedFrom(old(freq[..elems]), freq[..elems], forced)
      ensures forced != [] ==> |UsedTo(freq[..elems], elems)| == 2 && |UsedTo(old(freq[..elems]), elems)| < 2
      ensures 2 <= |UsedTo(freq[..elems], elems)| && MaxCodeOk(freq[..elems], maxCode)
      ensures 0 < heapMax < heap.Length && TreeBuilt(t, freq[..elems], dl[..], heap[..][heapMax..])
      ensures Descends(heap[..][heapMax..], freq[..])
      ensures forall x :: 0 <= x < elems && freq[x] == 0 ==> dl[x] == 0
    {
      hide HeapFrom, Queue, MaxCodeOk, ForcedFrom, Growing, Greedy, TreeBuilt, BagAt, HuffCost, UsedTo, InTable, Descends;
      forced := Prepare();
      ghost var f := freq[..elems];
      ghost var us := UsedTo(f, elems);
      ghost var total := StartGreedy(us, f);
      ghost var node;
      t, node := CombineAll(LeafForest(us), f, multiset(us), total);
      ListRoot(t, f, node, total);
    }
  }
}
