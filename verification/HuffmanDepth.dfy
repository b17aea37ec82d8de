/**
 How deep a Huffman tree can get (archival/gzip.c, gen_bitlen): a long code needs many occurrences,
 so short messages never need the repair of too long codes.
 */
module HuffmanDepth {
  import opened Sums
  import opened HuffmanTree
  import opened HuffmanGrow
  import opened TreeLengths

  function Fib(n: nat): nat {
    if n < 2 then n else Fib(n - 1) + Fib(n - 2)
  }

  lemma {:induction false} FibRises(n: nat, k: nat)
    requires n <= k
    ensures Fib(n) <= Fib(k)
    decreases k
  {
    if n < k {
      FibRises(n, k - 1);
    }
  }

  lemma {:induction false} NotTooDeep(t: Tree, d: nat, m: nat)
    requires d + Height(t) <= m
    ensures Over(t, d, m) == 0
  {
    if t.Node? {
      NotTooDeep(t.left, d + 1, m);
      NotTooDeep(t.right, d + 1, m);
    }
  }

  predicate Positive(t: Tree, f: seq<nat>)
    requires Numbered(t, |f|)
  {
    match t
    case Leaf(n) => f[n] > 0
    case Node(_, l, r) => Positive(l, f) && Positive(r, f)
  }

  /** A tree that deep weighs at least a Fibonacci number, and so does, with one less, a brother of its root. */
  lemma {:induction false} DeepIsHeavy(t: Tree, f: seq<nat>, w: nat)
    requires Numbered(t, |f|) && Heavy(t, f) && Positive(t, f) && Under(t, f, w) && w > 0
    ensures Weight(t, f) >= Fib(Height(t) + 2) && w >= Fib(Height(t) + 1)
  {
    hide Fib, Weight, Heavy, Under, Positive, Numbered;
    if t.Node? {
      var l, r := t.left, t.right;
      SonsParts(t, f, w);
      WeightPositive(l, f);
      WeightPositive(r, f);
      DeepIsHeavy(l, f, Weight(r, f));
      DeepIsHeavy(r, f, Weight(l, f));
      FibSides(Height(l), Height(r), Weight(l, f), Weight(r, f));
    } else {
      WeightPositive(t, f);
      FibSmall();
    }
  }

  lemma FibSides(a: nat, b: nat, x: nat, y: nat)
    requires Fib(a + 2) <= x && Fib(a + 1) <= y && Fib(b + 2) <= y && Fib(b + 1) <= x
    ensures var h := 1 + if a > b then a else b; Fib(h + 2) <= x + y && (Fib(h + 1) <= x || Fib(h + 1) <= y)
  {
    hide Fib;
    FibNext(1 + if a > b then a else b);
  }

  lemma FibSmall()
    ensures Fib(1) == 1 && Fib(2) == 1
  {
  }

  lemma SonsParts(t: Tree, f: seq<nat>, w: nat)
    requires t.Node? && Numbered(t, |f|) && Heavy(t, f) && Positive(t, f) && Under(t, f, w)
    ensures Numbered(t.left, |f|) && Numbered(t.right, |f|)
    ensures Heavy(t.left, f) && Positive(t.left, f) && Under(t.left, f, Weight(t.right, f)) && Weight(t.left, f) <= w
    ensures Heavy(t.right, f) && Positive(t.right, f) && Under(t.right, f, Weight(t.left, f)) && Weight(t.right, f) <= w
    ensures Weight(t, f) == Weight(t.left, f) + Weight(t.right, f)
  {
  }

  /** The limits for the code length code and for the other two. */
  lemma Limits()
    ensures Fib(7 + 3) == 55 && Fib(15 + 3) == 2584
  {
    assert Fib(3) == 2 && Fib(4) == 3 && Fib(5) == 5 && Fib(6) == 8 && Fib(7) == 13 && Fib(8) == 21 && Fib(9) == 34;
    assert Fib(10) == 55 && Fib(11) == 89 && Fib(12) == 144 && Fib(13) == 233 && Fib(14) == 377 && Fib(15) == 610;
    assert Fib(16) == 987 && Fib(17) == 1597;
  }

  lemma FibNext(h: nat)
    ensures Fib(h + 2) == Fib(h + 1) + Fib(h)
  {
  }

  lemma {:induction false} WeightPositive(t: Tree, f: seq<nat>)
    requires Numbered(t, |f|) && Positive(t, f)
    ensures Weight(t, f) > 0
  {
    if t.Node? {
      WeightPositive(t.left, f);
    }
  }

  lemma {:induction false} LeavesPositive(t: Tree, f: seq<nat>)
    requires Numbered(t, |f|) && forall x :: x in Leaves(t) ==> x < |f| && f[x] > 0
    ensures Positive(t, f)
  {
    if t.Node? {
      assert forall x :: x in Leaves(t.left) ==> x in Leaves(t);
      assert forall x :: x in Leaves(t.right) ==> x in Leaves(t);
      LeavesPositive(t.left, f);
      LeavesPositive(t.right, f);
    } else {
      assert t.id in Leaves(t);
    }
  }

  lemma {:induction false} WeightIsSum(t: Tree, f: seq<nat>)
    requires Numbered(t, |f|)
    ensures InTable(Leaves(t), f) && SumAt(f, Leaves(t)) == Weight(t, f)
  {
    match t
    case Leaf(n) =>
      SumOne(f, n);
    case Node(_, l, r) =>
      WeightIsSum(l, f);
      WeightIsSum(r, f);
      SumAppend(f, Leaves(l), Leaves(r));
  }

  /** The number of occurrences of the first n symbols. */
  function Total(f: seq<nat>, n: nat): nat
    requires n <= |f|
  {
    if n == 0 then 0 else Total(f, n - 1) + f[n - 1]
  }

  lemma {:induction false} TotalUsed(f: seq<nat>, n: nat)
    requires n <= |f|
    ensures InTable(UsedTo(f, n), f) && SumAt(f, UsedTo(f, n)) == Total(f, n)
  {
    if n > 0 {
      TotalUsed(f, n - 1);
      if f[n - 1] != 0 {
        SumOne(f, n - 1);
        SumAppend(f, UsedTo(f, n - 1), [n - 1]);
      }
    }
  }

  /** A message of fewer than Fib(m + 3) symbols has no code of more than m bits before the repair. */
  lemma ShortNeedsNoRepair(t: Tree, f: seq<nat>, m: nat)
    requires Numbered(t, |f|) && Heavy(t, f) && multiset(Leaves(t)) == multiset(UsedTo(f, |f|))
    requires Total(f, |f|) < Fib(m + 3)
    ensures Over(t, 0, m) == 0
  {
    hide Heavy, Numbered, Weight, Over, Under, SumAt, UsedTo, Positive, Fib;
    TreeTotal(t, f);
    DeepIsHeavy(t, f, Weight(t, f));
    if Height(t) > m {
      FibRises(m + 3, Height(t) + 2);
    }
    NotTooDeep(t, 0, m);
  }

  lemma TreeTotal(t: Tree, f: seq<nat>)
    requires Numbered(t, |f|) && multiset(Leaves(t)) == multiset(UsedTo(f, |f|))
    ensures Weight(t, f) == Total(f, |f|) > 0 && Positive(t, f) && Under(t, f, Weight(t, f))
  {
    var us := UsedTo(f, |f|);
    UsedBelow(f, |f|);
    TotalUsed(f, |f|);
    WeightIsSum(t, f);
    SumPermuted(f, us, Leaves(t));
    hide UsedTo;
    forall x | x in Leaves(t)
      ensures x < |f| && f[x] > 0
    {
      assert x in multiset(us);
    }
    LeavesPositive(t, f);
    WeightPositive(t, f);
  }
}
