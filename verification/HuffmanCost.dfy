/**
 Optimal code lengths.  HuffCost is the cost of the greedy construction on a multiset of
 weights; the theorem is that no assignment of lengths that satisfies Kraft's inequality,
 so no prefix code, costs less.
 */
module HuffmanCost {
  import opened Words
  import opened Sums

  /** A symbol of weight w with a code of l bits. */
  datatype Item = Item(w: nat, l: nat)

  function Bits(x: Item): nat {
    x.w * x.l
  }

  /** The length of the message: each symbol occurs w times and takes l bits. */
  function Cost(s: seq<Item>): nat {
    if s == [] then 0 else Bits(s[0]) + Cost(s[1..])
  }

  predicate Within(s: seq<Item>, m: nat) {
    forall i :: 0 <= i < |s| ==> s[i].l <= m
  }

  /** The Kraft sum in units of 2^-m. */
  function Kraft(s: seq<Item>, m: nat): nat
    requires Within(s, m)
  {
    if s == [] then 0 else Pow2(m - s[0].l) + Kraft(s[1..], m)
  }

  ghost function Weights(s: seq<Item>): (r: multiset<nat>)
    ensures |r| == |s|
  {
    if s == [] then multiset{} else multiset{s[0].w} + Weights(s[1..])
  }

  ghost predicate IsMin(ws: multiset<nat>, a: nat) {
    a in ws && forall x :: x in ws ==> a <= x
  }

  lemma MinExists(ws: multiset<nat>)
    requires |ws| > 0
    ensures exists a :: IsMin(ws, a)
    decreases |ws|
  {
    var x :| x in ws;
    var rest := ws - multiset{x};
    if |rest| > 0 {
      MinExists(rest);
      var a :| IsMin(rest, a);
      assert ws == rest + multiset{x};
      assert IsMin(ws, if a <= x then a else x);
    } else {
      assert ws == multiset{x};
      assert IsMin(ws, x);
    }
  }

  ghost function Min(ws: multiset<nat>): (a: nat)
    requires |ws| > 0
    ensures IsMin(ws, a)
  {
    MinExists(ws);
    var a :| IsMin(ws, a);
    a
  }

  /** The two smallest weights replaced by their sum. */
  ghost function Combine(ws: multiset<nat>, a: nat, b: nat): (r: multiset<nat>)
    requires a in ws && b in ws - multiset{a}
    ensures |r| == |ws| - 1
  {
    ws - multiset{a} - multiset{b} + multiset{a + b}
  }

  /** The sum of the weights created when the two smallest are combined until one is left. */
  ghost function HuffCost(ws: multiset<nat>): nat
    decreases |ws|
  {
    if |ws| <= 1 then 0
    else
      var a := Min(ws);
      var b := Min(ws - multiset{a});
      a + b + HuffCost(Combine(ws, a, b))
  }

  /** Taking one item out of the sums. */
  lemma {:induction false} TakeOut(s: seq<Item>, i: nat, m: nat)
    requires i < |s| && Within(s, m)
    ensures Within(Drop(s, i), m)
    ensures Cost(s) == Bits(s[i]) + Cost(Drop(s, i))
    ensures Kraft(s, m) == Pow2(m - s[i].l) + Kraft(Drop(s, i), m)
  {
    hide Bits, Pow2;
    if i == 0 {
      assert Drop(s, 0) == s[1..];
    } else {
      TakeOut(s[1..], i - 1, m);
      var r := Drop(s, i);
      assert r[0] == s[0] && r[1..] == Drop(s[1..], i - 1);
    }
  }

  lemma {:induction false} TakeOutWeight(s: seq<Item>, i: nat)
    requires i < |s|
    ensures Weights(s) == multiset{s[i].w} + Weights(Drop(s, i))
  {
    if i == 0 {
      assert Drop(s, 0) == s[1..];
    } else {
      TakeOutWeight(s[1..], i - 1);
      var r := Drop(s, i);
      assert r[0] == s[0] && r[1..] == Drop(s[1..], i - 1);
      BagSwap(multiset{s[0].w}, multiset{s[i].w}, Weights(r[1..]));
    }
  }

  /** Lengths that are all at most l give a multiple of the unit of a code of l bits. */
  lemma {:induction false} KraftDivides(s: seq<Item>, l: nat, m: nat) returns (c: nat)
    requires Within(s, l) && l <= m
    ensures Kraft(s, m) == c * Pow2(m - l)
  {
    if s == [] {
      c := 0;
    } else {
      var c0 := KraftDivides(s[1..], l, m);
      Pow2Add(l - s[0].l, m - l);
      c := Pow2(l - s[0].l) + c0;
      Distribute(Pow2(l - s[0].l), c0, Pow2(m - l));
    }
  }

  /** r has the weights and the Kraft sum of s and costs no more. */
  ghost predicate NoWorse(r: seq<Item>, s: seq<Item>, m: nat) {
    && Within(s, m) && Within(r, m) && |r| == |s|
    && Cost(r) <= Cost(s) && Kraft(r, m) == Kraft(s, m) && Weights(r) == Weights(s)
  }

  lemma MoveFront(s: seq<Item>, i: nat, m: nat)
    requires i < |s| && Within(s, m)
    ensures NoWorse([s[i]] + Drop(s, i), s, m)
  {
    hide Bits, Pow2;
    TakeOut(s, i, m);
    TakeOutWeight(s, i);
    var r := [s[i]] + Drop(s, i);
    assert r[1..] == Drop(s, i);
  }

  lemma Longest(s: seq<Item>) returns (p: nat)
    requires |s| > 0
    ensures p < |s| && forall i :: 0 <= i < |s| ==> s[i].l <= s[p].l
  {
    p := 0;
    for k := 0 to |s|
      invariant p < |s| && forall i :: 0 <= i < k ==> s[i].l <= s[p].l
    {
      if s[k].l > s[p].l {
        p := k;
      }
    }
  }

  /** The two longest codes come first. */
  ghost predicate LongestFirst(s: seq<Item>) {
    |s| >= 2 && s[0].l >= s[1].l && forall i :: 2 <= i < |s| ==> s[i].l <= s[1].l
  }

  lemma PutLongestFirst(s: seq<Item>, m: nat) returns (r: seq<Item>)
    requires |s| >= 2 && Within(s, m)
    ensures NoWorse(r, s, m) && LongestFirst(r)
  {
    hide Cost, Kraft, Weights;
    var p := Longest(s);
    MoveFront(s, p, m);
    var t := Drop(s, p);
    var q := Longest(t);
    assert NoWorse([s[p]] + t, s, m);
    r := [s[p]] + ([t[q]] + Drop(t, q));
    MoveFrontUnder(s[p], t, q, m);
  }

  lemma MoveFrontUnder(x: Item, t: seq<Item>, q: nat, m: nat)
    requires q < |t| && Within([x] + t, m)
    ensures NoWorse([x] + ([t[q]] + Drop(t, q)), [x] + t, m)
  {
    hide Bits, Pow2;
    assert Within(t, m) by {
      assert forall i :: 0 <= i < |t| ==> t[i] == ([x] + t)[i + 1];
    }
    MoveFront(t, q, m);
    assert ([x] + t)[1..] == t;
    assert ([x] + ([t[q]] + Drop(t, q)))[1..] == [t[q]] + Drop(t, q);
  }

  /** s with the weights at i and j exchanged. */
  function SwapWeights(s: seq<Item>, i: nat, j: nat): seq<Item>
    requires i < j < |s|
  {
    s[i := Item(s[j].w, s[i].l)][j := Item(s[i].w, s[j].l)]
  }

  lemma ExchangeProducts(a: nat, b: nat, k: nat, l: nat)
    requires a <= b && k <= l
    ensures a * l + b * k + (b - a) * (l - k) == b * l + a * k && a * l + b * k <= b * l + a * k
  {
    assert (b - a) * (l - k) >= 0 by {
      MulSpreadOrZero(b - a, l - k);
    }
    assert (b - a) * (l - k) == b * l - b * k - a * l + a * k;
  }

  lemma {:induction false} MulSpreadOrZero(a: nat, b: nat)
    ensures 0 <= a * b
  {
    if a > 0 {
      MulSpreadOrZero(a - 1, b);
      assert a * b == (a - 1) * b + b;
    }
  }

  /** Giving the longer code to the lighter symbol does not cost more. */
  lemma Exchange(s: seq<Item>, i: nat, j: nat, m: nat)
    requires i < j < |s| && Within(s, m) && s[i].l >= s[j].l && s[i].w >= s[j].w
    ensures NoWorse(SwapWeights(s, i, j), s, m)
  {
    hide Cost, Kraft, Weights;
    var r := SwapWeights(s, i, j);
    ExchangeCost(s, i, j, m);
    TakeOutWeight(s, j);
    TakeOutWeight(r, j);
    TakeOutWeight(Drop(s, j), i);
    TakeOutWeight(Drop(r, j), i);
    assert Drop(Drop(r, j), i) == Drop(Drop(s, j), i);
  }

  lemma ExchangeCost(s: seq<Item>, i: nat, j: nat, m: nat)
    requires i < j < |s| && Within(s, m) && s[i].l >= s[j].l && s[i].w >= s[j].w
    ensures var r := SwapWeights(s, i, j);
            && Within(r, m) && Kraft(r, m) == Kraft(s, m)
            && Cost(s) == Cost(r) + (s[i].w - s[j].w) * (s[i].l - s[j].l) && Cost(r) <= Cost(s)
  {
    hide Pow2, Cost, Kraft;
    var r := SwapWeights(s, i, j);
    TakeOut(s, j, m);
    TakeOut(r, j, m);
    TakeOut(Drop(s, j), i, m);
    TakeOut(Drop(r, j), i, m);
    assert Drop(Drop(r, j), i) == Drop(Drop(s, j), i);
    ExchangeProducts(s[j].w, s[i].w, s[j].l, s[i].l);
  }

  lemma {:induction false} FindWeight(s: seq<Item>, x: nat) returns (i: nat)
    requires x in Weights(s)
    ensures i < |s| && s[i].w == x
  {
    if s[0].w == x {
      i := 0;
    } else {
      i := FindWeight(s[1..], x);
      i := i + 1;
    }
  }

  /** The two lightest symbols come first. */
  ghost predicate LightestFirst(s: seq<Item>) {
    && |s| >= 2
    && s[0].w == Min(Weights(s))
    && |Weights(s) - multiset{s[0].w}| > 0 && s[1].w == Min(Weights(s) - multiset{s[0].w})
  }

  lemma PutLightestAt0(s: seq<Item>, m: nat) returns (r: seq<Item>)
    requires LongestFirst(s) && Within(s, m)
    ensures NoWorse(r, s, m) && LongestFirst(r) && r[0].w == Min(Weights(s))
  {
    hide Cost, Kraft;
    var a := Min(Weights(s));
    var j := FindWeight(s, a);
    assert s[0].w in Weights(s);
    if j == 0 {
      r := s;
    } else {
      Exchange(s, 0, j, m);
      r := SwapWeights(s, 0, j);
    }
  }

  lemma PutLightestAt1(s: seq<Item>, m: nat) returns (r: seq<Item>)
    requires LongestFirst(s) && Within(s, m) && s[0].w == Min(Weights(s))
    ensures NoWorse(r, s, m) && LongestFirst(r) && LightestFirst(r)
  {
    hide Cost, Kraft;
    var rest := Weights(s) - multiset{s[0].w};
    assert Weights(s) == multiset{s[0].w} + Weights(s[1..]);
    assert rest == Weights(s[1..]);
    var b := Min(rest);
    var j := FindWeight(s[1..], b);
    assert s[1..][0].w in Weights(s[1..]);
    if j == 0 {
      r := s;
    } else {
      Exchange(s, 1, j + 1, m);
      r := SwapWeights(s, 1, j + 1);
    }
  }

  /** A single longest code can be shortened to the length of the next longest. */
  lemma Shorten(s: seq<Item>, m: nat)
    requires LongestFirst(s) && Within(s, m) && Kraft(s, m) <= Pow2(m)
    ensures var r := s[0 := Item(s[0].w, s[1].l)];
            Within(r, m) && Cost(r) <= Cost(s) && Kraft(r, m) <= Pow2(m) && Weights(r) == Weights(s)
  {
    var r := s[0 := Item(s[0].w, s[1].l)];
    assert r[1..] == s[1..];
    ExchangeProducts(0, s[0].w, s[1].l, s[0].l);
    if s[0].l > s[1].l {
      hide Cost, Weights, Bits;
      var c := KraftDivides(s[1..], s[1].l, m);
      Pow2Add(s[1].l, m - s[1].l);
      RoundUp(c, Pow2(m - s[1].l), Pow2(s[1].l), Pow2(m - s[0].l));
    }
  }

  /** Below a multiple of d there is room for all of d. */
  lemma RoundUp(c: nat, d: nat, p: nat, e: nat)
    requires 0 < e && c * d + e <= p * d
    ensures d + c * d <= p * d
  {
    if c >= p {
      MulMonotone(p, c, d);
    } else {
      MulMonotone(c + 1, p, d);
      Distribute(c, 1, d);
    }
  }

  lemma MulMonotone(a: nat, b: nat, d: nat)
    requires a <= b
    ensures a * d <= b * d
  {
    MulSpreadOrZero(b - a, d);
    assert (b - a) * d == b * d - a * d;
  }

  /** Two codes of equal length l become one symbol with a code of l - 1 bits. */
  function Merge(s: seq<Item>): seq<Item>
    requires |s| >= 2 && s[0].l > 0
  {
    [Item(s[0].w + s[1].w, s[0].l - 1)] + s[2..]
  }

  lemma MergeProducts(a: nat, b: nat, l: nat)
    requires 0 < l
    ensures a * l + b * l == a + b + (a + b) * (l - 1)
  {
    Distribute(a, b, l);
    assert (a + b) * (l - 1) == (a + b) * l - (a + b);
  }

  lemma MergeSums(s: seq<Item>, m: nat)
    requires |s| >= 2 && Within(s, m) && s[0].l == s[1].l && s[0].l > 0
    ensures Within(Merge(s), m) && Kraft(Merge(s), m) == Kraft(s, m)
    ensures Cost(s) == s[0].w + s[1].w + Cost(Merge(s))
    ensures Weights(Merge(s)) == Weights(s) - multiset{s[0].w} - multiset{s[1].w} + multiset{s[0].w + s[1].w}
  {
    var r, l := Merge(s), s[0].l;
    assert r[1..] == s[2..] && s[1..][1..] == s[2..];
    MergeProducts(s[0].w, s[1].w, l);
    assert Pow2(m - (l - 1)) == 2 * Pow2(m - l);
  }

  lemma TwoCodesNeedABit(s: seq<Item>, m: nat)
    requires LongestFirst(s) && Within(s, m) && Kraft(s, m) <= Pow2(m)
    ensures s[0].l > 0
  {
    assert s[1..][1..] == s[2..];
  }

  lemma HuffBase(ws: multiset<nat>)
    requires |ws| <= 1
    ensures HuffCost(ws) == 0
  {
  }

  lemma HuffStep(ws: multiset<nat>, a: nat, b: nat)
    requires |ws| >= 2 && a == Min(ws) && b == Min(ws - multiset{a})
    ensures HuffCost(ws) == a + b + HuffCost(Combine(ws, a, b))
  {
  }

  lemma MinUnique(ws: multiset<nat>, a: nat)
    requires IsMin(ws, a)
    ensures |ws| > 0 && Min(ws) == a
  {
  }

  /** One greedy step on a bag given by its two least weights and the rest. */
  lemma HuffBag(ws: multiset<nat>, a: nat, b: nat, rest: multiset<nat>, ws': multiset<nat>, c: nat)
    requires ws == multiset{a} + (multiset{b} + rest) && IsMin(ws, a) && IsMin(multiset{b} + rest, b)
    requires c == a + b && ws' == multiset{c} + rest
    ensures HuffCost(ws) == a + b + HuffCost(ws')
  {
    hide IsMin, HuffCost;
    assert ws - multiset{a} == multiset{b} + rest;
    assert |ws| == 2 + |rest|;
    MinUnique(ws, a);
    MinUnique(multiset{b} + rest, b);
    HuffStep(ws, a, b);
    assert Combine(ws, a, b) == ws';
  }

  /** An assignment no worse, in which the two lightest symbols share the greatest length. */
  lemma Rearrange(s: seq<Item>, m: nat) returns (r: seq<Item>)
    requires |s| >= 2 && Within(s, m) && Kraft(s, m) <= Pow2(m)
    ensures |r| == |s| && Within(r, m) && Kraft(r, m) <= Pow2(m)
    ensures Cost(r) <= Cost(s) && Weights(r) == Weights(s)
    ensures LightestFirst(r) && r[0].l == r[1].l > 0
  {
    hide Cost, Kraft, Weights, IsMin;
    var s1 := PutLongestFirst(s, m);
    var s2 := PutLightestAt0(s1, m);
    var s3 := PutLightestAt1(s2, m);
    Shorten(s3, m);
    r := s3[0 := Item(s3[0].w, s3[1].l)];
    TwoCodesNeedABit(r, m);
  }

  /** No code lengths that satisfy Kraft's inequality cost less than the greedy construction. */
  lemma {:induction false} GreedyIsOptimal(s: seq<Item>, m: nat)
    requires Within(s, m) && Kraft(s, m) <= Pow2(m)
    ensures HuffCost(Weights(s)) <= Cost(s)
    decreases |s|
  {
    hide Cost, Kraft, Weights, HuffCost, IsMin;
    if |s| >= 2 {
      var r := Rearrange(s, m);
      MergeSums(r, m);
      GreedyIsOptimal(Merge(r), m);
      HuffStep(Weights(s), r[0].w, r[1].w);
    } else {
      HuffBase(Weights(s));
    }
  }
}
