/**
 What binds to what in an awk expression (editors/awk.c, parse_expr and the priorities of the operators), in
 terms of the tokens alone: which operators lie on the right side of which.
 */
module AwkBinding {
  import opened Options
  import opened AwkPrecedence

  /** An operator with a right side. */
  predicate Opens(t: Token) {
    t.Binary? || t.Prefix?
  }

  /** An operator with a left side. */
  predicate Closes(t: Token) {
    t.Binary? || t.Postfix?
  }

  /** The right side of operator i reaches up to place n: no operator between them gets past it. */
  ghost predicate Reaches(ts: seq<Token>, i: nat, n: nat)
    decreases n, 0
  {
    i < n <= |ts| && Opens(ts[i]) && forall k :: i < k < n && Closes(ts[k]) ==> Stopped(ts, i, k)
  }

  /** The operator at k does not get past i: some operator from i on, whose right side reaches k, binds no tighter. */
  ghost predicate Stopped(ts: seq<Token>, i: nat, k: nat)
    requires k < |ts| && Closes(ts[k])
    decreases k, 1
  {
    exists m :: i <= m < k && Reaches(ts, m, k) && ts[k].prio <= ts[m].prio - ts[m].prio % 2
  }

  ghost predicate HasNode(t: Tree, j: nat) {
    match t
    case Leaf(at) => j == at
    case Bin(at, l, r) => j == at || HasNode(l, j) || HasNode(r, j)
    case Pre(at, r) => j == at || HasNode(r, j)
    case Post(at, r) => j == at || HasNode(r, j)
  }

  /** Node j lies on the right side of node i. */
  ghost predicate InRight(t: Tree, i: nat, j: nat) {
    match t
    case Leaf(_) => false
    case Bin(at, l, r) => (i == at && HasNode(r, j)) || InRight(l, i, j) || InRight(r, i, j)
    case Pre(at, r) => (i == at && HasNode(r, j)) || InRight(r, i, j)
    case Post(_, r) => InRight(r, i, j)
  }

  lemma {:induction false} NodesSpanned(ts: seq<Token>, t: Tree, lo: int, hi: int, j: nat)
    requires Spans(ts, t, lo, hi)
    ensures HasNode(t, j) <==> lo <= j < hi
  {
    match t
    case Leaf(_) =>
    case Bin(at, l, r) =>
      NodesSpanned(ts, l, lo, at, j);
      NodesSpanned(ts, r, at + 1, hi, j);
    case Pre(at, r) => NodesSpanned(ts, r, at + 1, hi, j);
    case Post(at, r) => NodesSpanned(ts, r, lo, at, j);
  }

  lemma {:induction false} RightSpanned(ts: seq<Token>, t: Tree, lo: int, hi: int, i: nat, j: nat)
    requires Spans(ts, t, lo, hi) && InRight(t, i, j)
    ensures lo <= i < j < hi
  {
    hide HasNode;
    match t
    case Bin(at, l, r) =>
      NodesSpanned(ts, r, at + 1, hi, j);
      if InRight(l, i, j) {
        RightSpanned(ts, l, lo, at, i, j);
      } else if InRight(r, i, j) {
        RightSpanned(ts, r, at + 1, hi, i, j);
      }
    case Pre(at, r) =>
      NodesSpanned(ts, r, at + 1, hi, j);
      if InRight(r, i, j) {
        RightSpanned(ts, r, at + 1, hi, i, j);
      }
    case Post(at, r) => RightSpanned(ts, r, lo, at, i, j);
  }

  /** Operator i is on the spine. */
  ghost predicate OnSpine(frames: seq<Frame>, i: nat) {
    exists f :: 0 <= f < |frames| && frames[f].at == i
  }

  ghost predicate Rising(frames: seq<Frame>) {
    forall f, g :: 0 <= f < g < |frames| ==> frames[f].at < frames[g].at
  }

  lemma {:induction false} SpineRises(ts: seq<Token>, frames: seq<Frame>)
    requires SpineOk(ts, frames)
    ensures Rising(frames) && forall f :: 0 <= f < |frames| ==> frames[f].at < |ts| && Opens(ts[frames[f].at])
    decreases |frames|
  {
    hide Spans, Grouped, RightOver, LeftUnder;
    if frames != [] {
      SpineRises(ts, Init(frames));
      SpansBound(ts, frames);
      assert frames == Init(frames) + [Last(frames)];
    }
  }

  lemma SpansBound(ts: seq<Token>, frames: seq<Frame>)
    requires SpineOk(ts, frames) && frames != []
    ensures End(Init(frames)) <= Last(frames).at < |ts|
  {
    hide Grouped, RightOver, LeftUnder;
  }

  /** An operator that jumps back leaves the spine up to the last operator that it does not get past. */
  lemma {:induction false} ClimbLeaves(ts: seq<Token>, frames: seq<Frame>, t: Tree, p: nat, i: nat)
    requires Rising(frames) && forall f :: 0 <= f < |frames| ==> frames[f].at < |ts| && Opens(ts[frames[f].at])
    ensures var kept := Climb(ts, frames, t, p).0;
            && kept <= frames
            && (OnSpine(kept, i) <==>
                OnSpine(frames, i) && exists m :: i <= m && OnSpine(frames, m) && m < |ts| && Opens(ts[m])
                                                 && p <= ts[m].prio - ts[m].prio % 2)
    decreases |frames|
  {
    if frames == [] {
    } else {
      var last := Last(frames).at;
      assert frames[|frames| - 1].at == last;
      if Over(p, Limit(ts, frames)) {
        ClimbLeaves(ts, Init(frames), Plug(Last(frames), t), p, i);
        SpineInit(frames, i);
        forall m | OnSpine(frames, m) && m != last
          ensures OnSpine(Init(frames), m)
        {
          SpineInit(frames, m);
        }
        forall m | OnSpine(Init(frames), m)
          ensures OnSpine(frames, m)
        {
          SpineInit(frames, m);
        }
        assert !(p <= ts[last].prio - ts[last].prio % 2);
      } else {
        if OnSpine(frames, i) {
          SpineInit(frames, i);
          assert OnSpine(frames, last) && i <= last;
        }
      }
    }
  }

  lemma SpineInit(frames: seq<Frame>, i: nat)
    requires frames != [] && Rising(frames)
    ensures OnSpine(frames, i) <==> OnSpine(Init(frames), i) || i == Last(frames).at
    ensures OnSpine(Init(frames), i) ==> i < Last(frames).at
  {
    assert frames[|frames| - 1].at == Last(frames).at;
    if OnSpine(Init(frames), i) {
      var f :| 0 <= f < |Init(frames)| && Init(frames)[f].at == i;
      assert frames[f].at == i;
    }
    if OnSpine(frames, i) && i != Last(frames).at {
      var f :| 0 <= f < |frames| && frames[f].at == i;
      assert Init(frames)[f].at == i;
    }
  }

  lemma ReachesNext(ts: seq<Token>, i: nat, k: nat)
    requires k < |ts|
    ensures Reaches(ts, i, k + 1) <==>
            (i == k && Opens(ts[k])) || (Reaches(ts, i, k) && (Closes(ts[k]) ==> Stopped(ts, i, k)))
  {
    hide Stopped;
  }

  lemma SpineMore(frames: seq<Frame>, f: Frame, i: nat)
    ensures OnSpine(frames + [f], i) <==> OnSpine(frames, i) || f.at == i
  {
    var more := frames + [f];
    if OnSpine(frames, i) {
      var g :| 0 <= g < |frames| && frames[g].at == i;
      assert more[g].at == i;
    }
    assert more[|frames|] == f;
  }

  /** The operator at k leaves on the spine those that it does not get past. */
  lemma StopsAt(ts: seq<Token>, frames: seq<Frame>, t: Tree, k: nat, i: nat)
    requires k < |ts| && Closes(ts[k]) && SpineOk(ts, frames) && forall m: nat :: OnSpine(frames, m) <==> Reaches(ts, m, k)
    ensures OnSpine(Climb(ts, frames, t, ts[k].prio).0, i) <==> Reaches(ts, i, k) && Stopped(ts, i, k)
  {
    hide SpineOk, Reaches, Climb;
    SpineRises(ts, frames);
    ClimbLeaves(ts, frames, t, ts[k].prio, i);
    forall m: nat | Reaches(ts, m, k)
      ensures m < k && m < |ts| && Opens(ts[m])
    {
      ReachesParts(ts, m, k);
    }
  }

  lemma ReachesParts(ts: seq<Token>, i: nat, n: nat)
    requires Reaches(ts, i, n)
    ensures i < n <= |ts| && Opens(ts[i])
  {
  }

  /** The spine after n tokens has exactly the operators whose right side reaches up to there. */
  lemma {:induction false} SpineIs(ts: seq<Token>, n: nat, i: nat)
    requires n <= |ts| && Ranked(ts) && Alternating(ts, n)
    ensures OnSpine(Run(ts, n).frames, i) <==> Reaches(ts, i, n)
    decreases n
  {
    hide Reaches, Stopped, OnSpine, Climb;
    if n == 0 {
      NothingReaches(ts, i);
    } else {
      var k, s := n - 1, Run(ts, n - 1);
      RunIsOk(ts, k);
      forall m: nat
        ensures OnSpine(s.frames, m) <==> Reaches(ts, m, k)
      {
        SpineIs(ts, k, m);
      }
      ReachesNext(ts, i, k);
      RunSpine(ts, s, k);
      match ts[k]
      case Operand(_) =>
        NotItself(ts, i, k);
      case Prefix(_, _) =>
        SpineMore(s.frames, PreF(k), i);
      case Binary(p, _) =>
        var c := Climb(ts, s.frames, s.focus.value, p);
        StopsAt(ts, s.frames, s.focus.value, k, i);
        SpineMore(c.0, BinF(k, c.1), i);
      case Postfix(p, _) =>
        StopsAt(ts, s.frames, s.focus.value, k, i);
    }
  }

  lemma NotItself(ts: seq<Token>, i: nat, k: nat)
    ensures Reaches(ts, i, k) ==> i < k
  {
  }

  lemma RunSpine(ts: seq<Token>, s: Spine, n: nat)
    requires RunOk(ts, s, n)
    ensures SpineOk(ts, s.frames)
  {
  }

  lemma NothingReaches(ts: seq<Token>, i: nat)
    ensures !OnSpine([], i) && !Reaches(ts, i, 0)
  {
  }

  /** A right side that reaches a place reaches all places before it. */
  lemma ReachesLess(ts: seq<Token>, i: nat, a: nat, n: nat)
    requires Reaches(ts, i, n) && i < a <= n
    ensures Reaches(ts, i, a)
  {
    hide Stopped;
  }

  /** While the tokens of a grouped tree are read, the spine before it stays. */
  lemma {:induction false} SpineStays(ts: seq<Token>, t: Tree, lo: nat, hi: nat, frames: seq<Frame>, n: nat)
    requires Spans(ts, t, lo, hi) && Grouped(ts, t) && lo <= n <= hi
    requires Alternating(ts, hi) && Run(ts, lo) == Spine(frames, None) && LeftUnder(ts, t, Limit(ts, frames))
    ensures Alternating(ts, n) && frames <= Run(ts, n).frames
    decreases t
  {
    hide SpineOf, Bottom, Over, RightOver, Run, Alternating;
    Shorter(ts, hi, lo);
    Shorter(ts, hi, n);
    Shorter(ts, hi, t.at);
    Shorter(ts, hi, t.at + 1);
    if n > lo {
      match t
      case Leaf(at) =>
        TakesFirst(ts, frames, at);
      case Pre(at, r) =>
        TakesFirst(ts, frames, at);
        SpineStays(ts, r, at + 1, hi, frames + [PreF(at)], n);
      case Post(at, r) =>
        if n <= at {
          SpineStays(ts, r, lo, at, frames, n);
        } else {
          Replay(ts, r, lo, at, frames);
          TakesLeft(ts, frames, r, at);
        }
      case Bin(at, l, r) =>
        if n <= at {
          SpineStays(ts, l, lo, at, frames, n);
        } else {
          Replay(ts, l, lo, at, frames);
          TakesLeft(ts, frames, l, at);
          SpineStays(ts, r, at + 1, hi, frames + [BinF(at, l)], n);
        }
    }
  }

  /** An operator of the spine before the tree, or of the tree. */
  lemma OnPrefix(frames: seq<Frame>, more: seq<Frame>, f: Frame)
    requires frames + [f] <= more
    ensures OnSpine(more, f.at)
  {
    assert (frames + [f])[|frames|] == more[|frames|];
  }

  ghost predicate AllBelow(frames: seq<Frame>, lo: nat) {
    forall f :: 0 <= f < |frames| ==> frames[f].at < lo
  }

  /** An operator of a grouped tree is on the spine as long as its right side is read. */
  lemma {:induction false} OnSpineIs(ts: seq<Token>, t: Tree, lo: nat, hi: nat, frames: seq<Frame>, i: nat, j: nat)
    requires Ranked(ts) && Spans(ts, t, lo, hi) && Grouped(ts, t) && lo <= i < j < hi && Opens(ts[i])
    requires Alternating(ts, hi) && Run(ts, lo) == Spine(frames, None) && LeftUnder(ts, t, Limit(ts, frames))
    requires AllBelow(frames, lo)
    ensures Alternating(ts, j + 1) && (OnSpine(Run(ts, j + 1).frames, i) <==> InRight(t, i, j))
    decreases t
  {
    hide SpineOf, Bottom, Over, RightOver, Run, Alternating, OnSpine, HasNode;
    Shorter(ts, hi, j + 1);
    Shorter(ts, hi, lo);
    Shorter(ts, hi, t.at);
    Shorter(ts, hi, t.at + 1);
    match t
    case Leaf(at) =>
    case Pre(at, r) =>
      TakesFirst(ts, frames, at);
      NodesSpanned(ts, r, at + 1, hi, j);
      if i == at {
        SpineStays(ts, r, at + 1, hi, frames + [PreF(at)], j + 1);
        OnPrefix(frames, Run(ts, j + 1).frames, PreF(at));
      } else {
        OnSpineIs(ts, r, at + 1, hi, frames + [PreF(at)], i, j);
      }
    case Post(at, r) =>
      if j < at {
        OnSpineIs(ts, r, lo, at, frames, i, j);
      } else {
        Replay(ts, r, lo, at, frames);
        TakesLeft(ts, frames, r, at);
        NotBelow(frames, lo, i);
        NotOutside(ts, r, lo, at, i, j);
      }
    case Bin(at, l, r) =>
      OnSpineBin(ts, at, l, r, lo, hi, frames, i, j);
  }

  lemma {:induction false} OnSpineBin(ts: seq<Token>, at: nat, l: Tree, r: Tree, lo: nat, hi: nat, frames: seq<Frame>, i: nat, j: nat)
    requires Ranked(ts) && Spans(ts, Bin(at, l, r), lo, hi) && Grouped(ts, Bin(at, l, r)) && lo <= i < j < hi && Opens(ts[i])
    requires Alternating(ts, hi) && Run(ts, lo) == Spine(frames, None) && LeftUnder(ts, Bin(at, l, r), Limit(ts, frames))
    requires AllBelow(frames, lo)
    ensures Alternating(ts, j + 1) && (OnSpine(Run(ts, j + 1).frames, i) <==> InRight(Bin(at, l, r), i, j))
    decreases Bin(at, l, r), 0
  {
    hide SpineOf, Bottom, Over, RightOver, Run, Alternating, OnSpine, HasNode;
    Shorter(ts, hi, j + 1);
    Shorter(ts, hi, lo);
    Shorter(ts, hi, at);
    Shorter(ts, hi, at + 1);
    NodesSpanned(ts, r, at + 1, hi, j);
    Replay(ts, l, lo, at, frames);
    TakesLeft(ts, frames, l, at);
    if i == at {
      SpineStays(ts, r, at + 1, hi, frames + [BinF(at, l)], j + 1);
      OnPrefix(frames, Run(ts, j + 1).frames, BinF(at, l));
    } else if i > at {
      NotOutside(ts, l, lo, at, i, j);
      OnSpineIs(ts, r, at + 1, hi, frames + [BinF(at, l)], i, j);
    } else {
      NotOutside(ts, r, at + 1, hi, i, j);
      if j < at {
        OnSpineIs(ts, l, lo, at, frames, i, j);
      } else {
        NotOutside(ts, l, lo, at, i, j);
        NotBelow(frames, lo, i);
        SpineMore(frames, BinF(at, l), i);
        Gone(ts, i, at + 1, j + 1);
      }
    }
  }

  lemma NotBelow(frames: seq<Frame>, lo: nat, i: nat)
    requires AllBelow(frames, lo) && lo <= i
    ensures !OnSpine(frames, i)
  {
  }

  lemma NotOutside(ts: seq<Token>, t: Tree, lo: int, hi: int, i: nat, j: nat)
    requires Spans(ts, t, lo, hi) && !(lo <= i && j < hi)
    ensures !InRight(t, i, j)
  {
    if InRight(t, i, j) {
      RightSpanned(ts, t, lo, hi, i, j);
    }
  }

  /** What has left the spine does not come back. */
  lemma Gone(ts: seq<Token>, i: nat, a: nat, n: nat)
    requires Ranked(ts) && n <= |ts| && i < a <= n && Alternating(ts, a) && Alternating(ts, n) && !OnSpine(Run(ts, a).frames, i)
    ensures !OnSpine(Run(ts, n).frames, i)
  {
    hide Reaches, OnSpine, Run;
    SpineIs(ts, a, i);
    SpineIs(ts, n, i);
    if Reaches(ts, i, n) {
      ReachesLess(ts, i, a, n);
    }
  }

  /** The tree, from the tokens: j lies on the right side of i exactly if the right side of i reaches past j. */
  lemma RightSideIs(ts: seq<Token>, t: Tree, i: nat, j: nat)
    requires Ranked(ts) && Alternating(ts, |ts|) && Spans(ts, t, 0, |ts|) && Grouped(ts, t)
    requires i < j < |ts| && Opens(ts[i])
    ensures InRight(t, i, j) <==> Reaches(ts, i, j + 1)
  {
    hide Reaches, OnSpine, Grouped, Spans, Alternating;
    UnderRoot(ts, t);
    OnSpineIs(ts, t, 0, |ts|, [], i, j);
    SpineIs(ts, j + 1, i);
  }

  /** Every operator has on its right side what its priority and those of the others give it. */
  ghost predicate Bound(ts: seq<Token>, t: Tree) {
    forall i, j :: 0 <= i < j < |ts| && Opens(ts[i]) ==> (InRight(t, i, j) <==> Reaches(ts, i, j + 1))
  }

  lemma GroupedIsBound(ts: seq<Token>, t: Tree)
    requires Ranked(ts) && Alternating(ts, |ts|) && Spans(ts, t, 0, |ts|) && Grouped(ts, t)
    ensures Bound(ts, t)
  {
    hide Grouped, Spans, Alternating, Ranked, InRight, Reaches;
    forall i, j | 0 <= i < j < |ts| && Opens(ts[i])
      ensures InRight(t, i, j) <==> Reaches(ts, i, j + 1)
    {
      RightSideIs(ts, t, i, j);
    }
  }

  /**
   An operator right after an operand, in front of which stand prefix operators and some operator i: it lies on
   the right side of i exactly if one of them, from i on, binds no tighter.
   */
  lemma NextOperator(ts: seq<Token>, t: Tree, i: nat, v: nat)
    requires Ranked(ts) && Alternating(ts, |ts|) && Spans(ts, t, 0, |ts|) && Grouped(ts, t)
    requires i < v && v + 1 < |ts| && Opens(ts[i]) && ts[v].Operand? && Closes(ts[v + 1])
    requires forall k :: i < k < v ==> ts[k].Prefix?
    ensures InRight(t, i, v + 1) <==> exists m :: i <= m < v && Opens(ts[m]) && ts[v + 1].prio <= ts[m].prio - ts[m].prio % 2
  {
    hide Grouped, Spans, Alternating, Ranked, InRight, Reaches;
    var k := v + 1;
    RightSideIs(ts, t, i, k);
    forall m | i <= m < v
      ensures Reaches(ts, m, k)
    {
      ReachesFree(ts, m, k);
    }
    ReachesNext(ts, i, k);
    forall m | i <= m < k && Reaches(ts, m, k)
      ensures m < v && Opens(ts[m])
    {
      ReachesParts(ts, m, k);
    }
  }

  lemma ReachesFree(ts: seq<Token>, m: nat, k: nat)
    requires m < k <= |ts| && Opens(ts[m]) && forall j :: m < j < k ==> !Closes(ts[j])
    ensures Reaches(ts, m, k)
  {
    hide Stopped;
  }

  /** A minus in front of x ^ 2 takes the power, not only x. */
  lemma MinusPower(ts: seq<Token>, t: Tree)
    requires ts == [Prefix(19, 0), Operand(0), Binary(15, 0), Operand(1)] && Spans(ts, t, 0, |ts|) && Grouped(ts, t)
    ensures t == Pre(0, Bin(2, Leaf(1), Leaf(3)))
  {
    assert Spans(ts, Leaf(1), 1, 2) && Spans(ts, Leaf(3), 3, 4);
    assert Spans(ts, Bin(2, Leaf(1), Leaf(3)), 1, 4);
    OneGroupedTree(ts, t, Pre(0, Bin(2, Leaf(1), Leaf(3))));
  }
}
