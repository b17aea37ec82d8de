/**
 Longest common subsequence by k-candidates (coreutils/diff.c, newcand, search and stone): for each
 length the candidate is the end of a common subsequence that uses the fewest lines of the second file.
 */
module Stone {
  import opened Lcs
  import opened DiffClasses

  datatype Cand = Cand(x: nat, y: nat, pred: nat)

  /** Candidates point back to earlier ones; the first one is the empty subsequence. */
  ghost predicate Linked(cl: seq<Cand>) {
    && cl != [] && cl[0] == Cand(0, 0, 0)
    && forall q :: 1 <= q < |cl| ==> cl[q].pred < q && cl[q].y > 0
  }

  /** The subsequence that ends with candidate q. */
  ghost function Chain(cl: seq<Cand>, q: nat): seq<Pair>
    requires Linked(cl) && q < |cl|
  {
    if q == 0 then [] else Chain(cl, cl[q].pred) + [Pair(cl[q].x, cl[q].y)]
  }

  lemma {:induction false} ChainKept(cl: seq<Cand>, more: seq<Cand>, q: nat)
    requires Linked(cl) && Linked(more) && cl <= more && q < |cl|
    ensures Chain(more, q) == Chain(cl, q)
  {
    if q > 0 {
      ChainKept(cl, more, cl[q].pred);
    }
  }

  function Y(cl: seq<Cand>, c: seq<nat>, l: nat): nat {
    if l < |c| && c[l] < |cl| then cl[c[l]].y else 0
  }

  /** c[l] ends a common subsequence of l lines of a, and the ends are in order. */
  ghost predicate Rows(cl: seq<Cand>, c: seq<nat>, k: nat, a: seq<int>, b: seq<int>) {
    && Linked(cl) && k < |c| && c[0] == 0
    && (forall l :: 0 <= l <= k ==> c[l] < |cl|)
    && (forall l :: 0 <= l <= k ==> |Chain(cl, c[l])| == l && Common(a, b, Chain(cl, c[l])))
    && (forall l, r :: 0 <= l < r <= k ==> Y(cl, c, l) < Y(cl, c, r))
  }

  /** No common subsequence is longer than k, and none ends before the candidate of its length. */
  ghost predicate Exact(cl: seq<Cand>, c: seq<nat>, k: nat, a: seq<int>, b: seq<int>) {
    forall ps: seq<Pair> :: Common(a, b, ps) && ps != [] ==> |ps| <= k && Y(cl, c, |ps|) <= ps[|ps| - 1].y
  }

  /** A line y0 of b improves every candidate that it can. */
  ghost predicate Improved(cl0: seq<Cand>, c0: seq<nat>, k0: nat, cl: seq<Cand>, c: seq<nat>, k: nat, y0: nat) {
    forall l :: 0 <= l <= k0 && Y(cl0, c0, l) < y0 ==> l + 1 <= k && Y(cl, c, l + 1) <= y0
  }

  /** Line y of b has the value v. */
  ghost predicate Equal(b: seq<int>, y: nat, v: int) {
    1 <= y <= |b| && b[y - 1] == v
  }

  lemma NoEqualLine(b: seq<int>, v: int)
    requires v !in b
    ensures forall y :: !Equal(b, y, v)
  {
  }

  lemma CommonFront(a: seq<int>, v: int, b: seq<int>, ps: seq<Pair>)
    requires Common(a + [v], b, ps) && ps != []
    ensures Common(a, b, ps[..|ps| - 1])
    ensures ps[|ps| - 1].x <= |a| ==> Common(a, b, ps)
    ensures ps[|ps| - 1].x > |a| ==> b[ps[|ps| - 1].y - 1] == v
  {
    var last := ps[|ps| - 1];
    forall i | 0 <= i < |ps| && (i < |ps| - 1 || last.x <= |a|)
      ensures ps[i].x <= |a| && a[ps[i].x - 1] == b[ps[i].y - 1]
    {
      assert i < |ps| - 1 ==> ps[i].x < last.x;
    }
  }

  /** The step of the algorithm for one line of a: exactness is kept if every equal line was tried. */
  lemma RowExact(cl0: seq<Cand>, c0: seq<nat>, k0: nat, cl: seq<Cand>, c: seq<nat>, k: nat, a: seq<int>, v: int, b: seq<int>)
    requires Exact(cl0, c0, k0, a, b) && k0 <= k && Y(cl0, c0, 0) == 0
    requires forall l :: 0 <= l <= k0 ==> Y(cl, c, l) <= Y(cl0, c0, l)
    requires forall y :: Equal(b, y, v) ==> Improved(cl0, c0, k0, cl, c, k, y)
    ensures Exact(cl, c, k, a + [v], b)
  {
    hide Common, Y;
    forall ps: seq<Pair> | Common(a + [v], b, ps) && ps != []
      ensures |ps| <= k && Y(cl, c, |ps|) <= ps[|ps| - 1].y
    {
      RowOne(cl0, c0, k0, cl, c, k, a, v, b, ps);
    }
  }

  lemma RowOne(cl0: seq<Cand>, c0: seq<nat>, k0: nat, cl: seq<Cand>, c: seq<nat>, k: nat, a: seq<int>, v: int, b: seq<int>,
               ps: seq<Pair>)
    requires Exact(cl0, c0, k0, a, b) && k0 <= k && Y(cl0, c0, 0) == 0
    requires forall l :: 0 <= l <= k0 ==> Y(cl, c, l) <= Y(cl0, c0, l)
    requires forall y :: Equal(b, y, v) ==> Improved(cl0, c0, k0, cl, c, k, y)
    requires Common(a + [v], b, ps) && ps != []
    ensures |ps| <= k && Y(cl, c, |ps|) <= ps[|ps| - 1].y
  {
    hide Y;
    var n := |ps| - 1;
    var last := ps[n];
    CommonFront(a, v, b, ps);
    if last.x > |a| {
      assert Equal(b, last.y, v);
      if n > 0 {
        assert ps[..n][n - 1] == ps[n - 1] && ps[n - 1].y < last.y;
      }
      assert Y(cl0, c0, n) < last.y;
    }
  }

  /** The state while the lines of b that equal the next line v of a are tried, in order from lim on. */
  ghost predicate Trying(cl0: seq<Cand>, c0: seq<nat>, k: nat, cl: seq<Cand>, c: seq<nat>, a: seq<int>, v: int, b: seq<int>,
                         oldl: nat, q: nat, lim: nat)
  {
    && Rows(cl0, c0, k, a, b) && Rows(cl, c, k, a + [v], b)
    && cl0 <= cl && |c| == |c0| && oldl <= q <= k
    && (forall l :: oldl < l <= k ==> c[l] == c0[l])
    && (forall l :: 0 <= l <= k ==> Y(cl, c, l) <= Y(cl0, c0, l))
    && (oldl > 0 ==> Y(cl, c, oldl) < lim) && (q > oldl ==> Y(cl0, c0, q) < lim)
  }

  lemma ChainEnd(cl: seq<Cand>, q: nat)
    requires Linked(cl) && 0 < q < |cl|
    ensures var ps := Chain(cl, q); ps != [] && ps[|ps| - 1] == Pair(cl[q].x, cl[q].y)
  {
  }

  lemma CommonMore(a: seq<int>, v: int, b: seq<int>, ps: seq<Pair>)
    requires Common(a, b, ps)
    ensures Common(a + [v], b, ps)
  {
    forall i | 0 <= i < |ps|
      ensures (a + [v])[ps[i].x - 1] == b[ps[i].y - 1]
    {
    }
  }

  lemma CommonNext(a: seq<int>, v: int, b: seq<int>, ps: seq<Pair>, y: nat)
    requires Common(a, b, ps) && 1 <= y <= |b| && b[y - 1] == v && (ps != [] ==> ps[|ps| - 1].y < y)
    ensures Common(a + [v], b, ps + [Pair(|a| + 1, y)])
  {
    CommonMore(a, v, b, ps);
    forall i | 0 <= i < |ps|
      ensures ps[i].x < |a| + 1 && ps[i].y < y
    {
      assert i < |ps| - 1 ==> ps[i].y < ps[|ps| - 1].y;
    }
  }

  /** At the start of a row nothing has been tried. */
  lemma StartRow(cl: seq<Cand>, c: seq<nat>, k: nat, a: seq<int>, v: int, b: seq<int>)
    requires Rows(cl, c, k, a, b)
    ensures Trying(cl, c, k, cl, c, a, v, b, 0, 0, 0)
  {
    hide Common, Chain;
    forall l | 0 <= l <= k
      ensures Common(a + [v], b, Chain(cl, c[l]))
    {
      CommonMore(a, v, b, Chain(cl, c[l]));
    }
  }

  /** A new candidate on top of the old one of length l - 1. */
  lemma NewCandidate(cl0: seq<Cand>, c0: seq<nat>, k: nat, cl: seq<Cand>, a: seq<int>, v: int, b: seq<int>, l: nat, y: nat)
    requires Rows(cl0, c0, k, a, b) && Linked(cl) && cl0 <= cl && 1 <= l <= k + 1
    requires 1 <= y <= |b| && b[y - 1] == v && Y(cl0, c0, l - 1) < y
    ensures var cl' := cl + [Cand(|a| + 1, y, c0[l - 1])];
            && Linked(cl') && cl <= cl' && |Chain(cl', |cl|)| == l && Common(a + [v], b, Chain(cl', |cl|))
  {
    hide Common, Chain;
    var p := c0[l - 1];
    var cl' := cl + [Cand(|a| + 1, y, p)];
    assert |Chain(cl0, p)| == l - 1 && Common(a, b, Chain(cl0, p));
    ChainKept(cl0, cl', p);
    if p > 0 {
      ChainEnd(cl0, p);
    }
    EmptyChain(cl0);
    CommonNext(a, v, b, Chain(cl0, p), y);
    ChainTop(cl', |cl|);
  }

  lemma EmptyChain(cl: seq<Cand>)
    requires Linked(cl)
    ensures Chain(cl, 0) == []
  {
  }

  lemma ChainTop(cl: seq<Cand>, q: nat)
    requires Linked(cl) && 0 < q < |cl|
    ensures Chain(cl, q) == Chain(cl, cl[q].pred) + [Pair(cl[q].x, cl[q].y)]
  {
  }

  /** The candidates of all lengths after one of them was replaced, or one was added on top. */
  lemma RowsReplaced(cl: seq<Cand>, c: seq<nat>, k: nat, a: seq<int>, b: seq<int>, cl': seq<Cand>, l: nat)
    requires Rows(cl, c, k, a, b) && 1 <= l <= k + 1 < |c| && cl <= cl' && |cl'| == |cl| + 1 && Linked(cl')
    requires |Chain(cl', |cl|)| == l && Common(a, b, Chain(cl', |cl|))
    requires Y(cl, c, l - 1) < cl'[|cl|].y && (l <= k ==> cl'[|cl|].y <= Y(cl, c, l))
    ensures Rows(cl', c[l := |cl|], if l <= k then k else k + 1, a, b)
  {
    hide Common, Chain;
    var c' := c[l := |cl|];
    var k' := if l <= k then k else k + 1;
    forall r | 0 <= r <= k'
      ensures c'[r] < |cl'| && |Chain(cl', c'[r])| == r && Common(a, b, Chain(cl', c'[r]))
    {
      if r != l {
        ChainKept(cl, cl', c[r]);
      }
    }
    assert forall r :: 0 <= r <= k' && r != l ==> Y(cl', c', r) == Y(cl, c, r);
  }

  /** A line no further on than the old candidate of length oldl improves nothing more. */
  lemma TrySkip(cl0: seq<Cand>, c0: seq<nat>, k: nat, cl: seq<Cand>, c: seq<nat>, a: seq<int>, v: int, b: seq<int>,
                oldl: nat, q: nat, lim: nat, y: nat)
    requires Trying(cl0, c0, k, cl, c, a, v, b, oldl, q, lim) && lim <= y <= Y(cl0, c0, q)
    ensures Improved(cl0, c0, k, cl, c, k, y)
  {
    hide Common, Chain;
    forall l | 0 <= l <= k && Y(cl0, c0, l) < y
      ensures l + 1 <= k && Y(cl, c, l + 1) <= y
    {
      assert l < oldl;
      assert l + 1 < oldl ==> Y(cl, c, l + 1) < Y(cl, c, oldl);
    }
  }

  /** The place that search finds: its predecessor is an old candidate. */
  ghost predicate Found(cl: seq<Cand>, c: seq<nat>, k: nat, y: nat, l: nat) {
    1 <= l <= k + 1 && Y(cl, c, l - 1) < y && (l <= k ==> y <= Y(cl, c, l))
  }

  lemma FoundOld(cl0: seq<Cand>, c0: seq<nat>, k: nat, cl: seq<Cand>, c: seq<nat>, a: seq<int>, v: int, b: seq<int>,
                 oldl: nat, q: nat, lim: nat, y: nat, l: nat)
    requires Trying(cl0, c0, k, cl, c, a, v, b, oldl, q, lim) && lim <= y && Y(cl0, c0, q) < y && Found(cl, c, k, y, l)
    ensures oldl <= l - 1 && Y(cl0, c0, l - 1) < y
    ensures l == oldl + 1 ==> q == oldl
    ensures l != oldl + 1 ==> c[l - 1] == c0[l - 1]
    ensures Improved(cl0, c0, k, cl, c[..], k, y) || l == k + 1 || y < Y(cl, c, l)
    ensures forall r :: 0 <= r <= k && Y(cl0, c0, r) < y ==> r + 1 <= l
  {
    hide Common, Chain;
    assert c[..] == c;
    assert l < oldl ==> Y(cl, c, l) < Y(cl, c, oldl);
    assert q > oldl ==> c[q] == c0[q];
    assert l < q ==> Y(cl, c, l) < Y(cl, c, q);
    assert l <= k ==> c[l] == c0[l];
    forall r: nat | 0 <= r <= k && Y(cl0, c0, r) < y
      ensures r + 1 <= l
    {
      assert l < r ==> Y(cl0, c0, l) < Y(cl0, c0, r);
    }
    if l <= k && Y(cl, c, l) == y {
      forall r | 0 <= r <= k && Y(cl0, c0, r) < y
        ensures r + 1 <= k && Y(cl, c, r + 1) <= y
      {
        assert r + 1 < l ==> Y(cl, c, r + 1) < Y(cl, c, l);
      }
    }
  }

  /** The candidate of length l is replaced by a nearer one. */
  lemma TryReplace(cl0: seq<Cand>, c0: seq<nat>, k: nat, cl: seq<Cand>, c: seq<nat>, a: seq<int>, v: int, b: seq<int>,
                   oldl: nat, q: nat, lim: nat, y: nat, l: nat)
    requires Trying(cl0, c0, k, cl, c, a, v, b, oldl, q, lim) && lim <= y && Y(cl0, c0, q) < y && Found(cl, c, k, y, l)
    requires l <= k && y < Y(cl, c, l) && 1 <= y <= |b| && b[y - 1] == v && k + 1 < |c|
    ensures var cl', c' := cl + [Cand(|a| + 1, y, c0[l - 1])], c[l := |cl|];
            && Trying(cl0, c0, k, cl', c', a, v, b, l, l, y + 1)
            && Improved(cl0, c0, k, cl', c', k, y)
            && (forall r :: 0 <= r <= k ==> Y(cl', c', r) <= Y(cl, c, r))
  {
    hide Common, Chain;
    var cl', c' := cl + [Cand(|a| + 1, y, c0[l - 1])], c[l := |cl|];
    FoundOld(cl0, c0, k, cl, c, a, v, b, oldl, q, lim, y, l);
    NewCandidate(cl0, c0, k, cl, a, v, b, l, y);
    RowsReplaced(cl, c, k, a + [v], b, cl', l);
    assert forall r :: 0 <= r <= k && r != l ==> Y(cl', c', r) == Y(cl, c, r);
    assert Y(cl', c', l) == y;
    forall r | 0 <= r <= k && Y(cl0, c0, r) < y
      ensures r + 1 <= k && Y(cl', c', r + 1) <= y
    {
      assert r + 1 < l ==> Y(cl', c', r + 1) < Y(cl', c', l);
    }
  }

  /** A candidate of a new length: the remaining lines cannot improve on it. */
  lemma TryExtend(cl0: seq<Cand>, c0: seq<nat>, k: nat, cl: seq<Cand>, c: seq<nat>, a: seq<int>, v: int, b: seq<int>,
                  oldl: nat, q: nat, lim: nat, y: nat, cl': seq<Cand>, c': seq<nat>)
    requires Trying(cl0, c0, k, cl, c, a, v, b, oldl, q, lim) && lim <= y && Y(cl0, c0, q) < y && Found(cl, c, k, y, k + 1)
    requires 1 <= y <= |b| && b[y - 1] == v && k + 1 < |c|
    requires cl' == cl + [Cand(|a| + 1, y, c0[k])] && c' == c[k + 1 := |cl|]
    ensures Rows(cl', c', k + 1, a + [v], b)
    ensures forall r :: 0 <= r <= k ==> Y(cl', c', r) == Y(cl, c, r)
    ensures Y(cl', c', k + 1) == y
  {
    hide Common, Chain;
    FoundOld(cl0, c0, k, cl, c, a, v, b, oldl, q, lim, y, k + 1);
    NewCandidate(cl0, c0, k, cl, a, v, b, k + 1, y);
    RowsReplaced(cl, c, k, a + [v], b, cl', k + 1);
  }

  lemma ExtendImproves(cl0: seq<Cand>, c0: seq<nat>, k: nat, cl: seq<Cand>, c: seq<nat>, a: seq<int>, b: seq<int>, y: nat)
    requires Rows(cl, c, k + 1, a, b) && Y(cl, c, k + 1) <= y
    ensures Improved(cl0, c0, k, cl, c, k + 1, y)
  {
    hide Common, Chain;
    assert forall r :: 0 <= r < k + 1 ==> Y(cl, c, r) < Y(cl, c, k + 1);
  }

  /** Further improvements keep what was improved. */
  lemma ImprovedKept(cl0: seq<Cand>, c0: seq<nat>, k0: nat, cl: seq<Cand>, c: seq<nat>, k: nat,
                     cl': seq<Cand>, c': seq<nat>, k': nat, y: nat)
    requires Improved(cl0, c0, k0, cl, c, k, y) && k <= k' && forall r :: 0 <= r <= k ==> Y(cl', c', r) <= Y(cl, c, r)
    ensures Improved(cl0, c0, k0, cl', c', k', y)
  {
    hide Y;
    forall l | 0 <= l <= k0 && Y(cl0, c0, l) < y
      ensures l + 1 <= k' && Y(cl', c', l + 1) <= y
    {
      assert l + 1 <= k && Y(cl, c, l + 1) <= y;
    }
  }

  /** Some value of the first file occurs more often than that in the second. */
  ghost predicate Crowded(a: seq<int>, b: seq<int>, bound: nat) {
    exists i :: 0 <= i < |a| && multiset(b)[a[i]] > bound
  }

  class Differ {
    var clist: seq<Cand>       // candidates, in the order of their making
    const klist: array<nat>    // the current candidate of each length

    constructor (n: nat)
      ensures klist.Length == n + 2 && fresh(klist) && clist == []
    {
      clist := [];
      klist := new nat[n + 2];
    }

    /** newcand. */
    method NewCand(x: nat, y: nat, pred: nat) returns (r: nat)
      modifies this`clist
      ensures r == old(|clist|) && clist == old(clist) + [Cand(x, y, pred)]
    {
      r := |clist|;
      clist := clist + [Cand(x, y, pred)];
    }

    /** search: the first length whose candidate is not before y. */
    method Search(k: nat, y: nat) returns (l: nat)
      requires k < klist.Length && y > 0 && Y(clist, klist[..], 0) == 0
      requires forall r :: 0 <= r <= k ==> klist[r] < |clist|
      requires forall p, r :: 0 <= p < r <= k ==> Y(clist, klist[..], p) < Y(clist, klist[..], r)
      ensures Found(clist, klist[..], k, y, l)
    {
      ghost var c := klist[..];
      assert clist[klist[k]].y == Y(clist, c, k);
      if clist[klist[k]].y < y {
        return k + 1;
      }
      var i, j := 0, k + 1;
      while true
        invariant 0 <= i < j <= k + 1 && Y(clist, c, i) < y && (j <= k ==> y < Y(clist, c, j))
        decreases j - i
      {
        l := (i + j) / 2;
        if l <= i {
          break;
        }
        var t := clist[klist[l]].y;
        assert t == Y(clist, c, l);
        if t > y {
          j := l;
        } else if t < y {
          i := l;
        } else {
          return l;
        }
      }
      return l + 1;
    }

    /** The body of the inner loop of stone for one line y of the second file. */
    method TryLine(i: nat, y: nat, k: nat, oldLevel: nat, oldCand: nat,
                   ghost cl0: seq<Cand>, ghost c0: seq<nat>, ghost a: seq<int>, ghost v: int, ghost b: seq<int>,
                   ghost q0: nat, ghost lim: nat)
      returns (oldl: nat, oldc: nat, tried: bool, extended: bool, ghost q: nat)
      requires Trying(cl0, c0, k, clist, klist[..], a, v, b, oldLevel, q0, lim) && oldCand == c0[q0] && lim <= y
      requires i == |a| + 1 && 1 <= y <= |b| && b[y - 1] == v && k + 1 < klist.Length
      modifies this`clist, klist
      ensures !extended ==> Trying(cl0, c0, k, clist, klist[..], a, v, b, oldl, q, y + 1) && oldc == c0[q]
                            && Improved(cl0, c0, k, clist, klist[..], k, y)
      ensures extended ==> Rows(clist, klist[..], k + 1, a + [v], b) && Y(clist, klist[..], k + 1) == y
      ensures forall r :: 0 <= r <= k ==> Y(clist, klist[..], r) <= old(Y(clist, klist[..], r))
    {
      hide Common, Chain, Rows, Improved;
      oldl, oldc, tried, extended, q := oldLevel, oldCand, false, false, q0;
      ghost var cl, c := clist, klist[..];
      RowsFacts(cl0, c0, k, a, b);
      RowsFacts(cl, c, k, a + [v], b);
      assert clist[oldc].y == Y(cl0, c0, q0);
      if y <= clist[oldc].y {
        TrySkip(cl0, c0, k, cl, c, a, v, b, oldLevel, q0, lim, y);
        return;
      }
      var l := Search(k, y);
      FoundOld(cl0, c0, k, cl, c, a, v, b, oldLevel, q0, lim, y, l);
      if l != oldl + 1 {
        oldc := klist[l - 1];
      }
      q := l - 1;
      assert oldc == c0[q];
      if l <= k {
        assert clist[klist[l]].y == Y(cl, c, l);
        if clist[klist[l]].y <= y {
          assert c[..] == c;
          return;
        }
        TryReplace(cl0, c0, k, cl, c, a, v, b, oldLevel, q0, lim, y, l);
        var tc := klist[l];
        assert tc == c0[l];
        var r := NewCand(i, y, oldc);
        klist[l] := r;
        assert klist[..] == c[l := |cl|];
        oldc, oldl, tried, q := tc, l, true, l;
      } else {
        var r := NewCand(i, y, oldc);
        klist[l] := r;
        assert klist[..] == c[k + 1 := |cl|];
        TryExtend(cl0, c0, k, cl, c, a, v, b, oldLevel, q0, lim, y, clist, klist[..]);
        extended := true;
      }
    }

    /** The inner loop of stone: line i of the first file against its class. */
    method Row(i: nat, start: nat, size: nat, mem: array<int>, bound: nat,
               ghost a: seq<int>, ghost v: int, ghost b: seq<int>, ghost e: nat)
      returns (k: nat, ghost reached: bool)
      requires Rows(clist, klist[..], size, a, b) && i == |a| + 1 && size + 1 < klist.Length
      requires Class(mem[..], start, e, b, v)
      modifies this`clist, klist
      ensures size <= k <= size + 1 && Rows(clist, klist[..], k, a + [v], b)
      ensures forall r :: 0 <= r <= size ==> Y(clist, klist[..], r) <= old(Y(clist, klist[..], r))
      ensures !reached ==>
                forall y :: Equal(b, y, v) ==> Improved(old(clist), old(klist[..]), size, clist, klist[..], k, y)
      ensures reached ==> bound < multiset(b)[v]
    {
      hide Common, Chain, Rows, Improved, Y, Class;
      ghost var cl0, c0, ms := clist, klist[..], mem[..];
      k, reached := size, false;
      var j, oldl, oldc, numtries := start, 0, klist[0], 0;
      ghost var q: nat, lim: nat := 0, 0;
      ClassFacts(ms, start, e, b, v);
      StartRow(cl0, c0, k, a, v, b);
      var y := -mem[j];
      while true
        invariant start <= j < e && y == Abs(mem[j]) && k == size && !reached && lim <= y && numtries <= j - start
        invariant Trying(cl0, c0, k, clist, klist[..], a, v, b, oldl, q, lim) && oldc == c0[q]
        invariant forall s :: start <= s < j ==> Improved(cl0, c0, k, clist, klist[..], k, Abs(mem[s]))
        decreases e - j
      {
        ghost var cl, c := clist, klist[..];
        var tried, extended;
        MemberFacts(ms, start, e, b, v, j);
        oldl, oldc, tried, extended, q := TryLine(i, y, k, oldl, oldc, cl0, c0, a, v, b, q, lim);
        AllKept(cl0, c0, k, cl, c, k, clist, klist[..], if extended then k + 1 else k, ms, start, j);
        if extended {
          k := k + 1;
          RestImproved(cl0, c0, size, clist, klist[..], a + [v], b, ms, start, e, v, j);
          break;
        }
        if tried {
          numtries := numtries + 1;
        }
        lim := y + 1;
        j := j + 1;
        if !(mem[j] > 0 && numtries < bound) {
          reached := mem[j] > 0;
          if reached {
            ClassGoesOn(ms, start, e, b, v, j);
            ClassSize(ms, start, e, b, v, e);
          }
          break;
        }
        ClassGoesOn(ms, start, e, b, v, j);
        y := mem[j];
      }
      if !reached {
        ClassEnds(ms, start, e, b, v, j, k == size + 1);
        forall y | Equal(b, y, v)
          ensures Improved(cl0, c0, size, clist, klist[..], k, y)
        {
          var s := MemberOf(ms, start, e, b, v, y);
          assert Abs(mem[s]) == y;
        }
      }
    }

    /**
     stone: the length of a longest common subsequence, if the bound on tries was not reached; it can be
     reached only for a value that the second file has more often than that. In any case the candidates
     end common subsequences.
     */
    method Stone(cls: array<int>, n: nat, mem: array<int>, bound: nat, ghost a: seq<int>, ghost b: seq<int>)
      returns (k: nat, ghost reached: bool)
      requires n == |a| && klist.Length == n + 2 && clist == [] && Classed(a, b, cls[..], mem[..])
      modifies this`clist, klist
      ensures k <= n && Rows(clist, klist[..], k, a, b)
      ensures !reached ==> Longest(a, b, k)
      ensures reached ==> Crowded(a, b, bound)
    {
      hide Common, Chain, Rows, Improved, Y, HasClass, Longest;
      k, reached := 0, false;
      var first := NewCand(0, 0, 0);
      klist[0] := first;
      NoRows(clist, klist[..], a, b);
      for i := 1 to n + 1
        invariant k < i && Rows(clist, klist[..], k, a[..i - 1], b)
        invariant !reached ==> Exact(clist, klist[..], k, a[..i - 1], b)
        invariant reached ==> Crowded(a, b, bound)
      {
        ghost var cl0, c0, k0, v := clist, klist[..], k, a[i - 1];
        assert a[..i] == a[..i - 1] + [v];
        RowsFacts(cl0, c0, k0, a[..i - 1], b);
        var j := cls[i];
        assert j == cls[..][i];
        if j == 0 {
          StartRow(cl0, c0, k, a[..i - 1], v, b);
          NoEqualLine(b, v);
        } else {
          ghost var e := ClassOf(mem[..], j, b, v);
          ghost var r;
          k, r := Row(i, j, k, mem, bound, a[..i - 1], v, b, e);
          reached := reached || r;
        }
        if !reached {
          RowExact(cl0, c0, k0, clist, klist[..], k, a[..i - 1], v, b);
        }
      }
      assert a[..n] == a;
      if !reached {
        ExactIsLongest(clist, klist[..], k, a, b);
      }
    }
  }

  lemma RowsFacts(cl: seq<Cand>, c: seq<nat>, k: nat, a: seq<int>, b: seq<int>)
    requires Rows(cl, c, k, a, b)
    ensures k < |c| && cl != [] && Y(cl, c, 0) == 0
    ensures forall l :: 0 <= l <= k ==> c[l] < |cl|
    ensures forall l, r :: 0 <= l < r <= k ==> Y(cl, c, l) < Y(cl, c, r)
  {
    hide Common, Chain;
  }

  lemma ClassFacts(mem: seq<int>, j: nat, e: nat, b: seq<int>, v: int)
    requires Class(mem, j, e, b, v)
    ensures 1 <= j < e < |mem| && mem[j] < 0
  {
  }

  lemma MemberFacts(mem: seq<int>, j: nat, e: nat, b: seq<int>, v: int, t: nat)
    requires Class(mem, j, e, b, v) && j <= t < e
    ensures 1 <= Abs(mem[t]) <= |b| && b[Abs(mem[t]) - 1] == v
  {
  }

  /** The end of a class is where the next entry is not positive. */
  lemma ClassGoesOn(mem: seq<int>, j: nat, e: nat, b: seq<int>, v: int, t: nat)
    requires Class(mem, j, e, b, v) && j < t <= e && mem[t] > 0
    ensures t < e && Abs(mem[t - 1]) < Abs(mem[t]) == mem[t]
  {
  }

  lemma ClassEnds(mem: seq<int>, j: nat, e: nat, b: seq<int>, v: int, t: nat, extended: bool)
    requires Class(mem, j, e, b, v) && j <= t <= e && (extended || (j < t && mem[t] <= 0))
    ensures extended || t == e
  {
  }

  lemma MemberOf(mem: seq<int>, j: nat, e: nat, b: seq<int>, v: int, y: nat) returns (t: nat)
    requires Class(mem, j, e, b, v) && 1 <= y <= |b| && b[y - 1] == v
    ensures j <= t < e && Abs(mem[t]) == y
  {
    assert Lists(mem, j, e, y);
    t :| j <= t < e && Abs(mem[t]) == y;
  }

  lemma AllKept(cl0: seq<Cand>, c0: seq<nat>, k0: nat, cl: seq<Cand>, c: seq<nat>, k: nat,
                cl': seq<Cand>, c': seq<nat>, k': nat, mem: seq<int>, from: nat, to: nat)
    requires k <= k' && to <= |mem| && forall r :: 0 <= r <= k ==> Y(cl', c', r) <= Y(cl, c, r)
    requires forall s :: from <= s < to ==> Improved(cl0, c0, k0, cl, c, k, Abs(mem[s]))
    ensures forall s :: from <= s < to ==> Improved(cl0, c0, k0, cl', c', k', Abs(mem[s]))
  {
    hide Y, Improved;
    forall s | from <= s < to
      ensures Improved(cl0, c0, k0, cl', c', k', Abs(mem[s]))
    {
      ImprovedKept(cl0, c0, k0, cl, c, k, cl', c', k', Abs(mem[s]));
    }
  }

  lemma RestImproved(cl0: seq<Cand>, c0: seq<nat>, k: nat, cl: seq<Cand>, c: seq<nat>, a: seq<int>, b: seq<int>,
                     mem: seq<int>, j: nat, e: nat, v: int, t: nat)
    requires Rows(cl, c, k + 1, a, b) && Class(mem, j, e, b, v) && j <= t < e && Y(cl, c, k + 1) == Abs(mem[t])
    ensures forall s :: t <= s < e ==> Improved(cl0, c0, k, cl, c, k + 1, Abs(mem[s]))
  {
    hide Common, Chain, Rows, Improved;
    forall s | t <= s < e
      ensures Improved(cl0, c0, k, cl, c, k + 1, Abs(mem[s]))
    {
      assert t < s ==> Abs(mem[t]) < Abs(mem[s]);
      ExtendImproves(cl0, c0, k, cl, c, a, b, Abs(mem[s]));
    }
  }

  /** A class has as many members as the file has lines of that value. */
  lemma {:induction false} ClassSize(mem: seq<int>, j: nat, e: nat, b: seq<int>, v: int, t: nat)
    requires Class(mem, j, e, b, v) && j <= t <= e
    ensures t - j <= multiset(b[..if t == j then 0 else Abs(mem[t - 1])])[v] <= multiset(b)[v]
    decreases t
  {
    if t > j {
      ClassSize(mem, j, e, b, v, t - 1);
      var y := Abs(mem[t - 1]);
      var low := if t - 1 == j then 0 else Abs(mem[t - 2]);
      CountGrows(b, v, low, y - 1);
      assert b[..y] == b[..y - 1] + [v];
      CountGrows(b, v, y, |b|);
    } else {
      CountGrows(b, v, 0, |b|);
    }
    assert b[..|b|] == b;
  }

  lemma CountGrows(b: seq<int>, v: int, i: nat, k: nat)
    requires i <= k <= |b|
    ensures multiset(b[..i])[v] <= multiset(b[..k])[v]
  {
    assert b[..k] == b[..i] + b[i..k];
  }

  lemma ClassOf(mem: seq<int>, j: int, b: seq<int>, v: int) returns (e: nat)
    requires HasClass(mem, j, b, v)
    ensures j > 0 && Class(mem, j, e, b, v)
  {
    hide Class;
    e :| Class(mem, j, e, b, v);
  }

  lemma NoRows(cl: seq<Cand>, c: seq<nat>, a: seq<int>, b: seq<int>)
    requires cl == [Cand(0, 0, 0)] && c != [] && c[0] == 0
    ensures Rows(cl, c, 0, a[..0], b) && Exact(cl, c, 0, a[..0], b)
  {
    forall ps: seq<Pair> | Common(a[..0], b, ps)
      ensures ps == []
    {
      CommonSize(a[..0], b, ps);
    }
  }

  lemma ExactIsLongest(cl: seq<Cand>, c: seq<nat>, k: nat, a: seq<int>, b: seq<int>)
    requires Rows(cl, c, k, a, b) && Exact(cl, c, k, a, b)
    ensures Longest(a, b, k)
  {
    hide Common, Chain;
    assert |Chain(cl, c[k])| == k && Common(a, b, Chain(cl, c[k]));
  }
}
