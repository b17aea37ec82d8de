/** Common subsequences of two sequences of lines. */
module Lcs {
  /** Line x of the first file matched with line y of the second, counted from 1. */
  datatype Pair = Pair(x: nat, y: nat)

  /** ps matches equal lines, in strictly increasing order on both sides. */
  ghost predicate Common(a: seq<int>, b: seq<int>, ps: seq<Pair>) {
    && (forall i :: 0 <= i < |ps| ==> 1 <= ps[i].x <= |a| && 1 <= ps[i].y <= |b| && a[ps[i].x - 1] == b[ps[i].y - 1])
    && (forall i, k :: 0 <= i < k < |ps| ==> ps[i].x < ps[k].x && ps[i].y < ps[k].y)
  }

  lemma {:induction false} CommonGrows(a: seq<int>, b: seq<int>, ps: seq<Pair>, i: nat)
    requires Common(a, b, ps) && i < |ps|
    ensures i < ps[i].x <= |a|
  {
    if i > 0 {
      CommonGrows(a, b, ps, i - 1);
    }
  }

  lemma CommonSize(a: seq<int>, b: seq<int>, ps: seq<Pair>)
    requires Common(a, b, ps)
    ensures |ps| <= |a|
  {
    if ps != [] {
      CommonGrows(a, b, ps, |ps| - 1);
    }
  }

  /** No common subsequence has more than k lines, and one has k. */
  ghost predicate Longest(a: seq<int>, b: seq<int>, k: nat) {
    && (exists ps :: Common(a, b, ps) && |ps| == k)
    && forall ps :: Common(a, b, ps) ==> |ps| <= k
  }

  function Raised(ps: seq<Pair>): (r: seq<Pair>)
    ensures |r| == |ps|
  {
    seq(|ps|, i requires 0 <= i < |ps| => Pair(ps[i].x + 1, ps[i].y + 1))
  }

  function Below(n: nat): nat {
    if n == 0 then 0 else n - 1
  }

  function Lowered(ps: seq<Pair>): (r: seq<Pair>)
    ensures |r| == |ps|
  {
    seq(|ps|, i requires 0 <= i < |ps| => Pair(Below(ps[i].x), Below(ps[i].y)))
  }

  /** Without its first pair, a common subsequence lies behind the first lines. */
  lemma WithoutFirst(v: int, a: seq<int>, b: seq<int>, ps: seq<Pair>)
    requires ps != [] && Common([v] + a, [v] + b, ps)
    ensures Common(a, b, Lowered(ps[1..]))
  {
    var r := Lowered(ps[1..]);
    forall i | 0 <= i < |r|
      ensures 1 <= r[i].x <= |a| && 1 <= r[i].y <= |b| && a[r[i].x - 1] == b[r[i].y - 1]
      ensures r[i].x == ps[i + 1].x - 1 && r[i].y == ps[i + 1].y - 1
    {
      assert ps[0].x < ps[i + 1].x && ps[0].y < ps[i + 1].y;
    }
  }

  lemma WithoutLast(v: int, a: seq<int>, b: seq<int>, ps: seq<Pair>)
    requires ps != [] && Common(a + [v], b + [v], ps)
    ensures Common(a, b, ps[..|ps| - 1])
  {
    forall i | 0 <= i < |ps| - 1
      ensures 1 <= ps[i].x <= |a| && 1 <= ps[i].y <= |b| && a[ps[i].x - 1] == b[ps[i].y - 1]
    {
      assert ps[i].x < ps[|ps| - 1].x && ps[i].y < ps[|ps| - 1].y;
    }
  }

  lemma AddFirst(v: int, a: seq<int>, b: seq<int>, ps: seq<Pair>)
    requires Common(a, b, ps)
    ensures Common([v] + a, [v] + b, [Pair(1, 1)] + Raised(ps))
  {
    var r := Raised(ps);
    forall i | 0 <= i < |r|
      ensures ([v] + a)[r[i].x - 1] == ([v] + b)[r[i].y - 1]
    {
    }
  }

  lemma AddLast(v: int, a: seq<int>, b: seq<int>, ps: seq<Pair>)
    requires Common(a, b, ps)
    ensures Common(a + [v], b + [v], ps + [Pair(|a| + 1, |b| + 1)])
  {
    forall i | 0 <= i < |ps|
      ensures (a + [v])[ps[i].x - 1] == (b + [v])[ps[i].y - 1]
    {
    }
  }

  /** A common first line belongs to some longest common subsequence. */
  lemma PrefixLine(v: int, a: seq<int>, b: seq<int>, k: nat)
    requires Longest(a, b, k)
    ensures Longest([v] + a, [v] + b, k + 1)
  {
    hide Common;
    var ps :| Common(a, b, ps) && |ps| == k;
    AddFirst(v, a, b, ps);
    forall rs: seq<Pair> | Common([v] + a, [v] + b, rs)
      ensures |rs| <= k + 1
    {
      if rs != [] {
        WithoutFirst(v, a, b, rs);
      }
    }
  }

  /** A common last line does too. */
  lemma SuffixLine(v: int, a: seq<int>, b: seq<int>, k: nat)
    requires Longest(a, b, k)
    ensures Longest(a + [v], b + [v], k + 1)
  {
    hide Common;
    var ps :| Common(a, b, ps) && |ps| == k;
    AddLast(v, a, b, ps);
    forall rs: seq<Pair> | Common(a + [v], b + [v], rs)
      ensures |rs| <= k + 1
    {
      if rs != [] {
        WithoutLast(v, a, b, rs);
      }
    }
  }

  lemma {:induction false} PrefixLines(vs: seq<int>, a: seq<int>, b: seq<int>, k: nat)
    requires Longest(a, b, k)
    ensures Longest(vs + a, vs + b, |vs| + k)
    decreases |vs|
  {
    hide Longest;
    if vs == [] {
      assert vs + a == a && vs + b == b;
    } else {
      PrefixLines(vs[1..], a, b, k);
      PrefixLine(vs[0], vs[1..] + a, vs[1..] + b, |vs| - 1 + k);
      assert vs + a == [vs[0]] + (vs[1..] + a) && vs + b == [vs[0]] + (vs[1..] + b);
    }
  }

  lemma {:induction false} SuffixLines(vs: seq<int>, a: seq<int>, b: seq<int>, k: nat)
    requires Longest(a, b, k)
    ensures Longest(a + vs, b + vs, |vs| + k)
    decreases |vs|
  {
    hide Longest;
    if vs == [] {
      assert a + vs == a && b + vs == b;
    } else {
      var n := |vs| - 1;
      SuffixLines(vs[..n], a, b, k);
      SuffixLine(vs[n], a + vs[..n], b + vs[..n], n + k);
      assert a + vs == a + vs[..n] + [vs[n]] && b + vs == b + vs[..n] + [vs[n]];
    }
  }
}
