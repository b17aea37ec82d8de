/**
 From candidates to the match vector J (coreutils/diff.c, prune, unravel and check): J[i] is the line
 of the second file that line i of the first corresponds to, or 0.
 */
module MatchVector {
  import opened Lcs
  import opened DiffSort
  import opened DiffClasses
  import opened Stone

  /** J matches equal lines only, in increasing order. */
  ghost predicate Matching<T>(js: seq<nat>, a: seq<T>, b: seq<T>) {
    && |a| < |js|
    && (forall i :: 1 <= i <= |a| && js[i] != 0 ==> js[i] <= |b| && a[i - 1] == b[js[i] - 1])
    && (forall i, k :: 1 <= i < k <= |a| && js[i] != 0 && js[k] != 0 ==> js[i] < js[k])
  }

  /** How many of the first n lines are matched. */
  function Matched(js: seq<nat>, n: nat): nat
    requires n < |js|
  {
    if n == 0 then 0 else Matched(js, n - 1) + if js[n] != 0 then 1 else 0
  }

  /** prune: the lines that both files have in common at the start and at the end. */
  method Prune(a: seq<int>, b: seq<int>) returns (pref: nat, suff: nat)
    ensures pref + suff <= |a| && pref + suff <= |b|
    ensures a[..pref] == b[..pref] && a[|a| - suff..] == b[|b| - suff..]
    ensures pref < |a| && pref < |b| ==> a[pref] != b[pref]
    ensures pref + suff < |a| && pref + suff < |b| ==> a[|a| - suff - 1] != b[|b| - suff - 1]
  {
    pref, suff := 0, 0;
    while pref < |a| && pref < |b| && a[pref] == b[pref]
      invariant pref <= |a| && pref <= |b| && a[..pref] == b[..pref]
    {
      pref := pref + 1;
    }
    while suff < |a| - pref && suff < |b| - pref && a[|a| - suff - 1] == b[|b| - suff - 1]
      invariant pref + suff <= |a| && pref + suff <= |b| && a[|a| - suff..] == b[|b| - suff..]
    {
      suff := suff + 1;
    }
  }

  /** The part of a file between the common lines, numbered from 1. */
  method Middle(a: seq<int>, pref: nat, slen: nat) returns (f: array<Line>)
    requires pref + slen <= |a|
    ensures fresh(f) && f.Length == slen + 2 && Numbered(f[..], a[pref..pref + slen])
  {
    f := new Line[slen + 2](_ => Line(0, 0));
    for i := 1 to slen + 1
      invariant forall p :: 1 <= p < i ==> f[p] == Line(a[pref + p - 1], p)
    {
      f[i] := Line(a[pref + i - 1], i);
    }
  }

  /** Common first and last lines leave the longest common subsequence to the middle. */
  lemma LongestWhole(a: seq<int>, b: seq<int>, pref: nat, suff: nat, k: nat)
    requires pref + suff <= |a| && pref + suff <= |b|
    requires a[..pref] == b[..pref] && a[|a| - suff..] == b[|b| - suff..]
    requires Longest(a[pref..|a| - suff], b[pref..|b| - suff], k)
    ensures Longest(a, b, pref + k + suff)
  {
    hide Longest;
    var am, bm := a[pref..|a| - suff], b[pref..|b| - suff];
    SuffixLines(a[|a| - suff..], am, bm, k);
    PrefixLines(a[..pref], am + a[|a| - suff..], bm + a[|a| - suff..], k + suff);
    assert a == a[..pref] + (am + a[|a| - suff..]) && b == b[..pref] + (bm + b[|b| - suff..]);
  }

  /** The vector before the chain is entered: only the common first and last lines are matched. */
  function Ends(n: nat, m: nat, pref: nat, suff: nat): (js: seq<nat>)
    requires pref + suff <= n && pref + suff <= m
    ensures |js| == n + 2
  {
    seq(n + 2, i requires 0 <= i => if i > n then 0 else if i <= pref then i else if i > n - suff then i + m - n else 0)
  }

  /** The vector with the pairs of a chain entered, from the last to the first. */
  function Entered(js: seq<nat>, ps: seq<Pair>, pref: nat): (r: seq<nat>)
    requires forall i :: 0 <= i < |ps| ==> ps[i].x + pref < |js|
    ensures |r| == |js|
    decreases |ps|
  {
    if ps == [] then js
    else Entered(js[ps[|ps| - 1].x + pref := ps[|ps| - 1].y + pref], ps[..|ps| - 1], pref)
  }

  /** What entering a chain leaves at each place. */
  lemma {:induction false} EnteredAt(js: seq<nat>, ps: seq<Pair>, pref: nat, i: nat)
    requires (forall t :: 0 <= t < |ps| ==> ps[t].x + pref < |js|) && i < |js|
    requires forall t, u :: 0 <= t < u < |ps| ==> ps[t].x < ps[u].x
    ensures (forall t :: 0 <= t < |ps| ==> ps[t].x + pref != i) ==> Entered(js, ps, pref)[i] == js[i]
    ensures forall t :: 0 <= t < |ps| && ps[t].x + pref == i ==> Entered(js, ps, pref)[i] == ps[t].y + pref
    decreases |ps|
  {
    if ps != [] {
      var n := |ps| - 1;
      EnteredAt(js[ps[n].x + pref := ps[n].y + pref], ps[..n], pref, i);
    }
  }

  /** Each entry of a chain matches one line more. */
  lemma {:induction false} MatchedMore(js: seq<nat>, n: nat, x: nat, v: nat)
    requires n < |js| && 1 <= x <= n && js[x] == 0 && v != 0
    ensures Matched(js[x := v], n) == Matched(js, n) + 1
  {
    if n > x {
      MatchedMore(js, n - 1, x, v);
    } else {
      MatchedSame(js, n - 1, x, v);
    }
  }

  lemma {:induction false} MatchedSame(js: seq<nat>, n: nat, x: nat, v: nat)
    requires n < x < |js|
    ensures Matched(js[x := v], n) == Matched(js, n)
  {
    if n > 0 {
      MatchedSame(js, n - 1, x, v);
    }
  }

  lemma {:induction false} EnteredCount(js: seq<nat>, ps: seq<Pair>, pref: nat, n: nat)
    requires n < |js| && (forall t :: 0 <= t < |ps| ==> 1 <= ps[t].x + pref <= n && ps[t].y > 0 && js[ps[t].x + pref] == 0)
    requires forall t, u :: 0 <= t < u < |ps| ==> ps[t].x < ps[u].x
    ensures Matched(Entered(js, ps, pref), n) == Matched(js, n) + |ps|
    decreases |ps|
  {
    if ps != [] {
      var k := |ps| - 1;
      MatchedMore(js, n, ps[k].x + pref, ps[k].y + pref);
      EnteredCount(js[ps[k].x + pref := ps[k].y + pref], ps[..k], pref, n);
    }
  }

  lemma {:induction false} EndsCount(n: nat, m: nat, pref: nat, suff: nat, k: nat)
    requires pref + suff <= n && pref + suff <= m && k <= n
    ensures Matched(Ends(n, m, pref, suff), k) ==
            (if k <= pref then k else if k <= n - suff then pref else pref + k - (n - suff))
  {
    if k > 0 {
      EndsCount(n, m, pref, suff, k - 1);
    }
  }

  /** The vector that unravel makes. */
  ghost function Vector(ps: seq<Pair>, n: nat, m: nat, pref: nat, suff: nat): (js: seq<nat>)
    requires pref + suff <= n && pref + suff <= m
    requires forall i :: 0 <= i < |ps| ==> 1 <= ps[i].x <= n - pref - suff && 1 <= ps[i].y <= m - pref - suff
    ensures |js| == n + 2
  {
    Entered(Ends(n, m, pref, suff), ps, pref)
  }

  /** Where entry i of the vector comes from. */
  ghost predicate Entry(ps: seq<Pair>, n: nat, m: nat, pref: nat, suff: nat, i: nat, j: nat) {
    if i <= pref then j == i
    else if i > n - suff then j == i + m - n
    else j == 0 || exists t :: 0 <= t < |ps| && ps[t].x + pref == i && ps[t].y + pref == j
  }

  lemma VectorEntry(ps: seq<Pair>, a: seq<int>, b: seq<int>, n: nat, m: nat, pref: nat, suff: nat, i: nat)
    requires pref + suff <= n && pref + suff <= m && |a| == n - pref - suff && |b| == m - pref - suff
    requires Common(a, b, ps) && 1 <= i <= n
    ensures Entry(ps, n, m, pref, suff, i, Vector(ps, n, m, pref, suff)[i])
  {
    EnteredAt(Ends(n, m, pref, suff), ps, pref, i);
  }

  /** Two entries are in order. */
  lemma EntriesRise(ps: seq<Pair>, a: seq<int>, b: seq<int>, n: nat, m: nat, pref: nat, suff: nat, i: nat, j: nat, i': nat, j': nat)
    requires pref + suff <= n && pref + suff <= m && |a| == n - pref - suff && |b| == m - pref - suff
    requires Common(a, b, ps) && 1 <= i < i' <= n && j != 0 && j' != 0
    requires Entry(ps, n, m, pref, suff, i, j) && Entry(ps, n, m, pref, suff, i', j')
    ensures j < j'
  {
  }

  /** An entry matches equal lines. */
  lemma EntryEqual(ps: seq<Pair>, a: seq<int>, b: seq<int>, pref: nat, suff: nat, i: nat, j: nat)
    requires pref + suff <= |a| && pref + suff <= |b| && a[..pref] == b[..pref] && a[|a| - suff..] == b[|b| - suff..]
    requires Common(a[pref..|a| - suff], b[pref..|b| - suff], ps) && 1 <= i <= |a| && j != 0
    requires Entry(ps, |a|, |b|, pref, suff, i, j)
    ensures 1 <= j <= |b| && a[i - 1] == b[j - 1]
  {
    if i <= pref {
      assert a[..pref][i - 1] == b[..pref][i - 1];
    } else if i > |a| - suff {
      assert a[|a| - suff..][i - 1 - (|a| - suff)] == b[|b| - suff..][i - 1 - (|a| - suff)];
    }
  }

  /** The vector is a matching of pref + |ps| + suff lines. */
  lemma VectorMatches(ps: seq<Pair>, a: seq<int>, b: seq<int>, pref: nat, suff: nat)
    requires pref + suff <= |a| && pref + suff <= |b| && a[..pref] == b[..pref] && a[|a| - suff..] == b[|b| - suff..]
    requires Common(a[pref..|a| - suff], b[pref..|b| - suff], ps)
    ensures var js := Vector(ps, |a|, |b|, pref, suff);
            Matching(js, a, b) && Matched(js, |a|) == pref + |ps| + suff
  {
    hide Vector, Matched, Entered, Ends, Common;
    var am, bm := a[pref..|a| - suff], b[pref..|b| - suff];
    PairsInside(am, bm, ps);
    VectorEqual(ps, a, b, pref, suff);
    VectorRises(ps, am, bm, |a|, |b|, pref, suff);
    VectorCount(ps, am, bm, |a|, |b|, pref, suff);
  }

  lemma PairsInside(a: seq<int>, b: seq<int>, ps: seq<Pair>)
    requires Common(a, b, ps)
    ensures forall i :: 0 <= i < |ps| ==> 1 <= ps[i].x <= |a| && 1 <= ps[i].y <= |b|
  {
  }

  lemma VectorEqual(ps: seq<Pair>, a: seq<int>, b: seq<int>, pref: nat, suff: nat)
    requires pref + suff <= |a| && pref + suff <= |b| && a[..pref] == b[..pref] && a[|a| - suff..] == b[|b| - suff..]
    requires Common(a[pref..|a| - suff], b[pref..|b| - suff], ps)
    ensures var js := Vector(ps, |a|, |b|, pref, suff);
            forall i :: 1 <= i <= |a| && js[i] != 0 ==> js[i] <= |b| && a[i - 1] == b[js[i] - 1]
  {
    var am, bm := a[pref..|a| - suff], b[pref..|b| - suff];
    var js := Vector(ps, |a|, |b|, pref, suff);
    hide Vector, Entry, Common;
    forall i | 1 <= i <= |a| && js[i] != 0
      ensures js[i] <= |b| && a[i - 1] == b[js[i] - 1]
    {
      VectorEntry(ps, am, bm, |a|, |b|, pref, suff, i);
      EntryEqual(ps, a, b, pref, suff, i, js[i]);
    }
  }

  lemma VectorRises(ps: seq<Pair>, a: seq<int>, b: seq<int>, n: nat, m: nat, pref: nat, suff: nat)
    requires pref + suff <= n && pref + suff <= m && |a| == n - pref - suff && |b| == m - pref - suff
    requires Common(a, b, ps)
    ensures var js := Vector(ps, n, m, pref, suff);
            forall i, k :: 1 <= i < k <= n && js[i] != 0 && js[k] != 0 ==> js[i] < js[k]
  {
    var js := Vector(ps, n, m, pref, suff);
    hide Vector, Entry, Common;
    forall i, k | 1 <= i < k <= n && js[i] != 0 && js[k] != 0
      ensures js[i] < js[k]
    {
      VectorEntry(ps, a, b, n, m, pref, suff, i);
      VectorEntry(ps, a, b, n, m, pref, suff, k);
      EntriesRise(ps, a, b, n, m, pref, suff, i, js[i], k, js[k]);
    }
  }

  lemma VectorCount(ps: seq<Pair>, a: seq<int>, b: seq<int>, n: nat, m: nat, pref: nat, suff: nat)
    requires pref + suff <= n && pref + suff <= m && |a| == n - pref - suff && |b| == m - pref - suff
    requires Common(a, b, ps)
    ensures Matched(Vector(ps, n, m, pref, suff), n) == pref + |ps| + suff
  {
    EndsCount(n, m, pref, suff, n);
    EnteredCount(Ends(n, m, pref, suff), ps, pref, n);
  }

  /** unravel follows the chain from candidate p and enters its pairs. */
  method Unravel(cl: seq<Cand>, p: nat, len0: nat, len1: nat, pref: nat, suff: nat,
                 ghost a: seq<int>, ghost b: seq<int>) returns (js: array<nat>)
    requires pref + suff <= len0 && pref + suff <= len1 && |a| == len0 - pref - suff && |b| == len1 - pref - suff
    requires Linked(cl) && p < |cl| && Common(a, b, Chain(cl, p))
    ensures fresh(js) && js[..] == Vector(Chain(cl, p), len0, len1, pref, suff)
  {
    hide Entered, Linked;
    js := new nat[len0 + 2](_ => 0);
    for i := 0 to len0 + 1
      invariant forall k :: 0 <= k < i ==> js[k] == Ends(len0, len1, pref, suff)[k]
      invariant forall k :: i <= k < js.Length ==> js[k] == 0
    {
      js[i] := if i <= pref then i else if i > len0 - suff then i + len1 - len0 else 0;
    }
    assert js[..] == Ends(len0, len1, pref, suff);
    var q: nat := p;
    LinkFacts(cl, q);
    while cl[q].y != 0
      invariant q < |cl| && Linked(cl) && Common(a, b, Chain(cl, q))
      invariant Entered(js[..], Chain(cl, q), pref) == Vector(Chain(cl, p), len0, len1, pref, suff)
      decreases q
    {
      ghost var was := js[..];
      LinkFacts(cl, q);
      ChainStep(cl, q, a, b, was, pref);
      var at: nat, y: nat := cl[q].x + pref, cl[q].y + pref;
      js[at] := y;
      assert js[..] == was[at := y];
      q := cl[q].pred;
    }
    LinkFacts(cl, q);
    NoneEntered(js[..], pref);
  }

  lemma LinkFacts(cl: seq<Cand>, q: nat)
    requires Linked(cl) && q < |cl|
    ensures cl[q].y == 0 <==> q == 0
    ensures q > 0 ==> cl[q].pred < q
    ensures q == 0 ==> Chain(cl, q) == []
  {
  }

  lemma NoneEntered(js: seq<nat>, pref: nat)
    ensures Entered(js, [], pref) == js
  {
  }

  lemma ChainStep(cl: seq<Cand>, q: nat, a: seq<int>, b: seq<int>, js: seq<nat>, pref: nat)
    requires Linked(cl) && 0 < q < |cl| && Common(a, b, Chain(cl, q)) && |a| + pref < |js|
    ensures Common(a, b, Chain(cl, cl[q].pred)) && cl[q].x + pref < |js|
    ensures Entered(js, Chain(cl, q), pref) ==
            Entered(js[cl[q].x + pref := cl[q].y + pref], Chain(cl, cl[q].pred), pref)
  {
    hide Common, Entered;
    var front, p := Chain(cl, cl[q].pred), Pair(cl[q].x, cl[q].y);
    assert Chain(cl, q) == front + [p];
    hide Chain;
    FrontCommon(a, b, front, p);
    EnteredLast(js, front, p, pref);
  }

  lemma FrontCommon(a: seq<int>, b: seq<int>, front: seq<Pair>, p: Pair)
    requires Common(a, b, front + [p])
    ensures Common(a, b, front) && p.x <= |a| && forall i :: 0 <= i < |front| ==> front[i].x <= |a|
  {
    var ps := front + [p];
    assert ps[|front|] == p && forall i :: 0 <= i < |front| ==> front[i] == ps[i];
  }

  lemma EnteredLast(js: seq<nat>, front: seq<Pair>, p: Pair, pref: nat)
    requires p.x + pref < |js| && forall i :: 0 <= i < |front| ==> front[i].x + pref < |js|
    ensures Entered(js, front + [p], pref) == Entered(js[p.x + pref := p.y + pref], front, pref)
  {
    var ps := front + [p];
    assert ps[..|front|] == front && ps[|front|] == p;
  }

  /** The matches among the first n lines that are real. */
  function Checked<T(==)>(js: seq<nat>, old0: seq<T>, new0: seq<T>, n: nat): (r: seq<nat>)
    requires |old0| < |js| && n <= |old0|
    requires forall i :: 1 <= i <= |old0| ==> js[i] <= |new0|
    ensures |r| == |js|
    ensures forall i :: 0 <= i < |js| ==>
              r[i] == if 1 <= i <= n && js[i] != 0 && old0[i - 1] != new0[js[i] - 1] then 0 else js[i]
  {
    if n == 0 then js
    else
      var prev := Checked(js, old0, new0, n - 1);
      if js[n] != 0 && old0[n - 1] != new0[js[n] - 1] then prev[n := 0] else prev
  }

  /** check: matches of lines that only look equal are dropped. */
  method Check<T(==)>(old0: seq<T>, new0: seq<T>, js: array<nat>)
    requires |old0| < js.Length
    requires forall i :: 1 <= i <= |old0| ==> js[i] <= |new0|
    requires forall i, k :: 1 <= i < k <= |old0| && js[i] != 0 && js[k] != 0 ==> js[i] < js[k]
    modifies js
    ensures js[..] == Checked(old(js[..]), old0, new0, |old0|)
    ensures Matching(js[..], old0, new0)
  {
    ghost var js0 := js[..];
    var j := 1;
    for i := 1 to |old0| + 1
      invariant js[..] == Checked(js0, old0, new0, i - 1)
      invariant 1 <= j <= |new0| + 1 && forall k :: i <= k <= |old0| && js[k] != 0 ==> j <= js[k]
    {
      assert js[i] == js0[i];
      if js[i] == 0 {
        continue;
      }
      while j < js[i]
        invariant j <= js[i]
      {
        j := j + 1;
      }
      if old0[i - 1] != new0[j - 1] {
        js[i] := 0;
      }
      j := j + 1;
    }
  }

  function Hashes<T>(lines: seq<T>, h: T -> int): (r: seq<int>)
    ensures |r| == |lines| && forall i :: 0 <= i < |lines| ==> r[i] == h(lines[i])
  {
    seq(|lines|, i requires 0 <= i < |lines| => h(lines[i]))
  }

  /** The hash tells the lines of the two files apart. */
  ghost predicate NoCollisions<T>(old0: seq<T>, new0: seq<T>, h: T -> int) {
    forall i, k :: 0 <= i < |old0| && 0 <= k < |new0| && h(old0[i]) == h(new0[k]) ==> old0[i] == new0[k]
  }

  /**
   The core of diffreg: a match vector for two files.  All matches are real; unless some hash value of the
   old file occurs more often than bound in the new one, total is the length of a longest common
   subsequence of the hash values, and without collisions that many lines are matched.
   */
  method Correspond<T(==)>(old0: seq<T>, new0: seq<T>, h: T -> int, bound: nat)
    returns (js: array<nat>, total: nat, ghost reached: bool)
    requires forall t :: h(t) != 0
    ensures fresh(js) && js.Length == |old0| + 2 && Matching(js[..], old0, new0)
    ensures !reached ==> Longest(Hashes(old0, h), Hashes(new0, h), total)
    ensures reached ==> Crowded(Hashes(old0, h), Hashes(new0, h), bound)
    ensures NoCollisions(old0, new0, h) ==> Matched(js[..], |old0|) == total
  {
    hide Longest, Matched, Matching, Crowded;
    var a, b := Hashes(old0, h), Hashes(new0, h);
    js, total, reached := Vectorize(a, b, bound);
    ghost var js0 := js[..];
    MatchingUp(js0, a, b);
    Check(old0, new0, js);
    CheckedAll(js0, old0, new0, h, |old0|);
  }

  lemma MatchingUp(js: seq<nat>, a: seq<int>, b: seq<int>)
    requires Matching(js, a, b)
    ensures |a| < |js| && forall i :: 1 <= i <= |a| ==> js[i] <= |b|
    ensures forall i, k :: 1 <= i < k <= |a| && js[i] != 0 && js[k] != 0 ==> js[i] < js[k]
  {
  }

  /** The vector for the values of the lines, before the lines themselves are compared. */
  method Vectorize(a: seq<int>, b: seq<int>, bound: nat) returns (js: array<nat>, total: nat, ghost reached: bool)
    requires (forall i :: 0 <= i < |a| ==> a[i] != 0) && forall i :: 0 <= i < |b| ==> b[i] != 0
    ensures fresh(js) && js.Length == |a| + 2 && Matching(js[..], a, b) && Matched(js[..], |a|) == total
    ensures !reached ==> Longest(a, b, total)
    ensures reached ==> Crowded(a, b, bound)
  {
    hide Longest, Classed, Rows, Common, Chain, Vector, Matched, Numbered, Matching, Crowded;
    var pref, suff := Prune(a, b);
    var slen0, slen1 := |a| - pref - suff, |b| - pref - suff;
    var am, bm := a[pref..pref + slen0], b[pref..pref + slen1];
    var fa := Middle(a, pref, slen0);
    var fb := Middle(b, pref, slen1);
    var cls, mem := Classify(fa, am, fb, bm);
    var d := new Differ(slen0);
    var k;
    k, reached := d.Stone(cls, slen0, mem, bound, am, bm);
    RowsTop(d.clist, d.klist[..], k, am, bm);
    assert am == a[pref..|a| - suff] && bm == b[pref..|b| - suff];
    VectorMatches(Chain(d.clist, d.klist[k]), a, b, pref, suff);
    js := Unravel(d.clist, d.klist[k], |a|, |b|, pref, suff, am, bm);
    total := pref + k + suff;
    if !reached {
      LongestWhole(a, b, pref, suff, k);
    } else {
      CrowdedWhole(a, b, pref, suff, bound);
    }
  }

  lemma CrowdedWhole(a: seq<int>, b: seq<int>, pref: nat, suff: nat, bound: nat)
    requires pref + suff <= |a| && pref + suff <= |b| && Crowded(a[pref..|a| - suff], b[pref..|b| - suff], bound)
    ensures Crowded(a, b, bound)
  {
    var am, bm := a[pref..|a| - suff], b[pref..|b| - suff];
    var i :| 0 <= i < |am| && multiset(bm)[am[i]] > bound;
    assert a[pref + i] == am[i];
    assert b == b[..pref] + bm + b[|b| - suff..];
  }

  lemma RowsTop(cl: seq<Cand>, c: seq<nat>, k: nat, a: seq<int>, b: seq<int>)
    requires Rows(cl, c, k, a, b)
    ensures k < |c| && Linked(cl) && c[k] < |cl| && |Chain(cl, c[k])| == k && Common(a, b, Chain(cl, c[k]))
  {
    hide Common, Chain;
  }

  /** Without collisions no match is dropped. */
  lemma {:induction false} CheckedAll<T>(js: seq<nat>, old0: seq<T>, new0: seq<T>, h: T -> int, n: nat)
    requires Matching(js, Hashes(old0, h), Hashes(new0, h)) && n <= |old0|
    ensures NoCollisions(old0, new0, h) ==> Checked(js, old0, new0, n) == js
  {
    if n > 0 {
      CheckedAll(js, old0, new0, h, n - 1);
    }
  }
}
