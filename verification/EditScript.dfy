/**
 Change records from a match vector (coreutils/diff.c, output): each says that lines a..b of the old
 file are replaced by lines c..d of the new one, counted from 1; either range may be empty.
 */
module EditScript {
  import opened MatchVector

  datatype Change = Change(a: nat, b: nat, c: nat, d: nat)

  predicate Proper(r: Change, n: nat, m: nat) {
    1 <= r.a <= r.b + 1 <= n + 1 && 1 <= r.c <= r.d + 1 <= m + 1 && (r.a <= r.b || r.c <= r.d)
  }

  /**
   The first p lines of the old file and the first q lines of the new one, divided into change records
   and equal stretches between them; two records are never adjacent.
   */
  ghost predicate Covers<T>(rs: seq<Change>, old0: seq<T>, new0: seq<T>, p: nat, q: nat)
    requires p <= |old0| && q <= |new0|
    decreases |rs|
  {
    if rs == [] then p == q && old0[..p] == new0[..q]
    else
      var r, front := rs[|rs| - 1], rs[..|rs| - 1];
      && Proper(r, |old0|, |new0|) && r.b <= p && r.d <= q && p - r.b == q - r.d && old0[r.b..p] == new0[r.d..q]
      && (front != [] ==> front[|front| - 1].b + 1 < r.a)
      && Covers(front, old0, new0, r.a - 1, r.c - 1)
  }

  /** The text that the records make of the first p lines of the old file. */
  ghost function Rewritten<T>(rs: seq<Change>, old0: seq<T>, new0: seq<T>, p: nat, q: nat): seq<T>
    requires p <= |old0| && q <= |new0| && Covers(rs, old0, new0, p, q)
    decreases |rs|
  {
    if rs == [] then old0[..p]
    else
      var r := rs[|rs| - 1];
      Rewritten(rs[..|rs| - 1], old0, new0, r.a - 1, r.c - 1) + new0[r.c - 1..r.d] + old0[r.b..p]
  }

  /** Records that cover both files rewrite the old file into the new one. */
  lemma {:induction false} RewritesAll<T>(rs: seq<Change>, old0: seq<T>, new0: seq<T>, p: nat, q: nat)
    requires p <= |old0| && q <= |new0| && Covers(rs, old0, new0, p, q)
    ensures Rewritten(rs, old0, new0, p, q) == new0[..q]
    decreases |rs|
  {
    if rs != [] {
      var r := rs[|rs| - 1];
      RewritesAll(rs[..|rs| - 1], old0, new0, r.a - 1, r.c - 1);
      assert new0[..q] == new0[..r.c - 1] + new0[r.c - 1..r.d] + new0[r.d..q];
    }
  }

  /** A matched line after the others. */
  lemma CoversMatch<T>(rs: seq<Change>, old0: seq<T>, new0: seq<T>, p: nat, q: nat)
    requires p < |old0| && q < |new0| && Covers(rs, old0, new0, p, q) && old0[p] == new0[q]
    ensures Covers(rs, old0, new0, p + 1, q + 1)
  {
    if rs != [] {
      var r := rs[|rs| - 1];
      assert old0[r.b..p + 1] == old0[r.b..p] + [old0[p]] && new0[r.d..q + 1] == new0[r.d..q] + [new0[q]];
    } else {
      assert old0[..p + 1] == old0[..p] + [old0[p]] && new0[..q + 1] == new0[..q] + [new0[q]];
    }
  }

  /** A change record after the others. */
  lemma CoversChange<T>(rs: seq<Change>, old0: seq<T>, new0: seq<T>, p: nat, q: nat, p': nat, q': nat)
    requires p <= p' <= |old0| && q <= q' <= |new0| && Covers(rs, old0, new0, p, q) && (p < p' || q < q')
    requires rs != [] ==> rs[|rs| - 1].b < p
    ensures Covers(rs + [Change(p + 1, p', q + 1, q')], old0, new0, p', q')
  {
    var rs' := rs + [Change(p + 1, p', q + 1, q')];
    assert rs'[..|rs'| - 1] == rs;
    assert old0[p'..p'] == [] && new0[q'..q'] == [];
  }

  /** Line k of the old file is taken out. */
  predicate TakenOut(rs: seq<Change>, k: nat) {
    exists t :: 0 <= t < |rs| && rs[t].a <= k <= rs[t].b
  }

  /** Line l of the new file is put in. */
  predicate PutIn(rs: seq<Change>, l: nat) {
    exists t :: 0 <= t < |rs| && rs[t].c <= l <= rs[t].d
  }

  /** Some of the first p lines of the old file is matched with line l. */
  predicate Target(js: seq<nat>, p: nat, l: nat)
    requires p < |js|
  {
    exists k :: 1 <= k <= p && js[k] == l
  }

  /** How many lines the records take out. */
  function Dels(rs: seq<Change>): int {
    if rs == [] then 0 else Dels(rs[..|rs| - 1]) + rs[|rs| - 1].b - rs[|rs| - 1].a + 1
  }

  /** How many lines the records put in. */
  function Adds(rs: seq<Change>): int {
    if rs == [] then 0 else Adds(rs[..|rs| - 1]) + rs[|rs| - 1].d - rs[|rs| - 1].c + 1
  }

  /** Of the first p and q lines, the records have exactly those that are not matched. */
  ghost predicate Divides(rs: seq<Change>, js: seq<nat>, p: nat, q: nat) {
    && p < |js| && (forall t :: 0 <= t < |rs| ==> rs[t].b <= p && rs[t].d <= q) && (forall k :: 1 <= k <= p ==> js[k] <= q)
    && (forall k :: 1 <= k <= p ==> (TakenOut(rs, k) <==> js[k] == 0))
    && (forall l :: 1 <= l <= q ==> (PutIn(rs, l) <==> !Target(js, p, l)))
    && Dels(rs) == p - Matched(js, p) && Adds(rs) == q - Matched(js, p)
  }

  lemma DividesMatch(rs: seq<Change>, js: seq<nat>, p: nat, q: nat)
    requires Divides(rs, js, p, q) && p + 1 < |js| && js[p + 1] == q + 1
    ensures Divides(rs, js, p + 1, q + 1)
  {
    forall l | 1 <= l <= q + 1
      ensures PutIn(rs, l) <==> !Target(js, p + 1, l)
    {
      TargetNext(js, p, l);
    }
  }

  lemma TargetNext(js: seq<nat>, p: nat, l: nat)
    requires p + 1 < |js|
    ensures Target(js, p + 1, l) <==> Target(js, p, l) || js[p + 1] == l
  {
    if js[p + 1] == l {
      assert Target(js, p + 1, l);
    }
  }

  /** Lines that are not matched do not change the targets or the count. */
  lemma {:induction false} NoTargets(js: seq<nat>, p: nat, p': nat, l: nat)
    requires p <= p' < |js| && 1 <= l && forall k :: p < k <= p' ==> js[k] == 0
    ensures (Target(js, p', l) <==> Target(js, p, l)) && Matched(js, p') == Matched(js, p)
    decreases p'
  {
    if p < p' {
      NoTargets(js, p, p' - 1, l);
      TargetNext(js, p' - 1, l);
    }
  }

  lemma DividesChange(rs: seq<Change>, js: seq<nat>, p: nat, q: nat, p': nat, q': nat)
    requires Divides(rs, js, p, q) && p <= p' < |js| && q <= q' && forall k :: p < k <= p' ==> js[k] == 0
    ensures Divides(rs + [Change(p + 1, p', q + 1, q')], js, p', q')
  {
    hide Matched, Dels, Adds;
    var r := Change(p + 1, p', q + 1, q');
    var more := rs + [r];
    NoTargets(js, p, p', 1);
    forall k | 1 <= k <= p'
      ensures TakenOut(more, k) <==> js[k] == 0
    {
      OneMore(rs, r, k);
    }
    forall l | 1 <= l <= q'
      ensures PutIn(more, l) <==> !Target(js, p', l)
    {
      OneMore(rs, r, l);
      NoTargets(js, p, p', l);
    }
    SumsMore(rs, r);
  }

  lemma OneMore(rs: seq<Change>, r: Change, k: nat)
    ensures TakenOut(rs + [r], k) <==> TakenOut(rs, k) || r.a <= k <= r.b
    ensures PutIn(rs + [r], k) <==> PutIn(rs, k) || r.c <= k <= r.d
  {
    var more := rs + [r];
    assert more[|rs|] == r;
    if t :| 0 <= t < |rs| && rs[t].a <= k <= rs[t].b {
      assert more[t] == rs[t];
    }
    if t :| 0 <= t < |rs| && rs[t].c <= k <= rs[t].d {
      assert more[t] == rs[t];
    }
  }

  lemma SumsMore(rs: seq<Change>, r: Change)
    ensures Dels(rs + [r]) == Dels(rs) + r.b - r.a + 1 && Adds(rs + [r]) == Adds(rs) + r.d - r.c + 1
  {
    assert (rs + [r])[..|rs|] == rs;
  }

  /** The vector from line i on is still that of the matching; before it, the lines are covered. */
  ghost predicate Outputting<T>(js: seq<nat>, js0: seq<nat>, old0: seq<T>, new0: seq<T>, rs: seq<Change>, i: nat) {
    && |js| == |js0| == |old0| + 2 && 1 <= i <= |old0| + 1 && Matching(js0, old0, new0)
    && (forall k :: i <= k <= |old0| ==> js[k] == js0[k]) && js[|old0| + 1] == |new0| + 1
    && js[i - 1] <= |new0| && Covers(rs, old0, new0, i - 1, js[i - 1]) && Divides(rs, js0, i - 1, js[i - 1])
    && (forall k :: i <= k <= |old0| && js[k] != 0 ==> js[i - 1] < js[k])
  }

  /** If the last record ends just before line i, line i is matched right after it. */
  ghost predicate Spaced(js: seq<nat>, n: nat, rs: seq<Change>, i: nat)
    requires 1 <= i && n + 1 < |js|
  {
    rs != [] && rs[|rs| - 1].b >= i - 1 && i <= n ==> js[i] == js[i - 1] + 1
  }

  /** A line that is matched in step is passed over. */
  lemma PassMatch<T>(js: seq<nat>, js0: seq<nat>, old0: seq<T>, new0: seq<T>, rs: seq<Change>, i: nat)
    requires Outputting(js, js0, old0, new0, rs, i) && i <= |old0| && js[i] == js[i - 1] + 1
    ensures Outputting(js, js0, old0, new0, rs, i + 1)
  {
    hide Divides, Matching;
    MatchedLine(js0, old0, new0, i);
    CoversMatch(rs, old0, new0, i - 1, js[i - 1]);
    DividesMatch(rs, js0, i - 1, js[i - 1]);
  }

  lemma MatchedLine<T>(js: seq<nat>, old0: seq<T>, new0: seq<T>, i: nat)
    requires Matching(js, old0, new0) && 1 <= i <= |old0| && js[i] != 0
    ensures js[i] <= |new0| && old0[i - 1] == new0[js[i] - 1]
    ensures forall k :: i < k <= |old0| && js[k] != 0 ==> js[i] < js[k]
  {
  }

  /** Unmatched old lines i..i1 and the new lines up to the next match make a record. */
  lemma PassChange<T>(js: seq<nat>, js0: seq<nat>, old0: seq<T>, new0: seq<T>, rs: seq<Change>, i: nat, i1: nat)
    requires Outputting(js, js0, old0, new0, rs, i) && i - 1 <= i1 <= |old0|
    requires (forall k :: i <= k <= i1 ==> js[k] == 0) && (i1 < |old0| ==> js[i1 + 1] != 0)
    requires rs != [] ==> rs[|rs| - 1].b < i - 1
    ensures var j01 := js[i1 + 1] - 1;
            && js[i - 1] <= j01 <= |new0|
            && Outputting(js[i1 := j01], js0, old0, new0, With(rs, Change(i, i1, js[i - 1] + 1, j01)), i1 + 1)
  {
    hide Covers, Matching, Divides, With;
    var j01 := js[i1 + 1] - 1;
    MatchRange(js0, old0, new0, i1 + 1);
    AddRecord(rs, js0, old0, new0, i - 1, js[i - 1], i1, j01);
  }

  lemma AddRecord<T>(rs: seq<Change>, js: seq<nat>, old0: seq<T>, new0: seq<T>, p: nat, q: nat, p': nat, q': nat)
    requires p <= p' <= |old0| && p' < |js| && q <= q' <= |new0| && (rs != [] ==> rs[|rs| - 1].b < p)
    requires Covers(rs, old0, new0, p, q) && Divides(rs, js, p, q) && forall k :: p < k <= p' ==> js[k] == 0
    ensures var more := With(rs, Change(p + 1, p', q + 1, q'));
            Covers(more, old0, new0, p', q') && Divides(more, js, p', q')
  {
    hide Covers, Divides;
    if p < p' || q < q' {
      DividesChange(rs, js, p, q, p', q');
      CoversChange(rs, old0, new0, p, q, p', q');
    }
  }

  /** change does nothing for an empty record. */
  function With(rs: seq<Change>, r: Change): seq<Change> {
    if r.a > r.b && r.c > r.d then rs else rs + [r]
  }

  lemma MatchRange<T>(js: seq<nat>, old0: seq<T>, new0: seq<T>, i: nat)
    requires Matching(js, old0, new0) && 1 <= i
    ensures i <= |old0| ==> js[i] <= |new0|
    ensures i <= |old0| && js[i] != 0 ==> forall k :: i < k <= |old0| && js[k] != 0 ==> js[i] < js[k]
  {
  }

  /** One turn of the loop of output: the next record. */
  method NextChange<T>(js: array<nat>, start: nat, m: nat,
                       ghost js0: seq<nat>, ghost old0: seq<T>, ghost new0: seq<T>, ghost rs: seq<Change>)
    returns (i0: nat, i1: nat, j00: nat, j01: nat)
    requires m == |old0| && Outputting(js[..], js0, old0, new0, rs, start) && start <= m && Spaced(js[..], m, rs, start)
    modifies js
    ensures 1 <= i0 <= i1 + 1 && i1 <= m && 1 <= j00 <= j01 + 1 <= |new0| + 1
    ensures (rs != [] ==> rs[|rs| - 1].b < i0 - 1) && js[i1] == j01 && (i1 == m ==> j01 == |new0|)
    ensures Outputting(js[..], js0, old0, new0, With(rs, Change(i0, i1, j00, j01)), i1 + 1)
    ensures Spaced(js[..], m, With(rs, Change(i0, i1, j00, j01)), i1 + 1)
    ensures start <= i1 + 1 && (i1 < m ==> js[i1 + 1] == js[i1] + 1)
    ensures start == i1 + 1 ==> old(js[start]) != old(js[start - 1]) + 1
  {
    hide Outputting;
    ghost var was := js[..];
    i0 := start;
    OutputFacts(was, js0, old0, new0, rs, start);
    while i0 <= m && js[i0] == js[i0 - 1] + 1
      invariant start <= i0 <= m + 1 && js[..] == was && Outputting(was, js0, old0, new0, rs, i0)
      invariant i0 == start || (rs != [] ==> rs[|rs| - 1].b < i0 - 1)
    {
      PassMatch(was, js0, old0, new0, rs, i0);
      OutputFacts(was, js0, old0, new0, rs, i0);
      i0 := i0 + 1;
    }
    j00 := js[i0 - 1] + 1;
    i1 := i0 - 1;
    while i1 < m && js[i1 + 1] == 0
      invariant i0 - 1 <= i1 <= m && js[..] == was && forall k :: i0 <= k <= i1 ==> was[k] == 0
    {
      i1 := i1 + 1;
    }
    OutputFacts(was, js0, old0, new0, rs, i0);
    PassChange(was, js0, old0, new0, rs, i0, i1);
    j01 := js[i1 + 1] - 1;
    js[i1] := j01;
    assert js[..] == was[i1 := j01];
  }

  lemma OutputFacts<T>(js: seq<nat>, js0: seq<nat>, old0: seq<T>, new0: seq<T>, rs: seq<Change>, i: nat)
    requires Outputting(js, js0, old0, new0, rs, i)
    ensures |js| == |old0| + 2 && 1 <= i <= |old0| + 1 && js[|old0| + 1] == |new0| + 1 && js[i - 1] <= |new0|
    ensures rs != [] ==> rs[|rs| - 1].b <= i - 1
  {
    hide Matching, Divides;
  }
}
