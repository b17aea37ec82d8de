/**
 A whole run of diff on two files (coreutils/diff.c, diffreg and output): what it prints is right, and
 takes out and puts in no more lines than necessary.
 */
module DiffRun {
  import opened Lcs
  import opened Stone
  import opened MatchVector
  import opened EditScript
  import opened Unified

  /** Any edit script: outside the lines that it takes out and puts in, the files are equal. */
  ghost predicate Edits<T>(rs: seq<Change>, old0: seq<T>, new0: seq<T>, p: nat, q: nat)
    decreases |rs|
  {
    && p <= |old0| && q <= |new0|
    && if rs == [] then p == q && old0[..p] == new0[..q]
       else
         var r := rs[|rs| - 1];
         && 1 <= r.a <= r.b + 1 <= p + 1 && 1 <= r.c <= r.d + 1 <= q + 1
         && p - r.b == q - r.d && old0[r.b..p] == new0[r.d..q]
         && Edits(rs[..|rs| - 1], old0, new0, r.a - 1, r.c - 1)
  }

  /** No edit script takes out or puts in fewer lines. */
  ghost predicate Minimal<T>(rs: seq<Change>, old0: seq<T>, new0: seq<T>) {
    && Edits(rs, old0, new0, |old0|, |new0|)
    && forall other: seq<Change> :: Edits(other, old0, new0, |old0|, |new0|) ==>
         Dels(rs) <= Dels(other) && Adds(rs) <= Adds(other)
  }

  lemma {:induction false} CoversEdits<T>(rs: seq<Change>, old0: seq<T>, new0: seq<T>, p: nat, q: nat)
    requires p <= |old0| && q <= |new0| && Covers(rs, old0, new0, p, q)
    ensures Edits(rs, old0, new0, p, q)
    decreases |rs|
  {
    if rs != [] {
      var r := rs[|rs| - 1];
      CoversEdits(rs[..|rs| - 1], old0, new0, r.a - 1, r.c - 1);
    }
  }

  lemma CommonOneMore(a: seq<int>, b: seq<int>, ps: seq<Pair>, x: nat, y: nat)
    requires Common(a, b, ps) && 1 <= x <= |a| && 1 <= y <= |b| && a[x - 1] == b[y - 1]
    requires forall i :: 0 <= i < |ps| ==> ps[i].x < x && ps[i].y < y
    ensures Common(a, b, ps + [Pair(x, y)])
  {
  }

  /** The lines that a script keeps are a common subsequence. */
  lemma {:induction false} KeptLines<T>(rs: seq<Change>, old0: seq<T>, new0: seq<T>, p: nat, q: nat, h: T -> int)
    returns (ps: seq<Pair>)
    requires Edits(rs, old0, new0, p, q)
    ensures Common(Hashes(old0, h), Hashes(new0, h), ps) && |ps| == p - Dels(rs) == q - Adds(rs)
    ensures forall i :: 0 <= i < |ps| ==> ps[i].x <= p && ps[i].y <= q
    decreases |rs|, p
  {
    hide Common;
    if p > if rs == [] then 0 else rs[|rs| - 1].b {
      ShorterStretch(rs, old0, new0, p, q);
      ps := KeptLines(rs, old0, new0, p - 1, q - 1, h);
      CommonOneMore(Hashes(old0, h), Hashes(new0, h), ps, p, q);
      ps := ps + [Pair(p, q)];
    } else if rs == [] {
      NoPairs(Hashes(old0, h), Hashes(new0, h));
      ps := [];
    } else {
      var r := rs[|rs| - 1];
      ps := KeptLines(rs[..|rs| - 1], old0, new0, r.a - 1, r.c - 1, h);
    }
  }

  lemma NoPairs(a: seq<int>, b: seq<int>)
    ensures Common(a, b, [])
  {
  }

  lemma ShorterStretch<T>(rs: seq<Change>, old0: seq<T>, new0: seq<T>, p: nat, q: nat)
    requires Edits(rs, old0, new0, p, q) && p > if rs == [] then 0 else rs[|rs| - 1].b
    ensures q > 0 && Edits(rs, old0, new0, p - 1, q - 1) && old0[p - 1] == new0[q - 1]
  {
    if rs == [] {
      SameStretch(old0, new0, 0, 0, p, q);
    } else {
      SameStretch(old0, new0, rs[|rs| - 1].b, rs[|rs| - 1].d, p, q);
    }
  }

  lemma SameStretch<T>(old0: seq<T>, new0: seq<T>, b: nat, d: nat, p: nat, q: nat)
    requires b < p <= |old0| && d <= q <= |new0| && p - b == q - d && old0[b..p] == new0[d..q]
    ensures old0[b..p - 1] == new0[d..q - 1] && old0[p - 1] == new0[q - 1]
  {
    var k := p - 1 - b;
    assert old0[b..p][k] == new0[d..q][k];
    assert old0[b..p - 1] == old0[b..p][..k];
    assert new0[d..q - 1] == new0[d..q][..k];
  }

  /** Records for the lines that a longest matching leaves are minimal. */
  lemma LongestIsMinimal<T>(rs: seq<Change>, js: seq<nat>, old0: seq<T>, new0: seq<T>, h: T -> int, total: nat)
    requires Covers(rs, old0, new0, |old0|, |new0|) && Divides(rs, js, |old0|, |new0|) && Matched(js, |old0|) == total
    requires Longest(Hashes(old0, h), Hashes(new0, h), total)
    ensures Minimal(rs, old0, new0)
  {
    hide Covers, Edits, Common, Matched, Dels, Adds;
    CoversEdits(rs, old0, new0, |old0|, |new0|);
    forall other: seq<Change> | Edits(other, old0, new0, |old0|, |new0|)
      ensures Dels(rs) <= Dels(other) && Adds(rs) <= Adds(other)
    {
      var ps := KeptLines(other, old0, new0, |old0|, |new0|, h);
    }
  }

  /** Equal files need no changes. */
  lemma NothingIsMinimal<T>(old0: seq<T>)
    ensures Minimal([], old0, old0)
  {
    forall other: seq<Change> | Edits(other, old0, old0, |old0|, |old0|)
      ensures 0 <= Dels(other) && 0 <= Adds(other)
    {
      var ps := KeptLines(other, old0, old0, |old0|, |old0|, _ => 1);
      CommonSize(Hashes(old0, _ => 1), Hashes(old0, _ => 1), ps);
    }
  }

  /** The printed line has mark k in front. */
  predicate Bears<T>(l: PLine<T>, k: Kind) {
    l.Body? && match k case Keep => l.line.Same? case Out => l.line.Del? case In => l.line.Add?
  }

  /** How many of the printed lines have mark k in front. */
  function Bearing<T>(text: seq<PLine<T>>, k: Kind): nat {
    if text == [] then 0 else Bearing(text[..|text| - 1], k) + if Bears(text[|text| - 1], k) then 1 else 0
  }

  lemma {:induction false} BearingAppend<T>(s: seq<PLine<T>>, t: seq<PLine<T>>, k: Kind)
    ensures Bearing(s + t, k) == Bearing(s, k) + Bearing(t, k)
    decreases |t|
  {
    if t == [] {
      assert s + t == s;
    } else {
      BearingAppend(s, t[..|t| - 1], k);
      assert (s + t)[..|s + t| - 1] == s + t[..|t| - 1];
    }
  }

  lemma BodiesAppend<T>(s: seq<HLine<T>>, t: seq<HLine<T>>, k: Kind)
    ensures Bearing(Bodies(s + t), k) == Bearing(Bodies(s), k) + Bearing(Bodies(t), k)
  {
    BearingAppend(Bodies(s), Bodies(t), k);
    assert Bodies(s + t) == Bodies(s) + Bodies(t);
  }

  lemma {:induction false} LinesBear<T>(f: seq<T>, a: nat, b: nat, mark: Kind, k: Kind)
    requires 1 <= a && b <= |f|
    ensures Bearing(Bodies(Lines(f, a, b, mark)), k) == if mark == k && a <= b then b - a + 1 else 0
    decreases b
  {
    if a <= b {
      LinesBear(f, a, b - 1, mark, k);
      var t := Bodies(Lines(f, a, b, mark));
      assert t[..|t| - 1] == Bodies(Lines(f, a, b - 1, mark)) && t[|t| - 1] == Body(Marked(mark, f[b - 1]));
    }
  }

  /** The lines of a change bear exactly its marks. */
  lemma PieceBears<T>(r: Change, old0: seq<T>, new0: seq<T>, lowa: nat, lowc: nat)
    requires Proper(r, |old0|, |new0|) && 1 <= lowa && 1 <= lowc
    ensures Bearing(Bodies(Piece(r, old0, new0, lowa, lowc)), Out) == r.b - r.a + 1
    ensures Bearing(Bodies(Piece(r, old0, new0, lowa, lowc)), In) == r.d - r.c + 1
  {
    hide Bearing, Lines, Bodies;
    forall k: Kind
      ensures Bearing(Bodies(Piece(r, old0, new0, lowa, lowc)), k)
           == Bearing(Bodies(Front(r, old0, new0, lowa, lowc)), k) + if k == In then r.d - r.c + 1 else 0
    {
      BodiesAppend(Front(r, old0, new0, lowa, lowc), if r.c <= r.d then Lines(new0, r.c, r.d, In) else [], k);
      LinesBear(new0, r.c, r.d, In, k);
      NoneBear<T>(k);
    }
    FrontBears(r, old0, new0, lowa, lowc, Out);
    FrontBears(r, old0, new0, lowa, lowc, In);
  }

  lemma NoneBear<T>(k: Kind)
    ensures Bearing(Bodies<T>([]), k) == 0
  {
  }

  lemma FrontBears<T>(r: Change, old0: seq<T>, new0: seq<T>, lowa: nat, lowc: nat, k: Kind)
    requires Proper(r, |old0|, |new0|) && 1 <= lowa && 1 <= lowc && k != Keep
    ensures Bearing(Bodies(Front(r, old0, new0, lowa, lowc)), k) == if k == Out then r.b - r.a + 1 else 0
  {
    hide Bearing, Lines, Bodies;
    if r.a <= r.b {
      BodiesAppend(Lines(old0, lowa, r.a - 1, Keep), Lines(old0, r.a, r.b, Out), k);
      LinesBear(old0, lowa, r.a - 1, Keep, k);
      LinesBear(old0, r.a, r.b, Out, k);
    } else {
      LinesBear(new0, lowc, r.c - 1, Keep, k);
    }
  }

  lemma {:induction false} PiecesBear<T>(vec: seq<Change>, i: nat, old0: seq<T>, new0: seq<T>, lowa: nat, lowc: nat)
    requires i <= |vec| && 1 <= lowa && 1 <= lowc && forall j :: 0 <= j < |vec| ==> Proper(vec[j], |old0|, |new0|)
    ensures Bearing(Bodies(Pieces(vec, i, old0, new0, lowa, lowc)), Out) == Dels(vec[..i])
    ensures Bearing(Bodies(Pieces(vec, i, old0, new0, lowa, lowc)), In) == Adds(vec[..i])
  {
    hide Bearing, Bodies, Piece;
    if i == 0 {
      NoneBear<T>(Out);
      NoneBear<T>(In);
    } else {
      PiecesBear(vec, i - 1, old0, new0, lowa, lowc);
      var p := Piece(vec[i - 1], old0, new0, LowA(vec, i - 1, lowa), LowC(vec, i - 1, lowc));
      BodiesAppend(Pieces(vec, i - 1, old0, new0, lowa, lowc), p, Out);
      BodiesAppend(Pieces(vec, i - 1, old0, new0, lowa, lowc), p, In);
      PieceBears(vec[i - 1], old0, new0, LowA(vec, i - 1, lowa), LowC(vec, i - 1, lowc));
      assert vec[..i][..i - 1] == vec[..i - 1];
    }
  }

  lemma HunkBears<T>(vec: seq<Change>, old0: seq<T>, new0: seq<T>, context: nat)
    requires vec != [] && forall i :: 0 <= i < |vec| ==> Proper(vec[i], |old0|, |new0|)
    ensures Bearing(HunkText(HunkOf(vec, old0, new0, context)), Out) == Dels(vec)
    ensures Bearing(HunkText(HunkOf(vec, old0, new0, context)), In) == Adds(vec)
  {
    hide Bearing, Bodies, Pieces, Lines, Dels, Adds, HunkText, HunkOf;
    var h := HunkOf(vec, old0, new0, context);
    HunkParts(vec, old0, new0, context);
    PiecesBear(vec, |vec|, old0, new0, h.lowa, h.lowc);
    assert vec[..|vec|] == vec;
    TextBears(h, Pieces(vec, |vec|, old0, new0, h.lowa, h.lowc), new0, vec[|vec| - 1].d + 1, Out);
    TextBears(h, Pieces(vec, |vec|, old0, new0, h.lowa, h.lowc), new0, vec[|vec| - 1].d + 1, In);
  }

  lemma HunkParts<T>(vec: seq<Change>, old0: seq<T>, new0: seq<T>, context: nat)
    requires vec != [] && forall i :: 0 <= i < |vec| ==> Proper(vec[i], |old0|, |new0|)
    ensures var h := HunkOf(vec, old0, new0, context);
      && 1 <= h.lowa && 1 <= h.lowc && h.upd <= |new0|
      && h.lines == Pieces(vec, |vec|, old0, new0, h.lowa, h.lowc) + Lines(new0, vec[|vec| - 1].d + 1, h.upd, Keep)
  {
    hide Pieces, Lines;
  }

  /** The header and the kept lines at the end bear no such marks. */
  lemma TextBears<T>(h: Hunk<T>, ls: seq<HLine<T>>, f: seq<T>, a: nat, k: Kind)
    requires 1 <= a && h.upd <= |f| && h.lines == ls + Lines(f, a, h.upd, Keep) && k != Keep
    ensures Bearing(HunkText(h), k) == Bearing(Bodies(ls), k)
  {
    hide Bearing, Bodies, Lines;
    var head: PLine<T> := Head(UniRange(h.lowa, h.upb), UniRange(h.lowc, h.upd));
    LinesBear(f, a, h.upd, Keep, k);
    BodiesAppend(ls, Lines(f, a, h.upd, Keep), k);
    BearingAppend([head], Bodies(h.lines), k);
    HeadBears(head, k);
  }

  lemma HeadBears<T>(l: PLine<T>, k: Kind)
    requires l.Head?
    ensures Bearing([l], k) == 0
  {
  }

  lemma {:induction false} SumsAppend(a: seq<Change>, b: seq<Change>)
    ensures Dels(a + b) == Dels(a) + Dels(b) && Adds(a + b) == Adds(a) + Adds(b)
    decreases |b|
  {
    if b == [] {
      assert a + b == a;
    } else {
      SumsAppend(a, b[..|b| - 1]);
      assert (a + b)[..|a + b| - 1] == a + b[..|b| - 1];
    }
  }

  /** What is printed for cut records has one marked line for every line that they take out or put in. */
  lemma {:induction false} CutBears<T>(groups: seq<seq<Change>>, hs: seq<Hunk<T>>, rs: seq<Change>,
                                       old0: seq<T>, new0: seq<T>, context: nat)
    requires Cut(groups, hs, rs, old0, new0, context)
    ensures Bearing(AllText(hs), Out) == Dels(rs) && Bearing(AllText(hs), In) == Adds(rs)
    decreases |hs|
  {
    hide Bearing, HunkText, HunkOf, Dels, Adds;
    if hs == [] {
      NoneBear<T>(Out);
      NoneBear<T>(In);
      assert Bodies<T>([]) == [] && rs == [];
      NoSums();
    } else {
      var n := |hs| - 1;
      CutFront(groups, hs, rs, old0, new0, context);
      CutBears(groups[..n], hs[..n], AllOf(groups[..n]), old0, new0, context);
      HunkBears(groups[n], old0, new0, context);
      BearingAppend(AllText(hs[..n]), HunkText(hs[n]), Out);
      BearingAppend(AllText(hs[..n]), HunkText(hs[n]), In);
      SumsAppend(AllOf(groups[..n]), groups[n]);
    }
  }

  lemma NoSums()
    ensures Dels([]) == 0 && Adds([]) == 0
  {
  }

  lemma CutFront<T>(groups: seq<seq<Change>>, hs: seq<Hunk<T>>, rs: seq<Change>,
                    old0: seq<T>, new0: seq<T>, context: nat)
    requires Cut(groups, hs, rs, old0, new0, context) && hs != []
    ensures Cut(groups[..|hs| - 1], hs[..|hs| - 1], AllOf(groups[..|hs| - 1]), old0, new0, context)
  {
    hide HunkOf, Near, Framed;
    var front := groups[..|hs| - 1];
    forall i | 0 < i < |front|
      ensures Apart(front, i, context)
    {
      assert Apart(groups, i, context);
    }
  }

  /** What a run of diff leaves behind: the matching, the records, their groups and their hunks. */
  datatype Run<T> = Run(js: seq<nat>, records: seq<Change>, groups: seq<seq<Change>>, hunks: seq<Hunk<T>>)

  /**
   The run turns old0 into new0: the records have exactly the lines that the matching leaves, every
   group of near records is one hunk, and the hunks lead from one file to the other.
   */
  ghost predicate Sound<T>(r: Run<T>, old0: seq<T>, new0: seq<T>, context: nat) {
    && Matching(r.js, old0, new0) && Divides(r.records, r.js, |old0|, |new0|)
    && Covers(r.records, old0, new0, |old0|, |new0|) && Cut(r.groups, r.hunks, r.records, old0, new0, context)
    && HunksTo(r.hunks, old0, new0, |old0|, |new0|) && AllWide(r.hunks, context, |old0|, |new0|)
    && AllHeaded(r.hunks, old0, new0)
  }

  /**
   diffreg, for any two files.  Equal files print nothing.  The printed text is that of a sound run, with
   as many marked lines as its records take out and put in.  Unless some hash value occurs more often than
   bound, and without collisions, no edit script takes out or puts in fewer lines.
   */
  method Diff<T(==)>(old0: seq<T>, new0: seq<T>, context: nat, h: T -> int, bound: nat)
    returns (out: seq<PLine<T>>, ghost run: Run<T>)
    requires forall t :: h(t) != 0
    ensures out == AllText(run.hunks) && Sound(run, old0, new0, context) && (out == [] <==> old0 == new0)
    ensures Bearing(out, Out) == Dels(run.records) && Bearing(out, In) == Adds(run.records)
    ensures !Crowded(Hashes(old0, h), Hashes(new0, h), bound) && NoCollisions(old0, new0, h) ==>
              Minimal(run.records, old0, new0)
  {
    hide AllHeaded, Bearing, Covers, Divides, Matching, Cut, HunksTo, AllWide, AllText, Minimal, Crowded, Longest, NoCollisions, Cutting;
    if old0 == new0 {
      run := SameRun(old0, context);
      CutBears(run.groups, run.hunks, run.records, old0, new0, context);
      NoText<T>();
      return [], run;
    }
    var js, total, reached := Correspond(old0, new0, h, bound);
    ghost var js0 := js[..];
    var printer := new Printer(old0, new0, context);
    printer.Output(js);
    out := printer.out;
    run := Run(js0, printer.records, printer.groups, printer.hunks);
    CutBears(run.groups, run.hunks, run.records, old0, new0, context);
    TextNeeded(run.hunks, old0, new0);
    if !Crowded(Hashes(old0, h), Hashes(new0, h), bound) && NoCollisions(old0, new0, h) {
      LongestIsMinimal(run.records, js0, old0, new0, h, total);
    }
  }

  lemma NoText<T>()
    ensures AllText<T>([]) == []
  {
  }

  lemma TextNeeded<T>(hs: seq<Hunk<T>>, old0: seq<T>, new0: seq<T>)
    requires HunksTo(hs, old0, new0, |old0|, |new0|) && old0 != new0
    ensures AllText(hs) != []
  {
    assert old0[..|old0|] == old0 && new0[..|new0|] == new0;
  }

  /** The run for equal files, which are not read any further. */
  lemma SameRun<T>(old0: seq<T>, context: nat) returns (run: Run<T>)
    ensures Sound(run, old0, old0, context) && run.hunks == [] && run.records == [] && Minimal(run.records, old0, old0)
  {
    run := Run(seq(|old0| + 2, i => i), [], [], []);
    NothingIsMinimal(old0);
    AllMatched(run.js, |old0|);
  }

  lemma {:induction false} AllMatched(js: seq<nat>, p: nat)
    requires p < |js| && forall i :: 0 <= i < |js| ==> js[i] == i
    ensures Matched(js, p) == p && forall l :: 1 <= l <= p ==> Target(js, p, l)
  {
    if p > 0 {
      AllMatched(js, p - 1);
      assert js[p] == p;
      forall l | 1 <= l <= p
        ensures Target(js, p, l)
      {
        TargetNext(js, p - 1, l);
      }
    }
  }
}
