/**
 Unified hunks from change records (coreutils/diff.c, change, dump_unified_vec and output): nearby
 changes share a hunk, with context lines around and between them.
 */
module Unified {
  import opened MatchVector
  import opened EditScript

  /** A line of a hunk: kept, taken out or put in. */
  datatype HLine<T> = Same(text: T) | Del(text: T) | Add(text: T)

  /** A range of lines as uni_range prints it: without a count if it is one line. */
  datatype Printed = One(line: nat) | Many(line: nat, count: nat)

  datatype PLine<T> = Head(old0: Printed, new0: Printed) | Body(line: HLine<T>)

  /** How many lines a printed range has. */
  function Counted(p: Printed): nat {
    match p
    case One(_) => 1
    case Many(_, n) => n
  }

  function UniRange(a: nat, b: nat): Printed {
    if a < b then Many(a, b - a + 1) else if a == b then One(b) else Many(b, 0)
  }

  /** The lines of the old file in a hunk. */
  function OldSide<T>(ls: seq<HLine<T>>): seq<T> {
    if ls == [] then []
    else if ls[|ls| - 1].Add? then OldSide(ls[..|ls| - 1])
    else OldSide(ls[..|ls| - 1]) + [ls[|ls| - 1].text]
  }

  /** The lines of the new file in a hunk. */
  function NewSide<T>(ls: seq<HLine<T>>): seq<T> {
    if ls == [] then []
    else if ls[|ls| - 1].Del? then NewSide(ls[..|ls| - 1])
    else NewSide(ls[..|ls| - 1]) + [ls[|ls| - 1].text]
  }

  lemma {:induction false} OldAppend<T>(a: seq<HLine<T>>, b: seq<HLine<T>>)
    ensures OldSide(a + b) == OldSide(a) + OldSide(b)
    decreases |b|
  {
    if b == [] {
      assert a + b == a;
    } else {
      var n := |b| - 1;
      OldAppend(a, b[..n]);
      assert (a + b)[..|a| + n] == a + b[..n] && (a + b)[|a| + n] == b[n];
    }
  }

  lemma {:induction false} NewAppend<T>(a: seq<HLine<T>>, b: seq<HLine<T>>)
    ensures NewSide(a + b) == NewSide(a) + NewSide(b)
    decreases |b|
  {
    if b == [] {
      assert a + b == a;
    } else {
      var n := |b| - 1;
      NewAppend(a, b[..n]);
      assert (a + b)[..|a| + n] == a + b[..n] && (a + b)[|a| + n] == b[n];
    }
  }

  lemma SidesAppend<T>(a: seq<HLine<T>>, b: seq<HLine<T>>)
    ensures OldSide(a + b) == OldSide(a) + OldSide(b) && NewSide(a + b) == NewSide(a) + NewSide(b)
  {
    OldAppend(a, b);
    NewAppend(a, b);
  }

  datatype Kind = Keep | Out | In

  function Marked<T>(k: Kind, t: T): HLine<T> {
    match k
    case Keep => Same(t)
    case Out => Del(t)
    case In => Add(t)
  }

  /** Lines a..b of a file with a mark in front, as fetch prints them; none if a > b. */
  function Lines<T>(f: seq<T>, a: nat, b: nat, k: Kind): (r: seq<HLine<T>>)
    requires 1 <= a && b <= |f|
    ensures |r| == if a > b then 0 else b - a + 1
  {
    if a > b then [] else seq(b - a + 1, i requires 0 <= i <= b - a => Marked(k, f[a - 1 + i]))
  }

  lemma LinesSnoc<T>(f: seq<T>, a: nat, b: nat, k: Kind)
    requires 1 <= a <= b <= |f|
    ensures Lines(f, a, b, k) == Lines(f, a, b - 1, k) + [Marked(k, f[b - 1])]
  {
  }

  lemma OldSnoc<T>(ls: seq<HLine<T>>, l: HLine<T>)
    ensures OldSide(ls + [l]) == if l.Add? then OldSide(ls) else OldSide(ls) + [l.text]
    ensures NewSide(ls + [l]) == if l.Del? then NewSide(ls) else NewSide(ls) + [l.text]
  {
    assert (ls + [l])[..|ls|] == ls;
  }

  lemma {:induction false} SidesOfLines<T>(f: seq<T>, a: nat, b: nat, k: Kind)
    requires 1 <= a <= b + 1 && b <= |f|
    ensures OldSide(Lines(f, a, b, k)) == if k == In then [] else f[a - 1..b]
    ensures NewSide(Lines(f, a, b, k)) == if k == Out then [] else f[a - 1..b]
    decreases b
  {
    hide OldSide, NewSide, Lines;
    if a <= b {
      SidesOfLines(f, a, b - 1, k);
      LinesSnoc(f, a, b, k);
      OldSnoc(Lines(f, a, b - 1, k), Marked(k, f[b - 1]));
      assert f[a - 1..b] == f[a - 1..b - 1] + [f[b - 1]];
    } else {
      NoSides<T>();
      assert Lines(f, a, b, k) == [];
    }
  }

  /** What dump_unified_vec prints for one change, from lines lowa and lowc on. */
  function Piece<T>(r: Change, old0: seq<T>, new0: seq<T>, lowa: nat, lowc: nat): seq<HLine<T>>
    requires Proper(r, |old0|, |new0|) && 1 <= lowa && 1 <= lowc
  {
    Front(r, old0, new0, lowa, lowc) + (if r.c <= r.d then Lines(new0, r.c, r.d, In) else [])
  }

  function Front<T>(r: Change, old0: seq<T>, new0: seq<T>, lowa: nat, lowc: nat): seq<HLine<T>>
    requires Proper(r, |old0|, |new0|) && 1 <= lowa && 1 <= lowc
  {
    if r.a <= r.b then Lines(old0, lowa, r.a - 1, Keep) + Lines(old0, r.a, r.b, Out)
    else Lines(new0, lowc, r.c - 1, Keep)
  }

  /** Old and new files agree over the stretch between two places. */
  ghost predicate Agree<T>(old0: seq<T>, new0: seq<T>, p: nat, q: nat, p': nat, q': nat) {
    p <= p' <= |old0| && q <= q' <= |new0| && p' - p == q' - q && old0[p..p'] == new0[q..q']
  }

  lemma PieceSides<T>(r: Change, old0: seq<T>, new0: seq<T>, lowa: nat, lowc: nat)
    requires Proper(r, |old0|, |new0|) && 1 <= lowa <= r.a && 1 <= lowc <= r.c
    requires Agree(old0, new0, lowa - 1, lowc - 1, r.a - 1, r.c - 1)
    ensures OldSide(Piece(r, old0, new0, lowa, lowc)) == old0[lowa - 1..r.b]
    ensures NewSide(Piece(r, old0, new0, lowa, lowc)) == new0[lowc - 1..r.d]
  {
    hide OldSide, NewSide, Lines, Front;
    FrontSides(r, old0, new0, lowa, lowc);
    SidesOfLines(new0, r.c, r.d, In);
    NoSides<T>();
    SliceJoin(new0, lowc - 1, r.c - 1, r.d);
    SidesAppend(Front(r, old0, new0, lowa, lowc), if r.c <= r.d then Lines(new0, r.c, r.d, In) else []);
  }

  lemma FrontSides<T>(r: Change, old0: seq<T>, new0: seq<T>, lowa: nat, lowc: nat)
    requires Proper(r, |old0|, |new0|) && 1 <= lowa <= r.a && 1 <= lowc <= r.c
    requires Agree(old0, new0, lowa - 1, lowc - 1, r.a - 1, r.c - 1)
    ensures OldSide(Front(r, old0, new0, lowa, lowc)) == old0[lowa - 1..r.b]
    ensures NewSide(Front(r, old0, new0, lowa, lowc)) == new0[lowc - 1..r.c - 1]
  {
    hide OldSide, NewSide, Lines;
    if r.a <= r.b {
      SidesOfLines(old0, lowa, r.a - 1, Keep);
      SidesOfLines(old0, r.a, r.b, Out);
      SliceJoin(old0, lowa - 1, r.a - 1, r.b);
      SidesAppend(Lines(old0, lowa, r.a - 1, Keep), Lines(old0, r.a, r.b, Out));
    } else {
      SidesOfLines(new0, lowc, r.c - 1, Keep);
    }
  }

  lemma SliceJoin<T>(s: seq<T>, a: nat, b: nat, c: nat)
    requires a <= b <= c <= |s|
    ensures s[a..c] == s[a..b] + s[b..c]
  {
  }

  lemma NoSides<T>()
    ensures OldSide<T>([]) == [] && NewSide<T>([]) == []
  {
  }

  /** The changes of a hunk: equal, non-empty stretches between them. */
  ghost predicate Grouped<T>(vec: seq<Change>, old0: seq<T>, new0: seq<T>) {
    && (forall i :: 0 <= i < |vec| ==> Proper(vec[i], |old0|, |new0|))
    && (forall i :: 0 < i < |vec| ==>
          vec[i - 1].b + 1 < vec[i].a && Agree(old0, new0, vec[i - 1].b, vec[i - 1].d, vec[i].a - 1, vec[i].c - 1))
  }

  function LowA(vec: seq<Change>, k: nat, lowa: nat): nat
    requires k <= |vec|
  {
    if k == 0 then lowa else vec[k - 1].b + 1
  }

  function LowC(vec: seq<Change>, k: nat, lowc: nat): nat
    requires k <= |vec|
  {
    if k == 0 then lowc else vec[k - 1].d + 1
  }

  /** What is printed for the first k changes of a hunk. */
  function Pieces<T>(vec: seq<Change>, k: nat, old0: seq<T>, new0: seq<T>, lowa: nat, lowc: nat): seq<HLine<T>>
    requires k <= |vec| && 1 <= lowa && 1 <= lowc && forall i :: 0 <= i < |vec| ==> Proper(vec[i], |old0|, |new0|)
  {
    if k == 0 then []
    else Pieces(vec, k - 1, old0, new0, lowa, lowc)
         + Piece(vec[k - 1], old0, new0, LowA(vec, k - 1, lowa), LowC(vec, k - 1, lowc))
  }

  lemma {:induction false} PiecesSides<T>(vec: seq<Change>, k: nat, old0: seq<T>, new0: seq<T>, lowa: nat, lowc: nat)
    requires 1 <= k <= |vec| && 1 <= lowa && 1 <= lowc && Grouped(vec, old0, new0)
    requires Agree(old0, new0, lowa - 1, lowc - 1, vec[0].a - 1, vec[0].c - 1)
    ensures lowa - 1 <= vec[k - 1].b && lowc - 1 <= vec[k - 1].d
    ensures OldSide(Pieces(vec, k, old0, new0, lowa, lowc)) == old0[lowa - 1..vec[k - 1].b]
    ensures NewSide(Pieces(vec, k, old0, new0, lowa, lowc)) == new0[lowc - 1..vec[k - 1].d]
    decreases k
  {
    hide OldSide, NewSide, Piece;
    var r, la, lc := vec[k - 1], LowA(vec, k - 1, lowa), LowC(vec, k - 1, lowc);
    if k == 1 {
      NoSides<T>();
      PieceSides(r, old0, new0, la, lc);
      assert Pieces(vec, k, old0, new0, lowa, lowc) == [] + Piece(r, old0, new0, la, lc);
      SidesAppend([], Piece(r, old0, new0, la, lc));
    } else {
      PiecesSides(vec, k - 1, old0, new0, lowa, lowc);
      PieceSides(r, old0, new0, la, lc);
      SidesAppend(Pieces(vec, k - 1, old0, new0, lowa, lowc), Piece(r, old0, new0, la, lc));
      assert old0[lowa - 1..r.b] == old0[lowa - 1..la - 1] + old0[la - 1..r.b];
      assert new0[lowc - 1..r.d] == new0[lowc - 1..lc - 1] + new0[lc - 1..r.d];
    }
  }

  /** Lines that are taken out stand in front of those that are put in. */
  ghost predicate Ordered<T>(ls: seq<HLine<T>>) {
    forall k :: 0 < k < |ls| && ls[k].Del? ==> !ls[k - 1].Add?
  }

  lemma LinesOrdered<T>(f: seq<T>, a: nat, b: nat, k: Kind)
    requires 1 <= a && b <= |f|
    ensures var ls := Lines(f, a, b, k);
            Ordered(ls) && forall i :: 0 <= i < |ls| ==> (ls[i].Add? <==> k == In) && (ls[i].Del? <==> k == Out)
  {
    var ls := Lines(f, a, b, k);
    assert forall i :: 0 <= i < |ls| ==> ls[i] == Marked(k, f[a - 1 + i]);
  }

  lemma OrderedAppend<T>(a: seq<HLine<T>>, b: seq<HLine<T>>)
    requires Ordered(a) && Ordered(b) && (a != [] && b != [] && b[0].Del? ==> !a[|a| - 1].Add?)
    ensures Ordered(a + b)
  {
    var ls := a + b;
    forall k | 0 < k < |ls| && ls[k].Del?
      ensures !ls[k - 1].Add?
    {
      if k > |a| {
        assert ls[k] == b[k - |a|] && ls[k - 1] == b[k - |a| - 1];
      }
    }
  }

  lemma PieceOrdered<T>(r: Change, old0: seq<T>, new0: seq<T>, lowa: nat, lowc: nat)
    requires Proper(r, |old0|, |new0|) && 1 <= lowa <= r.a && 1 <= lowc <= r.c && r.a - lowa == r.c - lowc
    ensures var ls := Piece(r, old0, new0, lowa, lowc); Ordered(ls) && ls != [] && (lowa < r.a ==> !ls[0].Del?)
  {
    hide Lines;
    LinesOrdered(old0, lowa, r.a - 1, Keep);
    LinesOrdered(old0, r.a, r.b, Out);
    LinesOrdered(new0, lowc, r.c - 1, Keep);
    LinesOrdered(new0, r.c, r.d, In);
    OrderedAppend(Lines(old0, lowa, r.a - 1, Keep), Lines(old0, r.a, r.b, Out));
    OrderedAppend(Front(r, old0, new0, lowa, lowc), if r.c <= r.d then Lines(new0, r.c, r.d, In) else []);
  }

  lemma {:induction false} PiecesOrdered<T>(vec: seq<Change>, k: nat, old0: seq<T>, new0: seq<T>, lowa: nat, lowc: nat)
    requires k <= |vec| && vec != [] && 1 <= lowa <= vec[0].a && 1 <= lowc <= vec[0].c && Grouped(vec, old0, new0)
    requires vec[0].a - lowa == vec[0].c - lowc
    ensures Ordered(Pieces(vec, k, old0, new0, lowa, lowc))
  {
    hide Piece;
    if k > 0 {
      var la, lc := LowA(vec, k - 1, lowa), LowC(vec, k - 1, lowc);
      PiecesOrdered(vec, k - 1, old0, new0, lowa, lowc);
      PieceOrdered(vec[k - 1], old0, new0, la, lc);
      OrderedAppend(Pieces(vec, k - 1, old0, new0, lowa, lowc), Piece(vec[k - 1], old0, new0, la, lc));
    }
  }

  function Max(a: int, b: int): int { if a > b then a else b }

  function Min(a: int, b: int): int { if a < b then a else b }

  /** A hunk: lines lowa..upb of the old file become lines lowc..upd of the new one. */
  datatype Hunk<T> = Hunk(lowa: nat, upb: nat, lowc: nat, upd: nat, lines: seq<HLine<T>>)

  function HunkText<T>(h: Hunk<T>): seq<PLine<T>> {
    [Head(UniRange(h.lowa, h.upb), UniRange(h.lowc, h.upd))] + Bodies(h.lines)
  }

  function Bodies<T>(ls: seq<HLine<T>>): (r: seq<PLine<T>>)
    ensures |r| == |ls| && forall i :: 0 <= i < |ls| ==> r[i] == Body(ls[i])
  {
    seq(|ls|, i requires 0 <= i < |ls| => Body(ls[i]))
  }

  /** The hunk shows exactly its lines of both files. */
  ghost predicate Shows<T>(h: Hunk<T>, old0: seq<T>, new0: seq<T>) {
    && 1 <= h.lowa <= h.upb + 1 <= |old0| + 1 && 1 <= h.lowc <= h.upd + 1 <= |new0| + 1
    && OldSide(h.lines) == old0[h.lowa - 1..h.upb] && NewSide(h.lines) == new0[h.lowc - 1..h.upd]
  }

  /** A printed range says how many lines there are, and where: the first of them, or the one before if there are none. */
  ghost predicate Places<T>(p: Printed, side: seq<T>, f: seq<T>, before: nat) {
    && Counted(p) == |side| && before + |side| <= |f| && f[before..before + |side|] == side
    && p.line == if side == [] then before else before + 1
  }

  /** The header of the hunk is right on both sides. */
  ghost predicate Headed<T>(h: Hunk<T>, old0: seq<T>, new0: seq<T>) {
    && 1 <= h.lowa && 1 <= h.lowc && HunkText(h)[0].Head?
    && Places(HunkText(h)[0].old0, OldSide(h.lines), old0, h.lowa - 1)
    && Places(HunkText(h)[0].new0, NewSide(h.lines), new0, h.lowc - 1)
  }

  lemma ShownHeaded<T>(h: Hunk<T>, old0: seq<T>, new0: seq<T>)
    requires Shows(h, old0, new0)
    ensures Headed(h, old0, new0)
  {
    hide OldSide, NewSide, Bodies;
  }

  ghost predicate AllHeaded<T>(hs: seq<Hunk<T>>, old0: seq<T>, new0: seq<T>) {
    forall i :: 0 <= i < |hs| ==> Headed(hs[i], old0, new0)
  }

  /** Every hunk that is printed has a right header. */
  lemma {:induction false} HunksHeaded<T>(hs: seq<Hunk<T>>, old0: seq<T>, new0: seq<T>, p: nat, q: nat)
    requires HunksTo(hs, old0, new0, p, q)
    ensures AllHeaded(hs, old0, new0)
    decreases |hs|
  {
    hide Agree, Headed, OldSide, NewSide;
    if hs != [] {
      var n := |hs| - 1;
      assert Shows(hs[n], old0, new0);
      ShownHeaded(hs[n], old0, new0);
      HunksHeaded(hs[..n], old0, new0, hs[n].lowa - 1, hs[n].lowc - 1);
      forall i | 0 <= i < |hs|
        ensures Headed(hs[i], old0, new0)
      {
        assert i < n ==> Headed(hs[..n][i], old0, new0);
      }
    }
  }

  /** A hunk with context: it shows some line of each file, and more than one in all unless the files have no more. */
  predicate Wide<T>(h: Hunk<T>, n: nat, m: nat) {
    && h.lowa <= h.upb && h.lowc <= h.upd
    && (h.lowa == h.upb && h.lowc == h.upd ==> n == 1 && m == 1)
  }

  ghost predicate AllWide<T>(hs: seq<Hunk<T>>, context: nat, n: nat, m: nat) {
    context >= 1 && n >= 1 && m >= 1 ==> forall i :: 0 <= i < |hs| ==> Wide(hs[i], n, m)
  }

  /** Hunks in order, disjoint on both sides, with the files equal between them and up to p and q. */
  ghost predicate HunksTo<T>(hs: seq<Hunk<T>>, old0: seq<T>, new0: seq<T>, p: nat, q: nat)
    decreases |hs|
  {
    if hs == [] then Agree(old0, new0, 0, 0, p, q)
    else
      var h := hs[|hs| - 1];
      && Shows(h, old0, new0) && Agree(old0, new0, h.upb, h.upd, p, q)
      && HunksTo(hs[..|hs| - 1], old0, new0, h.lowa - 1, h.lowc - 1)
  }

  function LastB<T>(hs: seq<Hunk<T>>): nat {
    if hs == [] then 0 else hs[|hs| - 1].upb
  }

  function LastD<T>(hs: seq<Hunk<T>>): nat {
    if hs == [] then 0 else hs[|hs| - 1].upd
  }

  lemma AgreeGap<T>(old0: seq<T>, new0: seq<T>, p: nat, q: nat, p': nat, q': nat)
    requires Agree(old0, new0, p, q, p', q')
    ensures p' - p == q' - q
  {
  }

  lemma AgreeShorter<T>(old0: seq<T>, new0: seq<T>, p: nat, q: nat, p1: nat, q1: nat, p2: nat, q2: nat)
    requires Agree(old0, new0, p, q, p2, q2) && p <= p1 <= p2 && p1 - p == q1 - q
    ensures Agree(old0, new0, p, q, p1, q1) && Agree(old0, new0, p1, q1, p2, q2)
  {
    assert old0[p..p1] == old0[p..p2][..p1 - p] && new0[q..q1] == new0[q..q2][..p1 - p];
    assert old0[p1..p2] == old0[p..p2][p1 - p..] && new0[q1..q2] == new0[q..q2][p1 - p..];
  }

  function AllText<T>(hs: seq<Hunk<T>>): seq<PLine<T>> {
    if hs == [] then [] else AllText(hs[..|hs| - 1]) + HunkText(hs[|hs| - 1])
  }

  /** The hunk of a group of changes. */
  function HunkOf<T>(vec: seq<Change>, old0: seq<T>, new0: seq<T>, context: nat): Hunk<T>
    requires vec != [] && forall i :: 0 <= i < |vec| ==> Proper(vec[i], |old0|, |new0|)
  {
    var first, last := vec[0], vec[|vec| - 1];
    var lowa, lowc := Max(1, first.a - context), Max(1, first.c - context);
    var upb, upd := Min(|old0|, last.b + context), Min(|new0|, last.d + context);
    Hunk(lowa, upb, lowc, upd, Pieces(vec, |vec|, old0, new0, lowa, lowc) + Lines(new0, last.d + 1, upd, Keep))
  }

  /** The changes before the hunk leave room for its leading context. */
  ghost predicate Roomy<T>(hs: seq<Hunk<T>>, vec: seq<Change>, context: nat)
    requires vec != []
  {
    hs != [] ==> LastB(hs) + context < vec[0].a && LastD(hs) + context < vec[0].c
  }

  /** The leading context is the same in both files. */
  lemma LeadAgrees<T>(hs: seq<Hunk<T>>, vec: seq<Change>, old0: seq<T>, new0: seq<T>, context: nat)
    requires vec != [] && 1 <= vec[0].a && 1 <= vec[0].c
    requires HunksTo(hs, old0, new0, vec[0].a - 1, vec[0].c - 1) && Roomy(hs, vec, context)
    ensures var lowa, lowc := Max(1, vec[0].a - context), Max(1, vec[0].c - context);
            Agree(old0, new0, lowa - 1, lowc - 1, vec[0].a - 1, vec[0].c - 1) && HunksTo(hs, old0, new0, lowa - 1, lowc - 1)
  {
    var lowa, lowc := Max(1, vec[0].a - context), Max(1, vec[0].c - context);
    if hs == [] {
      AgreeShorter(old0, new0, 0, 0, lowa - 1, lowc - 1, vec[0].a - 1, vec[0].c - 1);
    } else {
      var h := hs[|hs| - 1];
      AgreeShorter(old0, new0, h.upb, h.upd, lowa - 1, lowc - 1, vec[0].a - 1, vec[0].c - 1);
    }
  }

  lemma LeadLines<T>(hs: seq<Hunk<T>>, vec: seq<Change>, old0: seq<T>, new0: seq<T>, context: nat)
    requires vec != [] && 1 <= vec[0].a && 1 <= vec[0].c
    requires HunksTo(hs, old0, new0, vec[0].a - 1, vec[0].c - 1) && Roomy(hs, vec, context)
    ensures vec[0].a - Max(1, vec[0].a - context) == vec[0].c - Max(1, vec[0].c - context) == Min(context, vec[0].a - 1)
  {
  }

  lemma FollowLines<T>(vec: seq<Change>, old0: seq<T>, new0: seq<T>, context: nat, t: nat)
    requires vec != [] && Follows(vec, old0, new0, context, t)
    ensures var b, d := vec[|vec| - 1].b, vec[|vec| - 1].d;
            Min(|old0|, b + context) - b == Min(|new0|, d + context) - d == Min(context, |old0| - b)
  {
  }

  /**
   Around its changes a hunk shows as many lines as asked for, or all there are, the same in both files;
   lines taken out come first.
   */
  ghost predicate Framed<T>(g: seq<Change>, h: Hunk<T>, n: nat, context: nat) {
    && g != [] && g[0].a - h.lowa == g[0].c - h.lowc == Min(context, g[0].a - 1)
    && Ordered(h.lines) && var last := g[|g| - 1]; h.upb - last.b == h.upd - last.d == Min(context, n - last.b)
  }

  lemma HunkOrdered<T>(vec: seq<Change>, old0: seq<T>, new0: seq<T>, context: nat)
    requires vec != [] && Grouped(vec, old0, new0)
    requires vec[0].a - Max(1, vec[0].a - context) == vec[0].c - Max(1, vec[0].c - context)
    ensures Ordered(HunkOf(vec, old0, new0, context).lines)
  {
    hide Pieces, Lines;
    var h, last := HunkOf(vec, old0, new0, context), vec[|vec| - 1];
    LinesOrdered(new0, last.d + 1, h.upd, Keep);
    PiecesOrdered(vec, |vec|, old0, new0, h.lowa, h.lowc);
    OrderedAppend(Pieces(vec, |vec|, old0, new0, h.lowa, h.lowc), Lines(new0, last.d + 1, h.upd, Keep));
  }

  /** The hunk joins the others, if the files go on equal for t lines after its last change. */
  lemma HunkShows<T>(hs: seq<Hunk<T>>, vec: seq<Change>, old0: seq<T>, new0: seq<T>, context: nat, t: nat, h: Hunk<T>)
    requires vec != [] && Grouped(vec, old0, new0) && h == HunkOf(vec, old0, new0, context)
    requires HunksTo(hs, old0, new0, vec[0].a - 1, vec[0].c - 1) && Roomy(hs, vec, context)
    requires Follows(vec, old0, new0, context, t)
    ensures h.upb == vec[|vec| - 1].b + Min(context, t) && h.upd == vec[|vec| - 1].d + Min(context, t)
    ensures Framed(vec, h, |old0|, context)
    ensures HunksTo(hs + [h], old0, new0, vec[|vec| - 1].b + t, vec[|vec| - 1].d + t)
  {
    hide Shows, Pieces, Lines, Grouped, HunksTo, Roomy, Agree, Follows;
    AllProper(vec, old0, new0);
    var b, d, u := vec[|vec| - 1].b, vec[|vec| - 1].d, Min(context, t);
    LeadAgrees(hs, vec, old0, new0, context);
    FollowsParts(vec, old0, new0, context, t);
    LeadLines(hs, vec, old0, new0, context);
    FollowLines(vec, old0, new0, context, t);
    HunkOrdered(vec, old0, new0, context);
    LinesShown(vec, old0, new0, h.lowa, h.lowc, h.upb, h.upd);
    HunksSnoc(hs, h, old0, new0, b + t, d + t);
  }

  lemma {:induction false} GroupRises<T>(vec: seq<Change>, old0: seq<T>, new0: seq<T>, k: nat)
    requires Grouped(vec, old0, new0) && k < |vec|
    ensures vec[0].a <= vec[k].b + 1 && vec[0].c <= vec[k].d + 1
    ensures vec[0].a <= vec[k].b || vec[0].c <= vec[k].d
  {
    if k > 0 {
      GroupRises(vec, old0, new0, k - 1);
    }
  }

  /** With context, a hunk shows lines of both files. */
  lemma HunkWide<T>(hs: seq<Hunk<T>>, vec: seq<Change>, old0: seq<T>, new0: seq<T>, context: nat, t: nat, h: Hunk<T>)
    requires vec != [] && Grouped(vec, old0, new0) && h == HunkOf(vec, old0, new0, context)
    requires HunksTo(hs, old0, new0, vec[0].a - 1, vec[0].c - 1) && Roomy(hs, vec, context)
    requires Follows(vec, old0, new0, context, t) && context >= 1 && old0 != [] && new0 != []
    ensures Wide(h, |old0|, |new0|)
  {
    hide Pieces, Lines, HunksTo, Roomy;
    GroupRises(vec, old0, new0, |vec| - 1);
    LeadAgrees(hs, vec, old0, new0, context);
    LeadWhole(hs, vec, old0, new0, context);
    FollowsParts(vec, old0, new0, context, t);
  }

  /** The leading context is missing only at the start of both files. */
  lemma LeadWhole<T>(hs: seq<Hunk<T>>, vec: seq<Change>, old0: seq<T>, new0: seq<T>, context: nat)
    requires vec != [] && 1 <= vec[0].a && 1 <= vec[0].c && context >= 1
    requires HunksTo(hs, old0, new0, vec[0].a - 1, vec[0].c - 1) && Roomy(hs, vec, context)
    ensures Max(1, vec[0].a - context) == vec[0].a || Max(1, vec[0].c - context) == vec[0].c ==> vec[0].a == vec[0].c == 1
  {
  }

  /** The files go on equal for t lines after the last change, at least for the context or to the end. */
  ghost predicate Follows<T>(vec: seq<Change>, old0: seq<T>, new0: seq<T>, context: nat, t: nat)
    requires vec != []
  {
    var b, d := vec[|vec| - 1].b, vec[|vec| - 1].d;
    Agree(old0, new0, b, d, b + t, d + t) && (context <= t || (b + t == |old0| && d + t == |new0|))
  }

  lemma FollowsParts<T>(vec: seq<Change>, old0: seq<T>, new0: seq<T>, context: nat, t: nat)
    requires vec != [] && Follows(vec, old0, new0, context, t)
    ensures var b, d, u := vec[|vec| - 1].b, vec[|vec| - 1].d, Min(context, t);
            && Min(|old0|, b + context) == b + u && Min(|new0|, d + context) == d + u
            && Agree(old0, new0, b, d, b + u, d + u) && Agree(old0, new0, b + u, d + u, b + t, d + t)
  {
    var b, d, u := vec[|vec| - 1].b, vec[|vec| - 1].d, Min(context, t);
    AgreeShorter(old0, new0, b, d, b + u, d + u, b + t, d + t);
  }

  lemma HunksSnoc<T>(hs: seq<Hunk<T>>, h: Hunk<T>, old0: seq<T>, new0: seq<T>, p: nat, q: nat)
    requires 1 <= h.lowa && 1 <= h.lowc && Shows(h, old0, new0) && Agree(old0, new0, h.upb, h.upd, p, q)
    requires HunksTo(hs, old0, new0, h.lowa - 1, h.lowc - 1)
    ensures HunksTo(hs + [h], old0, new0, p, q)
  {
    hide Shows, Agree;
    assert (hs + [h])[..|hs|] == hs;
  }

  lemma LinesShown<T>(vec: seq<Change>, old0: seq<T>, new0: seq<T>, lowa: nat, lowc: nat, upb: nat, upd: nat)
    requires vec != [] && Grouped(vec, old0, new0) && 1 <= lowa && 1 <= lowc
    requires Agree(old0, new0, lowa - 1, lowc - 1, vec[0].a - 1, vec[0].c - 1)
    requires var l := vec[|vec| - 1]; Agree(old0, new0, l.b, l.d, upb, upd)
    ensures var lines := Pieces(vec, |vec|, old0, new0, lowa, lowc) + Lines(new0, vec[|vec| - 1].d + 1, upd, Keep);
            Shows(Hunk(lowa, upb, lowc, upd, lines), old0, new0)
  {
    hide OldSide, NewSide, Pieces, Lines, Grouped;
    AllProper(vec, old0, new0);
    var l := vec[|vec| - 1];
    PiecesSides(vec, |vec|, old0, new0, lowa, lowc);
    SidesOfLines(new0, l.d + 1, upd, Keep);
    SidesAppend(Pieces(vec, |vec|, old0, new0, lowa, lowc), Lines(new0, l.d + 1, upd, Keep));
    SliceJoin(old0, lowa - 1, l.b, upb);
    SliceJoin(new0, lowc - 1, l.d, upd);
  }

  lemma AllProper<T>(vec: seq<Change>, old0: seq<T>, new0: seq<T>)
    requires Grouped(vec, old0, new0)
    ensures forall i :: 0 <= i < |vec| ==> Proper(vec[i], |old0|, |new0|)
  {
  }

  /** There are at most 2 * context lines between two changes. */
  predicate Near(p: Change, r: Change, context: nat) {
    r.a - p.b - 1 <= 2 * context
  }

  ghost predicate GroupOk(g: seq<Change>, n: nat, m: nat, context: nat) {
    && g != [] && (forall i :: 0 <= i < |g| ==> Proper(g[i], n, m))
    && forall i :: 0 < i < |g| ==> Near(g[i - 1], g[i], context)
  }

  function AllOf(groups: seq<seq<Change>>): seq<Change> {
    if groups == [] then [] else AllOf(groups[..|groups| - 1]) + groups[|groups| - 1]
  }

  /** Group i is far from the one before. */
  ghost predicate Apart(groups: seq<seq<Change>>, i: nat, context: nat)
    requires 0 < i < |groups|
  {
    groups[i - 1] != [] && groups[i] != [] && !Near(groups[i - 1][|groups[i - 1]| - 1], groups[i][0], context)
  }

  /** The records cut into groups of near ones, far from each other, with a hunk for every group. */
  ghost predicate Cut<T>(groups: seq<seq<Change>>, hs: seq<Hunk<T>>, rs: seq<Change>,
                         old0: seq<T>, new0: seq<T>, context: nat)
  {
    && |groups| == |hs| && AllOf(groups) == rs
    && (forall i :: 0 <= i < |groups| ==>
          && GroupOk(groups[i], |old0|, |new0|, context) && hs[i] == HunkOf(groups[i], old0, new0, context)
          && Framed(groups[i], hs[i], |old0|, context))
    && forall i :: 0 < i < |groups| ==> Apart(groups, i, context)
  }

  /** The same while the changes in vec wait for their hunk. */
  ghost predicate Cutting<T>(groups: seq<seq<Change>>, hs: seq<Hunk<T>>, vec: seq<Change>, rs: seq<Change>,
                             old0: seq<T>, new0: seq<T>, context: nat)
  {
    if vec == [] then rs == [] && groups == [] && hs == []
    else
      && |vec| <= |rs| && rs[|rs| - |vec|..] == vec && GroupOk(vec, |old0|, |new0|, context)
      && Cut(groups, hs, rs[..|rs| - |vec|], old0, new0, context)
      && (groups != [] ==> Apart(groups + [vec], |groups|, context))
  }

  lemma NothingCut<T>(groups: seq<seq<Change>>, hs: seq<Hunk<T>>, vec: seq<Change>, rs: seq<Change>,
                      old0: seq<T>, new0: seq<T>, context: nat)
    requires vec == [] && Cutting(groups, hs, vec, rs, old0, new0, context)
    ensures groups == [] && hs == [] && rs == [] && Cut(groups, hs, rs, old0, new0, context)
  {
  }

  lemma CutClose<T>(groups: seq<seq<Change>>, hs: seq<Hunk<T>>, vec: seq<Change>, rs: seq<Change>,
                    old0: seq<T>, new0: seq<T>, context: nat)
    requires vec != [] && Cutting(groups, hs, vec, rs, old0, new0, context)
    requires forall i :: 0 <= i < |vec| ==> Proper(vec[i], |old0|, |new0|)
    requires Framed(vec, HunkOf(vec, old0, new0, context), |old0|, context)
    ensures Cut(groups + [vec], hs + [HunkOf(vec, old0, new0, context)], rs, old0, new0, context)
  {
    hide HunkOf, Near, GroupOk, Framed;
    var more, n := groups + [vec], |groups|;
    assert more[..n] == groups && rs == rs[..|rs| - |vec|] + vec;
    forall i | 0 < i < |more|
      ensures Apart(more, i, context)
    {
      assert i < n ==> Apart(groups, i, context);
    }
  }

  lemma CutNew<T>(groups: seq<seq<Change>>, hs: seq<Hunk<T>>, rs: seq<Change>, r: Change,
                  old0: seq<T>, new0: seq<T>, context: nat)
    requires Cut(groups, hs, rs, old0, new0, context) && Proper(r, |old0|, |new0|)
    requires groups != [] ==> var g := groups[|groups| - 1]; g != [] && !Near(g[|g| - 1], r, context)
    ensures Cutting(groups, hs, [r], rs + [r], old0, new0, context)
  {
    hide HunkOf, Near, Framed;
    assert (rs + [r])[..|rs|] == rs && (rs + [r])[|rs|..] == [r];
  }

  lemma CutSame<T>(groups: seq<seq<Change>>, hs: seq<Hunk<T>>, vec: seq<Change>, rs: seq<Change>, r: Change,
                   old0: seq<T>, new0: seq<T>, context: nat)
    requires vec != [] && Cutting(groups, hs, vec, rs, old0, new0, context) && Proper(r, |old0|, |new0|)
    requires Near(vec[|vec| - 1], r, context)
    ensures Cutting(groups, hs, vec + [r], rs + [r], old0, new0, context)
  {
    hide HunkOf, Near, Cut;
    var more := rs + [r];
    assert more[..|more| - |vec + [r]|] == rs[..|rs| - |vec|] && more[|more| - |vec + [r]|..] == vec + [r];
    assert GroupOk(vec + [r], |old0|, |new0|, context);
  }

  class Printer<T> {
    const old0: seq<T>
    const new0: seq<T>
    const context: nat
    var vec: seq<Change>          // changes collected for the next hunk
    var out: seq<PLine<T>>        // what has been printed
    var anychange: bool
    ghost var hunks: seq<Hunk<T>>
    ghost var records: seq<Change> // all changes recorded so far
    ghost var groups: seq<seq<Change>> // the changes of each hunk

    constructor (old0: seq<T>, new0: seq<T>, context: nat)
      ensures this.old0 == old0 && this.new0 == new0 && this.context == context && Open(0, 0) && !anychange && records == []
      ensures Cutting(groups, hunks, vec, records, old0, new0, context)
    {
      this.old0, this.new0, this.context := old0, new0, context;
      vec, out, anychange, hunks, records, groups := [], [], false, [], [], [];
    }

    /** The last change ended at lines b and d; what is printed are the hunks before its group. */
    ghost predicate Open(b: nat, d: nat)
      reads this
    {
      && out == AllText(hunks) && anychange == (vec != []) && AllWide(hunks, context, |old0|, |new0|)
      && if vec == [] then hunks == [] && b == 0 && d == 0
         else && Grouped(vec, old0, new0) && vec[|vec| - 1].b == b && vec[|vec| - 1].d == d
              && 1 <= vec[0].a && 1 <= vec[0].c
              && HunksTo(hunks, old0, new0, vec[0].a - 1, vec[0].c - 1) && Roomy(hunks, vec, context)
    }

    /** fetch: prints lines a..b of a file with a mark in front. */
    method Fetch(f: seq<T>, a: nat, b: nat, k: Kind)
      requires 1 <= a && b <= |f|
      modifies this`out
      ensures out == old(out) + Bodies(Lines(f, a, b, k))
    {
      if a > b {
        return;
      }
      ghost var start := out;
      for i := a to b + 1
        invariant out == start + Bodies(Lines(f, a, i - 1, k))
      {
        LinesSnoc(f, a, i, k);
        BodiesAppend(Lines(f, a, i - 1, k), [Marked(k, f[i - 1])]);
        out := out + [Body(Marked(k, f[i - 1]))];
      }
    }

    /** The body of the loop of dump_unified_vec. */
    method PrintChange(r: Change, lowa: nat, lowc: nat)
      requires Proper(r, |old0|, |new0|) && 1 <= lowa && 1 <= lowc
      modifies this`out
      ensures out == old(out) + Bodies(Piece(r, old0, new0, lowa, lowc))
    {
      hide Lines, Bodies;
      ghost var start := out;
      NoBodies<T>();
      if r.a <= r.b {
        Fetch(old0, lowa, r.a - 1, Keep);
        Fetch(old0, r.a, r.b, Out);
        BodiesAppend(Lines(old0, lowa, r.a - 1, Keep), Lines(old0, r.a, r.b, Out));
      } else {
        Fetch(new0, lowc, r.c - 1, Keep);
      }
      assert out == start + Bodies(Front(r, old0, new0, lowa, lowc));
      BodiesAppend(Front(r, old0, new0, lowa, lowc), if r.c <= r.d then Lines(new0, r.c, r.d, In) else []);
      if r.c <= r.d {
        Fetch(new0, r.c, r.d, In);
      }
    }

    /** dump_unified_vec prints the collected changes as one hunk. */
    method Dump()
      requires vec != [] && forall i :: 0 <= i < |vec| ==> Proper(vec[i], |old0|, |new0|)
      modifies this`out, this`vec
      ensures out == old(out) + HunkText(HunkOf(old(vec), old0, new0, context)) && vec == []
    {
      hide Lines, Bodies, Pieces, Piece;
      var last := vec[|vec| - 1];
      var lowa, upb := Max(1, vec[0].a - context), Min(|old0|, last.b + context);
      var lowc, upd := Max(1, vec[0].c - context), Min(|new0|, last.d + context);
      ghost var la, lc := lowa, lowc;
      out := out + [Head(UniRange(lowa, upb), UniRange(lowc, upd))];
      ghost var start := out;
      NoPieces(vec, old0, new0, la, lc);
      for i := 0 to |vec|
        invariant vec == old(vec) && lowa == LowA(vec, i, la) && lowc == LowC(vec, i, lc) && 1 <= lowa && 1 <= lowc
        invariant out == start + Bodies(Pieces(vec, i, old0, new0, la, lc))
      {
        PrintChange(vec[i], lowa, lowc);
        MorePieces(vec, i, old0, new0, la, lc);
        lowa, lowc := vec[i].b + 1, vec[i].d + 1;
      }
      Fetch(new0, last.d + 1, upd, Keep);
      BodiesAppend(Pieces(vec, |vec|, old0, new0, la, lc), Lines(new0, last.d + 1, upd, Keep));
      vec := [];
    }

    /** change: one record more, in the same hunk if the stretch before it is short enough. */
    method Record(a: nat, b: nat, c: nat, d: nat, ghost pb: nat, ghost pd: nat)
      requires Open(pb, pd) && ((a > b && c > d) || Proper(Change(a, b, c, d), |old0|, |new0|))
      requires 1 <= a && 1 <= c && Agree(old0, new0, pb, pd, a - 1, c - 1) && (anychange ==> pb + 1 < a)
      requires Cutting(groups, hunks, vec, records, old0, new0, context)
      modifies this
      ensures if a > b && c > d then Open(pb, pd) && vec == old(vec) else Open(b, d) && vec != []
      ensures records == With(old(records), Change(a, b, c, d))
      ensures Cutting(groups, hunks, vec, records, old0, new0, context)
    {
      hide HunksTo, Agree, AllText, HunkText, HunkOf, Cutting, Cut, Near, Grouped, AllWide, Roomy;
      ghost var r := Change(a, b, c, d);
      if a > b && c > d {
        return;
      }
      AgreeGap(old0, new0, pb, pd, a - 1, c - 1);
      if !anychange {
        anychange := true;
        FirstChange(r, old0, new0);
        NothingCut(groups, hunks, vec, records, old0, new0, context);
        CutNew(groups, hunks, records, r, old0, new0, context);
        FirstRoomy(hunks, r, context);
        OneGroup(r);
        assert vec + [r] == [r];
      } else if a > vec[|vec| - 1].b + 2 * context + 1 && c > vec[|vec| - 1].d + 2 * context + 1 {
        ghost var before := vec;
        Close(a, c, pb, pd);
        NearIs(before[|before| - 1], r, context);
        CutNew(groups, hunks, records, r, old0, new0, context);
        FarRoomy(hunks, r, context);
        OneGroup(r);
        assert vec + [r] == [r];
      } else {
        NearIs(vec[|vec| - 1], r, context);
        SameGroup(vec, r, old0, new0);
        CutSame(groups, hunks, vec, records, r, old0, new0, context);
        SameRoomy(hunks, vec, r, context);
      }
      vec := vec + [Change(a, b, c, d)];
      records := records + [Change(a, b, c, d)];
    }

    lemma FirstRoomy(hs: seq<Hunk<T>>, r: Change, context: nat)
      requires hs == []
      ensures Roomy(hs, [r], context)
    {
    }

    lemma OneGroup(r: Change)
      requires Proper(r, |old0|, |new0|)
      ensures Grouped([r], old0, new0)
    {
    }

    lemma FarRoomy(hs: seq<Hunk<T>>, r: Change, context: nat)
      requires LastB(hs) + context < r.a && LastD(hs) + context < r.c
      ensures Roomy(hs, [r], context)
    {
    }

    lemma SameRoomy(hs: seq<Hunk<T>>, vec: seq<Change>, r: Change, context: nat)
      requires vec != [] && Roomy(hs, vec, context)
      ensures Roomy(hs, vec + [r], context)
    {
    }

    lemma NearIs(p: Change, r: Change, context: nat)
      ensures Near(p, r, context) <==> r.a - p.b - 1 <= 2 * context
    {
    }

    /** Dumping the group before a change that is far enough from it. */
    method Close(a: nat, c: nat, ghost pb: nat, ghost pd: nat)
      requires Open(pb, pd) && vec != [] && 1 <= a && 1 <= c && Agree(old0, new0, pb, pd, a - 1, c - 1)
      requires a > pb + 2 * context + 1 && c > pd + 2 * context + 1
      requires Cutting(groups, hunks, vec, records, old0, new0, context)
      modifies this`vec, this`out, this`hunks, this`groups
      ensures groups == old(groups) + [old(vec)] && Cut(groups, hunks, records, old0, new0, context)
      ensures vec == [] && anychange && out == AllText(hunks) && hunks != [] && AllWide(hunks, context, |old0|, |new0|)
      ensures HunksTo(hunks, old0, new0, a - 1, c - 1)
      ensures LastB(hunks) + context < a && LastD(hunks) + context < c
    {
      hide HunksTo, HunkText, HunkOf, Grouped, Pieces, AllText, Cutting, Cut;
      AllProper(vec, old0, new0);
      ghost var h := HunkOf(vec, old0, new0, context);
      HunkShows(hunks, vec, old0, new0, context, a - 1 - pb, h);
      if context >= 1 && old0 != [] && new0 != [] {
        HunkWide(hunks, vec, old0, new0, context, a - 1 - pb, h);
      }
      CutClose(groups, hunks, vec, records, old0, new0, context);
      groups := groups + [vec];
      Dump();
      TextSnoc(hunks, h);
      hunks := hunks + [h];
    }

    /** The last hunk. */
    method Finish(ghost pb: nat, ghost pd: nat)
      requires Open(pb, pd) && Agree(old0, new0, pb, pd, |old0|, |new0|)
      requires Cutting(groups, hunks, vec, records, old0, new0, context)
      modifies this`vec, this`out, this`hunks, this`groups
      ensures Cut(groups, hunks, records, old0, new0, context)
      ensures out == AllText(hunks) && HunksTo(hunks, old0, new0, |old0|, |new0|)
      ensures AllWide(hunks, context, |old0|, |new0|)
    {
      hide HunksTo, HunkText, HunkOf, Grouped, Pieces, AllText, Cutting, Cut;
      if anychange {
        AllProper(vec, old0, new0);
        ghost var h := HunkOf(vec, old0, new0, context);
        HunkShows(hunks, vec, old0, new0, context, |old0| - pb, h);
        if context >= 1 && old0 != [] && new0 != [] {
          HunkWide(hunks, vec, old0, new0, context, |old0| - pb, h);
        }
        CutClose(groups, hunks, vec, records, old0, new0, context);
        groups := groups + [vec];
        Dump();
        TextSnoc(hunks, h);
        hunks := hunks + [h];
      } else {
        NoHunks(old0, new0);
        NothingCut(groups, hunks, vec, records, old0, new0, context);
      }
    }

    /** output: the changes and hunks for a match vector. */
    method Output(js: array<nat>)
      requires Cutting(groups, hunks, vec, records, old0, new0, context)
      requires Open(0, 0) && !anychange && records == [] && js.Length == |old0| + 2 && Matching(js[..], old0, new0)
      modifies this, js
      ensures Covers(records, old0, new0, |old0|, |new0|) && Divides(records, old(js[..]), |old0|, |new0|)
      ensures out == AllText(hunks) && HunksTo(hunks, old0, new0, |old0|, |new0|)
      ensures AllWide(hunks, context, |old0|, |new0|) && Cut(groups, hunks, records, old0, new0, context)
      ensures AllHeaded(hunks, old0, new0)
    {
      hide AllHeaded, Covers, Divides, Matching, Agree, Open, HunksTo, AllWide, AllText, With, Outputting, Cutting, Cut;
      var m := |old0|;
      ghost var js0, rs := js[..], [];
      js[0] := 0;
      js[m + 1] := |new0| + 1;
      StartOutput(js[..], js0, old0, new0);
      var i0 := 1;
      while i0 <= m
        invariant 1 <= i0 <= m + 1 && Outputting(js[..], js0, old0, new0, rs, i0) && Spaced(js[..], m, rs, i0)
        invariant Cutting(groups, hunks, vec, records, old0, new0, context)
        invariant records == rs && Open(EndB(rs), EndD(rs)) && anychange == (rs != [])
        invariant if m == 0 then rs == [] else m < i0 ==> js[m] == |new0|
        decreases m - i0, if i0 <= m && js[i0] == js[i0 - 1] + 1 then 0 else 1
      {
        i0 := Turn(js, i0, js0);
        rs := records;
      }
      if m == 0 {
        Insertion(js0, old0, new0);
        Record(1, 0, 1, |new0|, 0, 0);
        Finish(0, |new0|);
      } else {
        WholeCovered(js[..], js0, old0, new0, rs);
        Finish(EndB(rs), EndD(rs));
      }
      HunksHeaded(hunks, old0, new0, |old0|, |new0|);
    }

    /** One turn of the loop of output. */
    method Turn(js: array<nat>, i0: nat, ghost js0: seq<nat>) returns (next: nat)
      requires js.Length == |old0| + 2 && 1 <= i0 <= |old0| && Outputting(js[..], js0, old0, new0, records, i0)
      requires Cutting(groups, hunks, vec, records, old0, new0, context)
      requires Spaced(js[..], |old0|, records, i0) && Open(EndB(records), EndD(records)) && anychange == (records != [])
      modifies this, js
      ensures i0 <= next <= |old0| + 1 && Outputting(js[..], js0, old0, new0, records, next)
      ensures Cutting(groups, hunks, vec, records, old0, new0, context)
      ensures Spaced(js[..], |old0|, records, next) && Open(EndB(records), EndD(records)) && anychange == (records != [])
      ensures (next <= |old0| ==> js[next] == js[next - 1] + 1) && (next == |old0| + 1 ==> js[|old0|] == |new0|)
      ensures next == i0 ==> old(js[i0]) != old(js[i0 - 1]) + 1
    {
      hide Covers, Matching, Agree, Open, HunksTo, Outputting, Cutting;
      ghost var rs := records;
      var a, i1, j00, j01 := NextChange(js, i0, |old0|, js0, old0, new0, rs);
      GapBefore(js[..], js0, old0, new0, rs, Change(a, i1, j00, j01));
      EmptyOpen(EndB(rs), EndD(rs));
      Record(a, i1, j00, j01, EndB(rs), EndD(rs));
      EmptyOpen(EndB(records), EndD(records));
      next := i1 + 1;
    }

    lemma EmptyOpen(b: nat, d: nat)
      requires Open(b, d)
      ensures anychange == (vec != [])
    {
    }
  }

  lemma BodiesAppend<T>(a: seq<HLine<T>>, b: seq<HLine<T>>)
    ensures Bodies(a + b) == Bodies(a) + Bodies(b)
  {
  }

  lemma NoBodies<T>()
    ensures Bodies<T>([]) == []
  {
  }

  lemma NoPieces<T>(vec: seq<Change>, old0: seq<T>, new0: seq<T>, lowa: nat, lowc: nat)
    requires 1 <= lowa && 1 <= lowc && forall i :: 0 <= i < |vec| ==> Proper(vec[i], |old0|, |new0|)
    ensures Bodies(Pieces(vec, 0, old0, new0, lowa, lowc)) == []
  {
  }

  lemma MorePieces<T>(vec: seq<Change>, k: nat, old0: seq<T>, new0: seq<T>, lowa: nat, lowc: nat)
    requires k < |vec| && 1 <= lowa && 1 <= lowc && forall i :: 0 <= i < |vec| ==> Proper(vec[i], |old0|, |new0|)
    ensures Bodies(Pieces(vec, k + 1, old0, new0, lowa, lowc)) ==
            Bodies(Pieces(vec, k, old0, new0, lowa, lowc)) +
            Bodies(Piece(vec[k], old0, new0, LowA(vec, k, lowa), LowC(vec, k, lowc)))
  {
    hide Piece;
    BodiesAppend(Pieces(vec, k, old0, new0, lowa, lowc), Piece(vec[k], old0, new0, LowA(vec, k, lowa), LowC(vec, k, lowc)));
  }

  lemma TextSnoc<T>(hs: seq<Hunk<T>>, h: Hunk<T>)
    ensures AllText(hs + [h]) == AllText(hs) + HunkText(h)
  {
    assert (hs + [h])[..|hs|] == hs;
  }

  lemma FirstChange<T>(r: Change, old0: seq<T>, new0: seq<T>)
    requires Proper(r, |old0|, |new0|) && Agree(old0, new0, 0, 0, r.a - 1, r.c - 1)
    ensures HunksTo([], old0, new0, r.a - 1, r.c - 1)
  {
  }

  lemma SameGroup<T>(vec: seq<Change>, r: Change, old0: seq<T>, new0: seq<T>)
    requires vec != [] && Grouped(vec, old0, new0) && Proper(r, |old0|, |new0|) && vec[|vec| - 1].b + 1 < r.a
    requires Agree(old0, new0, vec[|vec| - 1].b, vec[|vec| - 1].d, r.a - 1, r.c - 1)
    ensures Grouped(vec + [r], old0, new0)
  {
    hide Agree, Proper;
  }

  function EndB(rs: seq<Change>): nat {
    if rs == [] then 0 else rs[|rs| - 1].b
  }

  function EndD(rs: seq<Change>): nat {
    if rs == [] then 0 else rs[|rs| - 1].d
  }

  lemma NoHunks<T>(old0: seq<T>, new0: seq<T>)
    requires Agree(old0, new0, 0, 0, |old0|, |new0|)
    ensures HunksTo([], old0, new0, |old0|, |new0|)
  {
  }

  lemma StartOutput<T>(js: seq<nat>, js0: seq<nat>, old0: seq<T>, new0: seq<T>)
    requires |js| == |js0| == |old0| + 2 && Matching(js0, old0, new0) && js[0] == 0 && js[|old0| + 1] == |new0| + 1
    requires forall k :: 1 <= k <= |old0| ==> js[k] == js0[k]
    ensures Outputting(js, js0, old0, new0, [], 1)
  {
  }

  lemma CoversGap<T>(rs: seq<Change>, old0: seq<T>, new0: seq<T>, p: nat, q: nat)
    requires p <= |old0| && q <= |new0| && Covers(rs, old0, new0, p, q)
    ensures Agree(old0, new0, EndB(rs), EndD(rs), p, q)
  {
  }

  /** The stretch before a change is the same in both files. */
  lemma GapBefore<T>(js: seq<nat>, js0: seq<nat>, old0: seq<T>, new0: seq<T>, rs: seq<Change>, r: Change)
    requires 1 <= r.a <= r.b + 1 <= |old0| + 1 && 1 <= r.c <= r.d + 1 <= |new0| + 1
    requires Outputting(js, js0, old0, new0, With(rs, r), r.b + 1) && js[r.b] == r.d
    ensures Agree(old0, new0, EndB(rs), EndD(rs), r.a - 1, r.c - 1)
    ensures (r.a > r.b && r.c > r.d) || Proper(r, |old0|, |new0|)
  {
    hide Matching, Agree, Divides;
    if !(r.a > r.b && r.c > r.d) {
      assert (rs + [r])[..|rs|] == rs;
    }
    CoversGap(rs, old0, new0, r.a - 1, r.c - 1);
  }

  lemma WholeCovered<T>(js: seq<nat>, js0: seq<nat>, old0: seq<T>, new0: seq<T>, rs: seq<Change>)
    requires Outputting(js, js0, old0, new0, rs, |old0| + 1) && js[|old0|] == |new0|
    ensures Covers(rs, old0, new0, |old0|, |new0|) && Agree(old0, new0, EndB(rs), EndD(rs), |old0|, |new0|)
    ensures Divides(rs, js0, |old0|, |new0|)
  {
    hide Matching, Agree, Covers, Divides;
    CoversGap(rs, old0, new0, |old0|, |new0|);
  }

  lemma NoRecords<T>(js0: seq<nat>, old0: seq<T>, new0: seq<T>)
    requires js0 != []
    ensures Covers([], old0, new0, 0, 0) && Divides([], js0, 0, 0)
  {
  }

  lemma Insertion<T>(js0: seq<nat>, old0: seq<T>, new0: seq<T>)
    requires old0 == [] && js0 != []
    ensures Agree(old0, new0, 0, 0, 0, 0) && Agree(old0, new0, 0, |new0|, 0, |new0|)
    ensures Covers(With([], Change(1, 0, 1, |new0|)), old0, new0, 0, |new0|)
    ensures Divides(With([], Change(1, 0, 1, |new0|)), js0, 0, |new0|)
  {
    hide Covers, Divides;
    NoRecords(js0, old0, new0);
    if new0 != [] {
      DividesChange([], js0, 0, 0, 0, |new0|);
      CoversChange([], old0, new0, 0, 0, 0, |new0|);
    }
  }
}
