/**
 Applying unified hunks to a file (editors/patch.c, copy_lines and the hunk loop of patch_main),
 and what becomes of the hunks that diff makes.
 */
module Patch {
  import opened MatchVector
  import opened EditScript
  import opened Unified
  import opened DiffRun

  /** The header scanner knows three forms; both ranges without a count is not one of them. */
  predicate Scans(o: Printed, w: Printed) {
    o.Many? || w.Many?
  }

  function SrcBeg<T>(h: Hunk<T>): nat {
    UniRange(h.lowa, h.upb).line
  }

  function DestBeg<T>(h: Hunk<T>): nat {
    UniRange(h.lowc, h.upd).line
  }

  predicate Scanned<T>(h: Hunk<T>) {
    Scans(UniRange(h.lowa, h.upb), UniRange(h.lowc, h.upd))
  }

  /** Where in the source the hunk is applied, if the last one ended at pos. */
  function At<T>(h: Hunk<T>, pos: nat): nat {
    if SrcBeg(h) != 0 && DestBeg(h) != 0 then SrcBeg(h) - 1 else pos
  }

  /** Where the source has been read to after the hunks. */
  function Pos<T>(hs: seq<Hunk<T>>): nat {
    if hs == [] then 0
    else At(hs[|hs| - 1], Pos(hs[..|hs| - 1])) + |OldSide(hs[|hs| - 1].lines)|
  }

  /** The hunks are recognised, in order, and their old lines are those of the source. */
  ghost predicate Clean<T>(hs: seq<Hunk<T>>, src: seq<T>) {
    hs != [] ==>
      var h, front := hs[|hs| - 1], hs[..|hs| - 1];
      && Clean(front, src) && Scanned(h) && Pos(front) <= At(h, Pos(front)) <= |src|
      && OldSide(h.lines) <= src[At(h, Pos(front))..]
  }

  /** What the hunks make of the part of the source that they have read. */
  ghost function Made<T>(hs: seq<Hunk<T>>, src: seq<T>): seq<T>
    requires Clean(hs, src)
  {
    if hs == [] then []
    else
      var h, front := hs[|hs| - 1], hs[..|hs| - 1];
      Made(front, src) + src[Pos(front)..At(h, Pos(front))] + NewSide(h.lines)
  }

  /** Some hunk says where it starts, so that the rest of the file is copied too. */
  predicate Placed<T>(hs: seq<Hunk<T>>) {
    exists i :: 0 <= i < |hs| && SrcBeg(hs[i]) != 0 && DestBeg(hs[i]) != 0
  }

  /** The hunks up to the first whose header is not recognised. */
  function Recognised<T>(hs: seq<Hunk<T>>): seq<Hunk<T>> {
    if hs == [] || !Scanned(hs[0]) then [] else [hs[0]] + Recognised(hs[1..])
  }

  lemma {:induction false} RecognisedAll<T>(hs: seq<Hunk<T>>)
    ensures var f := Recognised(hs);
            && f <= hs && (forall i :: 0 <= i < |f| ==> Scanned(hs[i]))
            && (|f| < |hs| ==> !Scanned(hs[|f|]))
  {
    if hs != [] && Scanned(hs[0]) {
      RecognisedAll(hs[1..]);
      assert hs == [hs[0]] + hs[1..];
    }
  }

  lemma RecognisedFront<T>(hs: seq<Hunk<T>>, k: nat)
    requires k <= |Recognised(hs)|
    ensures k <= |hs| && Recognised(hs)[..k] == hs[..k] && (k == |Recognised(hs)| ==> Recognised(hs) == hs[..k])
  {
    hide Recognised, Scanned;
    RecognisedAll(hs);
  }

  /** The last header that is read. */
  function LastHeader<T>(hs: seq<Hunk<T>>): Hunk<T>
    requires hs != []
  {
    if |Recognised(hs)| < |hs| then hs[|Recognised(hs)|] else hs[|hs| - 1]
  }

  class Patcher<T(==)> {
    const src: seq<T>
    var srcPos: nat        // lines of the source read so far
    var dst: seq<T>
    var srcCurLine: int
    var destCurLine: int
    var destBegLine: nat   // not set before the first header
    var badHunks: nat
    var hunkCount: nat
    var copyTrailing: bool

    constructor (src: seq<T>, unset: nat)
      ensures this.src == src && srcPos == 0 && dst == [] && srcCurLine == 1 && destCurLine == 0
      ensures badHunks == 0 && hunkCount == 0 && !copyTrailing
    {
      this.src := src;
      srcPos, dst, srcCurLine, destCurLine, destBegLine := 0, [], 1, 0, unset;
      badHunks, hunkCount, copyTrailing := 0, 0, false;
    }

    /** copy_lines; a negative count is a very large unsigned one. */
    method CopyLines(count: int) returns (i: nat)
      requires srcPos <= |src|
      modifies this`srcPos, this`dst
      ensures srcPos == old(srcPos) + i <= |src| && dst == old(dst) + src[old(srcPos)..srcPos]
      ensures i == if 0 <= count <= |src| - old(srcPos) then count else |src| - old(srcPos)
    {
      i := 0;
      while (count < 0 || i < count) && srcPos < |src|
        invariant srcPos == old(srcPos) + i <= |src| && dst == old(dst) + src[old(srcPos)..srcPos]
        invariant 0 <= count ==> i <= count
        decreases |src| - srcPos
      {
        dst := dst + [src[srcPos]];
        srcPos := srcPos + 1;
        i := i + 1;
      }
    }

    /** The lines of a hunk from patch line n on. */
    method ApplyLines(patch: seq<PLine<T>>, from: nat, ghost ls: seq<HLine<T>>) returns (n: nat, error: bool)
      requires from + |ls| <= |patch| && srcPos <= |src|
      requires forall i :: 0 <= i < |ls| ==> patch[from + i] == Body(ls[i])
      requires from + |ls| < |patch| ==> patch[from + |ls|].Head?
      modifies this`srcPos, this`dst, this`srcCurLine, this`destCurLine
      ensures srcPos <= |src| && from <= n <= from + |ls| && (error ==> n < from + |ls| && patch[n].Body?)
      ensures !error <==> OldSide(ls) <= src[old(srcPos)..]
      ensures !error ==> n == from + |ls| && srcPos == old(srcPos) + |OldSide(ls)| && dst == old(dst) + NewSide(ls)
      ensures srcCurLine - srcPos == old(srcCurLine - srcPos) && destCurLine - |dst| == old(destCurLine - |dst|)
    {
      hide Reading, OldSide, NewSide;
      n, error := from, false;
      ghost var pos0, dst0 := srcPos, dst;
      StartReading(ls, src, pos0, dst0);
      while n < |patch|
        invariant from <= n <= from + |ls| && !error && srcPos <= |src|
        invariant Reading(ls, n - from, src, pos0, dst0, srcPos, dst)
        invariant srcCurLine - srcPos == old(srcCurLine - srcPos) && destCurLine - |dst| == old(destCurLine - |dst|)
        decreases |patch| - n
      {
        assert n - from < |ls| ==> patch[from + (n - from)] == Body(ls[n - from]);
        match patch[n] {
          case Head(_, _) => break;
          case Body(l) =>
            ghost var k, pos, made := n - from, srcPos, dst;
            if !l.Add? {
              if srcPos == |src| {
                Mismatch(ls, k, src, pos0, dst0, pos, made);
                error := true;
                break;
              }
              var line := src[srcPos];
              srcPos := srcPos + 1;
              srcCurLine := srcCurLine + 1;
              if line != l.text {
                Mismatch(ls, k, src, pos0, dst0, pos, made);
                error := true;
                break;
              }
            }
            if !l.Del? {
              dst := dst + [l.text];
              destCurLine := destCurLine + 1;
            }
            ReadLine(ls, k, src, pos0, dst0, pos, made);
            n := n + 1;
        }
      }
      if !error {
        AllRead(ls, src, pos0, dst0, srcPos, dst);
      }
    }

    /** The state after k hunks that all applied. */
    ghost predicate Done(hs: seq<Hunk<T>>, k: nat)
      reads this
    {
      && k <= |hs| && Clean(hs[..k], src) && srcPos == Pos(hs[..k]) <= |src| && dst == Made(hs[..k], src)
      && srcCurLine == srcPos + 1 && destCurLine == |dst| && hunkCount == k && badHunks == 0
      && copyTrailing == Placed(hs[..k]) && (k > 0 ==> destBegLine == DestBeg(hs[k - 1]))
    }

    /** One hunk: its header is at patch line n. */
    method ApplyHunk(patch: seq<PLine<T>>, from: nat, ghost hs: seq<Hunk<T>>, ghost k: nat) returns (n: nat, died: bool)
      requires k < |hs| && Done(hs, k) && patch == AllText(hs) && from == |AllText(hs[..k])| < |patch|
      requires patch[from] == Head(UniRange(hs[k].lowa, hs[k].upb), UniRange(hs[k].lowc, hs[k].upd)) && Scanned(hs[k])
      modifies this
      ensures from < n <= |patch| && hunkCount == k + 1 && srcPos <= |src|
      ensures if Clean(hs[..k + 1], src) then !died && Done(hs, k + 1) && n == |AllText(hs[..k + 1])|
              else died || (badHunks == 1 && n < |patch| && patch[n].Body?)
    {
      hide Clean, Made, Pos, AllText, OldSide, NewSide, Placed;
      ghost var h := hs[k];
      TextAt(hs, k);
      CleanSnoc(hs, k, src);
      PlacedSnoc(hs, k);
      n, died := from + 1, false;
      hunkCount := hunkCount + 1;
      var srcBegLine := patch[from].old0.line;
      destBegLine := patch[from].new0.line;
      if srcBegLine != 0 && destBegLine != 0 {
        var count := srcBegLine - srcCurLine;
        var copied := CopyLines(count);
        if copied != count {
          died := true;
          return;
        }
        srcCurLine := srcCurLine + count;
        destCurLine := destCurLine + count;
        copyTrailing := true;
      }
      var error;
      n, error := ApplyLines(patch, from + 1, h.lines);
      if error {
        badHunks := badHunks + 1;
      }
    }

    /**
     The hunk loop of patch_main on the text of hunks hs.  It ends at the first header that is not
     recognised; the hunks before that all apply exactly if they are clean, and then the result is
     what they make of the source.
     */
    method PatchFile(patch: seq<PLine<T>>, ghost hs: seq<Hunk<T>>) returns (died: bool)
      requires patch == AllText(hs) && srcPos == 0 && dst == [] && srcCurLine == 1 && destCurLine == 0
      requires badHunks == 0 && hunkCount == 0 && !copyTrailing
      modifies this
      ensures (!died && badHunks == 0) <==> Clean(Recognised(hs), src)
      ensures Clean(Recognised(hs), src) ==>
                && hunkCount == |Recognised(hs)| && destCurLine == |Made(Recognised(hs), src)|
                && dst == Made(Recognised(hs), src) + (if Placed(Recognised(hs)) then src[Pos(Recognised(hs))..] else [])
                && (hs != [] ==> destBegLine == DestBeg(LastHeader(hs)))
    {
      hide Clean, Made, Pos, AllText, Placed, Done, HunkText, Recognised;
      died := false;
      var n := 0;
      ghost var k, good, stopped := 0, true, false;
      StartDone(hs);
      RecognisedAll(hs);
      while n < |patch|
        invariant srcPos <= |src| && !died && n <= |patch| && k <= |Recognised(hs)|
        invariant good ==> Done(hs, k) && n == |AllText(hs[..k])|
        invariant !good ==> badHunks == 1 && n < |patch| && patch[n].Body? && !Clean(Recognised(hs), src)
        decreases |patch| - n, good
      {
        if good {
          TextLeft(hs, k);
          TextAt(hs, k);
          DoneFacts(hs, k);
        }
        match patch[n] {
          case Body(_) =>
            break;
          case Head(o, w) =>
            if !Scans(o, w) {
              stopped := true;
              destBegLine := w.line;
              break;
            }
            n, died := ApplyHunk(patch, n, hs, k);
            if !Clean(hs[..k + 1], src) {
              RecognisedFront(hs, k + 1);
              CleanPrefix(Recognised(hs), k + 1, src);
              good := false;
            }
            if died {
              return;
            }
            k := if good then k + 1 else k;
        }
      }
      if good {
        if !stopped {
          WholeText(hs, k);
          DoneFacts(hs, k);
        }
        RecognisedFront(hs, k);
      }
      if copyTrailing {
        var _ := CopyLines(-1);
      }
    }

    lemma StartDone(hs: seq<Hunk<T>>)
      requires srcPos == 0 && dst == [] && srcCurLine == 1 && destCurLine == 0
      requires badHunks == 0 && hunkCount == 0 && !copyTrailing
      ensures Done(hs, 0) && AllText(hs[..0]) == []
    {
      assert hs[..0] == [];
    }

    lemma DoneFacts(hs: seq<Hunk<T>>, k: nat)
      requires Done(hs, k)
      ensures hunkCount == k <= |hs| && badHunks == 0 && srcPos == Pos(hs[..k]) <= |src| && destCurLine == |dst|
      ensures Clean(hs[..k], src) && dst == Made(hs[..k], src) && copyTrailing == Placed(hs[..k])
      ensures k > 0 ==> destBegLine == DestBeg(hs[k - 1])
      ensures k == 0 ==> dst == [] && !copyTrailing
    {
    }
  }

  /** The first k lines of a hunk have been applied. */
  ghost predicate Reading<T>(ls: seq<HLine<T>>, k: nat, src: seq<T>, pos0: nat, dst0: seq<T>, pos: nat, dst: seq<T>) {
    && k <= |ls| && pos0 <= pos <= |src| && OldSide(ls[..k]) == src[pos0..pos] && dst == dst0 + NewSide(ls[..k])
  }

  lemma StartReading<T>(ls: seq<HLine<T>>, src: seq<T>, pos0: nat, dst0: seq<T>)
    requires pos0 <= |src|
    ensures Reading(ls, 0, src, pos0, dst0, pos0, dst0)
  {
    assert ls[..0] == [];
  }

  lemma AllRead<T>(ls: seq<HLine<T>>, src: seq<T>, pos0: nat, dst0: seq<T>, pos: nat, dst: seq<T>)
    requires Reading(ls, |ls|, src, pos0, dst0, pos, dst)
    ensures OldSide(ls) <= src[pos0..] && pos == pos0 + |OldSide(ls)| && dst == dst0 + NewSide(ls)
  {
    assert ls[..|ls|] == ls;
    assert src[pos0..pos] == src[pos0..][..pos - pos0];
  }

  lemma {:induction false} SidePrefix<T>(ls: seq<HLine<T>>, k: nat)
    requires k <= |ls|
    ensures OldSide(ls[..k]) <= OldSide(ls)
    decreases |ls| - k
  {
    if k < |ls| {
      SidePrefix(ls, k + 1);
      assert ls[..k + 1][..k] == ls[..k];
    } else {
      assert ls[..k] == ls;
    }
  }

  /** The next line of a hunk is put in, or is the next line of the source. */
  lemma ReadLine<T>(ls: seq<HLine<T>>, k: nat, src: seq<T>, pos0: nat, dst0: seq<T>, pos: nat, dst: seq<T>)
    requires k < |ls| && Reading(ls, k, src, pos0, dst0, pos, dst)
    requires ls[k].Add? || (pos < |src| && src[pos] == ls[k].text)
    ensures Reading(ls, k + 1, src, pos0, dst0, if ls[k].Add? then pos else pos + 1,
                    if ls[k].Del? then dst else dst + [ls[k].text])
  {
    hide OldSide, NewSide;
    var l := ls[k];
    assert ls[..k + 1] == ls[..k] + [l];
    OldSnoc(ls[..k], l);
    if !l.Add? {
      assert src[pos0..pos + 1] == src[pos0..pos] + [src[pos]];
    }
  }

  /** Otherwise the hunk does not fit. */
  lemma Mismatch<T>(ls: seq<HLine<T>>, k: nat, src: seq<T>, pos0: nat, dst0: seq<T>, pos: nat, dst: seq<T>)
    requires k < |ls| && Reading(ls, k, src, pos0, dst0, pos, dst) && !ls[k].Add?
    requires pos == |src| || src[pos] != ls[k].text
    ensures !(OldSide(ls) <= src[pos0..])
  {
    hide OldSide, NewSide;
    var o, o' := OldSide(ls[..k]), OldSide(ls[..k + 1]);
    assert ls[..k + 1] == ls[..k] + [ls[k]];
    OldSnoc(ls[..k], ls[k]);
    SidePrefix(ls, k + 1);
    assert o'[|o|] == ls[k].text;
    if pos < |src| {
      assert src[pos0..][|o|] == src[pos];
    }
  }

  lemma {:induction false} TextSplit<T>(hs: seq<Hunk<T>>, k: nat)
    requires k < |hs|
    ensures AllText(hs[..k]) + HunkText(hs[k]) <= AllText(hs)
    ensures var done := AllText(hs[..k]) + HunkText(hs[k]); |done| < |AllText(hs)| ==> AllText(hs)[|done|].Head?
    decreases |hs|
  {
    hide HunkText;
    var n := |hs| - 1;
    if k < n {
      TextSplit(hs[..n], k);
      assert hs[..n][..k] == hs[..k];
      TextStarts(hs[n]);
    }
  }

  lemma TextStarts<T>(h: Hunk<T>)
    ensures HunkText(h) != [] && HunkText(h)[0].Head?
  {
  }

  /** Where the text of hunk k is in the patch. */
  lemma TextAt<T>(hs: seq<Hunk<T>>, k: nat)
    requires k < |hs|
    ensures var patch, at, ls := AllText(hs), |AllText(hs[..k])|, hs[k].lines;
            && at + 1 + |ls| <= |patch| && |AllText(hs[..k + 1])| == at + 1 + |ls|
            && (forall i :: 0 <= i < |ls| ==> patch[at + 1 + i] == Body(ls[i]))
            && (at + 1 + |ls| < |patch| ==> patch[at + 1 + |ls|].Head?)
            && patch[at] == Head(UniRange(hs[k].lowa, hs[k].upb), UniRange(hs[k].lowc, hs[k].upd))
  {
    hide AllText, HunkText;
    TextSplit(hs, k);
    TextSnoc(hs[..k], hs[k]);
    assert hs[..k + 1] == hs[..k] + [hs[k]];
    TextParts(AllText(hs[..k]), hs[k], AllText(hs));
  }

  lemma TextParts<T>(done: seq<PLine<T>>, h: Hunk<T>, patch: seq<PLine<T>>)
    requires done + HunkText(h) <= patch
    ensures |HunkText(h)| == 1 + |h.lines| && |done| < |patch|
    ensures patch[|done|] == Head(UniRange(h.lowa, h.upb), UniRange(h.lowc, h.upd))
    ensures forall i :: 0 <= i < |h.lines| ==> patch[|done| + 1 + i] == Body(h.lines[i])
  {
    var text := HunkText(h);
    assert patch[|done|] == (done + text)[|done|];
    forall i | 0 <= i < |h.lines|
      ensures patch[|done| + 1 + i] == Body(h.lines[i])
    {
      assert patch[|done| + 1 + i] == (done + text)[|done| + 1 + i] == text[1 + i];
    }
  }

  /** One hunk more. */
  lemma CleanSnoc<T>(hs: seq<Hunk<T>>, k: nat, src: seq<T>)
    requires k < |hs| && Clean(hs[..k], src)
    ensures var h, pos := hs[k], Pos(hs[..k]);
            && (Clean(hs[..k + 1], src) <==>
                Scanned(h) && pos <= At(h, pos) <= |src| && OldSide(h.lines) <= src[At(h, pos)..])
            && Pos(hs[..k + 1]) == At(h, pos) + |OldSide(h.lines)|
            && (Clean(hs[..k + 1], src) ==>
                Made(hs[..k + 1], src) == Made(hs[..k], src) + src[pos..At(h, pos)] + NewSide(h.lines))
  {
    hide OldSide, NewSide;
    var front := hs[..k + 1];
    assert front[..k] == hs[..k] && front[k] == hs[k];
  }

  lemma PlacedSnoc<T>(hs: seq<Hunk<T>>, k: nat)
    requires k < |hs|
    ensures Placed(hs[..k + 1]) <==> Placed(hs[..k]) || (SrcBeg(hs[k]) != 0 && DestBeg(hs[k]) != 0)
  {
    hide SrcBeg, DestBeg;
    var front := hs[..k + 1];
    if SrcBeg(hs[k]) != 0 && DestBeg(hs[k]) != 0 {
      assert SrcBeg(front[k]) != 0 && DestBeg(front[k]) != 0;
    } else if Placed(hs[..k]) {
      var i :| 0 <= i < k && SrcBeg(hs[..k][i]) != 0 && DestBeg(hs[..k][i]) != 0;
      assert front[i] == hs[..k][i];
    }
  }

  lemma {:induction false} CleanPrefix<T>(hs: seq<Hunk<T>>, k: nat, src: seq<T>)
    requires k <= |hs|
    ensures Clean(hs, src) ==> Clean(hs[..k], src)
    decreases |hs|
  {
    hide Scanned, OldSide;
    if k == |hs| {
      assert hs[..k] == hs;
    } else {
      CleanPrefix(hs[..|hs| - 1], k, src);
      assert hs[..|hs| - 1][..k] == hs[..k];
    }
  }

  /** While text is left, a hunk is left. */
  lemma TextLeft<T>(hs: seq<Hunk<T>>, k: nat)
    requires k <= |hs| && |AllText(hs[..k])| < |AllText(hs)|
    ensures k < |hs|
  {
    assert hs[..|hs|] == hs;
  }

  lemma WholeText<T>(hs: seq<Hunk<T>>, k: nat)
    requires k <= |hs| && |AllText(hs[..k])| == |AllText(hs)|
    ensures hs[..k] == hs
  {
    if k < |hs| {
      TextAt(hs, k);
    }
  }

  /** A hunk that only puts in lines, behind a line of both files: patch puts them in front of that line. */
  predicate Early<T>(h: Hunk<T>) {
    h.lowa > h.upb && SrcBeg(h) != 0 && DestBeg(h) != 0
  }

  /** That makes no difference if all the lines put in are equal to that line. */
  ghost predicate Harmless<T>(h: Hunk<T>, old0: seq<T>) {
    0 < h.upb <= |old0| && forall i :: 0 <= i < |NewSide(h.lines)| ==> NewSide(h.lines)[i] == old0[h.upb - 1]
  }

  ghost predicate Fits<T>(hs: seq<Hunk<T>>, old0: seq<T>) {
    forall i :: 0 <= i < |hs| && Early(hs[i]) ==> Harmless(hs[i], old0)
  }

  /** Hunks that are not empty, with equal lines between them. */
  predicate Spread<T>(hs: seq<Hunk<T>>) {
    && (forall i :: 0 <= i < |hs| ==> hs[i].lowa <= hs[i].upb || hs[i].lowc <= hs[i].upd)
    && forall i :: 0 < i < |hs| ==> hs[i - 1].upb < hs[i].lowa - 1
  }

  /** What is made, with the line that an early hunk has not reached yet, and the number of its lines. */
  ghost function Reached<T>(hs: seq<Hunk<T>>, old0: seq<T>): seq<T>
    requires Clean(hs, old0) && Pos(hs) <= LastB(hs) <= |old0|
  {
    Made(hs, old0) + old0[Pos(hs)..LastB(hs)]
  }

  /** The hunks apply to the old file, and make the new one exactly if they fit. */
  ghost predicate Exactly<T>(hs: seq<Hunk<T>>, old0: seq<T>, new0: seq<T>) {
    && Clean(hs, old0) && Pos(hs) <= LastB(hs) <= |old0| && LastD(hs) <= |new0| && |Reached(hs, old0)| == LastD(hs)
    && (Reached(hs, old0) == new0[..LastD(hs)] <==> Fits(hs, old0))
    && (Pos(hs) < LastB(hs) ==> hs != [] && Early(hs[|hs| - 1]))
  }

  /** Recognised hunks do. */
  lemma {:induction false} HunksApply<T>(hs: seq<Hunk<T>>, old0: seq<T>, new0: seq<T>, p: nat, q: nat)
    requires HunksTo(hs, old0, new0, p, q) && Spread(hs) && forall i :: 0 <= i < |hs| ==> Scanned(hs[i])
    ensures Exactly(hs, old0, new0) && Agree(old0, new0, LastB(hs), LastD(hs), p, q)
    decreases |hs|
  {
    hide Scanned, Shows, Early, Agree, HunksTo, Exactly;
    if hs == [] {
      NoHunksApply(hs, old0, new0, p, q);
    } else {
      var n := |hs| - 1;
      LastShown(hs, old0, new0, p, q);
      LastAgrees(hs, old0, new0, p, q);
      HunksApply(hs[..n], old0, new0, hs[n].lowa - 1, hs[n].lowc - 1);
      if Early(hs[n]) {
        EarlyStep(hs, old0, new0);
      } else {
        PlainStep(hs, old0, new0);
      }
    }
  }

  lemma PlainStep<T>(hs: seq<Hunk<T>>, old0: seq<T>, new0: seq<T>)
    requires hs != [] && Exactly(hs[..|hs| - 1], old0, new0) && Shows(hs[|hs| - 1], old0, new0)
    requires !Early(hs[|hs| - 1]) && Scanned(hs[|hs| - 1])
    requires var h, front := hs[|hs| - 1], hs[..|hs| - 1];
             Agree(old0, new0, LastB(front), LastD(front), h.lowa - 1, h.lowc - 1)
    ensures Exactly(hs, old0, new0)
  {
    hide OldSide, NewSide, Scanned, Shows, Harmless, Early, Fits, Agree, Clean, Made, Pos;
    var n := |hs| - 1;
    var h, front := hs[n], hs[..n];
    FitsSnoc(hs, old0);
    assert hs[..n + 1] == hs;
    CleanSnoc(hs, n, old0);
    EarlyEnds(front);
    HunkApplies(h, old0, new0, Made(front, old0), Pos(front), LastB(front), LastD(front));
    assert old0[h.upb..h.upb] == [] && Made(hs, old0) + [] == Made(hs, old0);
  }

  lemma EarlyStep<T>(hs: seq<Hunk<T>>, old0: seq<T>, new0: seq<T>)
    requires hs != [] && Exactly(hs[..|hs| - 1], old0, new0) && Shows(hs[|hs| - 1], old0, new0)
    requires Early(hs[|hs| - 1]) && Scanned(hs[|hs| - 1]) && Spread(hs)
    requires var h, front := hs[|hs| - 1], hs[..|hs| - 1];
             Agree(old0, new0, LastB(front), LastD(front), h.lowa - 1, h.lowc - 1)
    ensures Exactly(hs, old0, new0)
  {
    hide OldSide, NewSide, Scanned, Shows, Harmless, Early, Fits, Agree, Clean, Made, Pos;
    var n := |hs| - 1;
    var h, front := hs[n], hs[..n];
    FitsSnoc(hs, old0);
    assert hs[..n + 1] == hs;
    CleanSnoc(hs, n, old0);
    EarlyEnds(hs);
    EarlyApplies(h, old0, new0, Made(front, old0), Pos(front), LastB(front), LastD(front));
  }

  lemma NoHunksApply<T>(hs: seq<Hunk<T>>, old0: seq<T>, new0: seq<T>, p: nat, q: nat)
    requires hs == [] && HunksTo(hs, old0, new0, p, q)
    ensures Exactly(hs, old0, new0) && Agree(old0, new0, 0, 0, p, q)
  {
  }

  lemma LastAgrees<T>(hs: seq<Hunk<T>>, old0: seq<T>, new0: seq<T>, p: nat, q: nat)
    requires HunksTo(hs, old0, new0, p, q) && hs != []
    ensures Shows(hs[|hs| - 1], old0, new0) && Agree(old0, new0, LastB(hs), LastD(hs), p, q)
    ensures LastB(hs) <= p <= |old0| && LastD(hs) <= q <= |new0|
  {
    hide OldSide, NewSide;
  }

  lemma EarlyEnds<T>(hs: seq<Hunk<T>>)
    ensures hs != [] && Early(hs[|hs| - 1]) ==> LastD(hs) > 0 && 0 < LastB(hs) < hs[|hs| - 1].lowa
  {
  }

  lemma FitsSnoc<T>(hs: seq<Hunk<T>>, old0: seq<T>)
    requires hs != []
    ensures var n := |hs| - 1; Fits(hs, old0) <==> Fits(hs[..n], old0) && (Early(hs[n]) ==> Harmless(hs[n], old0))
  {
    hide Harmless, Early;
    var n := |hs| - 1;
    assert forall i :: 0 <= i < n ==> hs[..n][i] == hs[i];
  }

  /** The lines between the hunk before and this one, and the lines of the hunk. */
  lemma HunkApplies<T>(h: Hunk<T>, old0: seq<T>, new0: seq<T>, made: seq<T>, pos: nat, b: nat, d: nat)
    requires Shows(h, old0, new0) && !Early(h) && pos <= b <= |old0| && |made| + (b - pos) == d
    requires Agree(old0, new0, b, d, h.lowa - 1, h.lowc - 1) && (d == 0 ==> pos == b)
    ensures pos <= At(h, pos) <= |old0| && OldSide(h.lines) <= old0[At(h, pos)..]
    ensures At(h, pos) + |OldSide(h.lines)| == h.upb <= |old0| && h.upd <= |new0|
    ensures |made + old0[pos..At(h, pos)] + NewSide(h.lines)| == h.upd
    ensures made + old0[pos..At(h, pos)] + NewSide(h.lines) == new0[..h.upd] <==> made + old0[pos..b] == new0[..d]
  {
    hide OldSide, NewSide;
    AimedAt(h, old0, new0, pos, b, d);
    assert NewSide(h.lines) == new0[h.lowc - 1..h.upd];
    hide Shows, Early, At;
    PlainJoin(old0, new0, made, pos, b, d, h.lowa - 1, h.lowc - 1, h.upd);
  }

  lemma AimedAt<T>(h: Hunk<T>, old0: seq<T>, new0: seq<T>, pos: nat, b: nat, d: nat)
    requires Shows(h, old0, new0) && !Early(h) && pos <= b <= |old0|
    requires Agree(old0, new0, b, d, h.lowa - 1, h.lowc - 1) && (d == 0 ==> pos == b)
    ensures At(h, pos) == h.lowa - 1 && OldSide(h.lines) <= old0[h.lowa - 1..]
    ensures h.lowa - 1 + |OldSide(h.lines)| == h.upb
  {
    hide OldSide, NewSide, At, Early;
    AimedNumber(h, pos, b, d);
    SlicePrefix(old0, h.lowa - 1, h.upb);
  }

  lemma AimedNumber<T>(h: Hunk<T>, pos: nat, b: nat, d: nat)
    requires 1 <= h.lowa <= h.upb + 1 && 1 <= h.lowc <= h.upd + 1 && !Early(h)
    requires pos <= b <= h.lowa - 1 && d <= h.lowc - 1 && h.lowa - 1 - b == h.lowc - 1 - d && (d == 0 ==> pos == b)
    ensures At(h, pos) == h.lowa - 1
  {
  }

  lemma SlicePrefix<T>(s: seq<T>, i: nat, k: nat)
    requires i <= k <= |s|
    ensures s[i..k] <= s[i..] && |s[i..k]| == k - i
  {
    assert s[i..k] == s[i..][..k - i];
  }

  lemma PlainJoin<T>(old0: seq<T>, new0: seq<T>, made: seq<T>, pos: nat, b: nat, d: nat, u: nat, c: nat, e: nat)
    requires pos <= b <= u <= |old0| && |made| + (b - pos) == d && Agree(old0, new0, b, d, u, c) && c <= e <= |new0|
    ensures |made + old0[pos..u] + new0[c..e]| == e
    ensures made + old0[pos..u] + new0[c..e] == new0[..e] <==> made + old0[pos..b] == new0[..d]
  {
    var m, n := new0[d..c], new0[c..e];
    assert old0[pos..u] == old0[pos..b] + m;
    assert new0[..e] == new0[..d] + (m + n) by {
      SliceJoin(new0, 0, d, c);
      SliceJoin(new0, 0, c, e);
    }
    assert made + old0[pos..u] + n == made + old0[pos..b] + (m + n);
    SameTail(made + old0[pos..b], new0[..d], m + n);
  }

  lemma SameTail<T>(a: seq<T>, b: seq<T>, c: seq<T>)
    requires |a| == |b|
    ensures a + c == b + c <==> a == b
  {
    assert (a + c)[..|a|] == a && (b + c)[..|b|] == b;
  }

  /** Lines put in one line too early. */
  lemma EarlyApplies<T>(h: Hunk<T>, old0: seq<T>, new0: seq<T>, made: seq<T>, pos: nat, b: nat, d: nat)
    requires Shows(h, old0, new0) && Early(h) && pos <= b <= |old0| && |made| + (b - pos) == d && b < h.lowa - 1
    requires Agree(old0, new0, b, d, h.lowa - 1, h.lowc - 1)
    ensures pos <= At(h, pos) <= |old0| && OldSide(h.lines) == []
    ensures At(h, pos) == h.upb - 1 && h.upb <= |old0| && h.upd <= |new0|
    ensures |made + old0[pos..h.upb - 1] + NewSide(h.lines)| + 1 == h.upd
    ensures made + old0[pos..h.upb - 1] + NewSide(h.lines) + old0[h.upb - 1..h.upb] == new0[..h.upd] <==>
            made + old0[pos..b] == new0[..d] && Harmless(h, old0)
  {
    hide OldSide, NewSide;
    assert h.lowa == h.upb + 1 && OldSide(h.lines) == [] && NewSide(h.lines) == new0[h.lowc - 1..h.upd];
    hide Shows;
    EarlyJoin(old0, new0, made, pos, b, d, h.upb, h.lowc - 1, h.upd);
  }

  lemma EarlyJoin<T>(old0: seq<T>, new0: seq<T>, made: seq<T>, pos: nat, b: nat, d: nat, u: nat, c: nat, e: nat)
    requires pos <= b < u <= |old0| && |made| + (b - pos) == d && Agree(old0, new0, b, d, u, c) && c <= e <= |new0|
    ensures |made + old0[pos..u - 1] + new0[c..e]| + 1 == e
    ensures made + old0[pos..u - 1] + new0[c..e] + old0[u - 1..u] == new0[..e] <==>
            made + old0[pos..b] == new0[..d] && forall i :: 0 <= i < e - c ==> new0[c..e][i] == old0[u - 1]
  {
    var l, n, m := old0[u - 1], new0[c..e], old0[b..u - 1];
    var x, y := made + old0[pos..b], new0[..d];
    assert old0[u - 1..u] == [l] && old0[pos..u - 1] == old0[pos..b] + m && new0[d..c] == old0[b..u] == m + [l];
    assert new0[..e] == y + (m + ([l] + n)) by {
      SliceJoin(new0, 0, d, c);
      SliceJoin(new0, 0, c, e);
      assert y + (m + [l]) + n == y + (m + ([l] + n));
    }
    assert made + old0[pos..u - 1] + n + [l] == x + (m + (n + [l]));
    Commutes(x, y, m, l, n);
  }

  lemma Commutes<T>(x: seq<T>, y: seq<T>, m: seq<T>, l: T, n: seq<T>)
    requires |x| == |y|
    ensures x + (m + (n + [l])) == y + (m + ([l] + n)) <==> x == y && forall i :: 0 <= i < |n| ==> n[i] == l
  {
    var a, b := n + [l], [l] + n;
    if x + (m + a) == y + (m + b) {
      assert (x + (m + a))[..|x|] == x && (y + (m + b))[..|y|] == y;
      assert (x + (m + a))[|x| + |m|..] == a && (y + (m + b))[|y| + |m|..] == b;
      AllEqual(l, n);
    } else if forall i :: 0 <= i < |n| ==> n[i] == l {
      assert a == b;
    }
  }

  lemma AllEqual<T>(l: T, n: seq<T>)
    requires n + [l] == [l] + n
    ensures forall i :: 0 <= i < |n| ==> n[i] == l
  {
    var i := 0;
    while i < |n|
      invariant 0 <= i <= |n| && forall k :: 0 <= k < i ==> n[k] == l
    {
      assert (n + [l])[i] == n[i] && ([l] + n)[i] == if i == 0 then l else n[i - 1];
      i := i + 1;
    }
  }

  lemma {:induction false} AllShown<T>(hs: seq<Hunk<T>>, old0: seq<T>, new0: seq<T>, p: nat, q: nat, i: nat)
    requires HunksTo(hs, old0, new0, p, q) && i < |hs|
    ensures Shows(hs[i], old0, new0)
    decreases |hs|
  {
    hide Shows;
    var n := |hs| - 1;
    if i < n {
      LastShown(hs, old0, new0, p, q);
      AllShown(hs[..n], old0, new0, hs[n].lowa - 1, hs[n].lowc - 1, i);
    }
  }

  lemma LastShown<T>(hs: seq<Hunk<T>>, old0: seq<T>, new0: seq<T>, p: nat, q: nat)
    requires HunksTo(hs, old0, new0, p, q) && hs != []
    ensures var h := hs[|hs| - 1];
            1 <= h.lowa && 1 <= h.lowc && HunksTo(hs[..|hs| - 1], old0, new0, h.lowa - 1, h.lowc - 1)
  {
  }

  lemma SameFiles<T>(old0: seq<T>, new0: seq<T>)
    requires HunksTo([], old0, new0, |old0|, |new0|)
    ensures old0 == new0
  {
    assert old0[0..|old0|] == old0 && new0[0..|new0|] == new0;
  }

  /** Groups of changes far from each other make hunks with equal lines between them. */
  lemma CutSpread<T>(groups: seq<seq<Change>>, hs: seq<Hunk<T>>, rs: seq<Change>, old0: seq<T>, new0: seq<T>, context: nat)
    requires Cut(groups, hs, rs, old0, new0, context) && HunksTo(hs, old0, new0, |old0|, |new0|)
    ensures Spread(hs)
  {
    hide AllOf, HunksTo, Apart, GroupOk, HunkOf, Shows;
    forall i | 0 <= i < |hs|
      ensures hs[i].lowa <= hs[i].upb || hs[i].lowc <= hs[i].upd
    {
      AllShown(hs, old0, new0, |old0|, |new0|, i);
      GroupShows(groups[i], old0, new0, context);
    }
    forall i | 0 < i < |hs|
      ensures hs[i - 1].upb < hs[i].lowa - 1
    {
      assert Apart(groups, i, context);
      GroupGap(groups, i, old0, new0, context);
    }
  }

  lemma GroupGap<T>(groups: seq<seq<Change>>, i: nat, old0: seq<T>, new0: seq<T>, context: nat)
    requires 0 < i < |groups| && Apart(groups, i, context)
    requires GroupOk(groups[i - 1], |old0|, |new0|, context) && GroupOk(groups[i], |old0|, |new0|, context)
    ensures HunkOf(groups[i - 1], old0, new0, context).upb < HunkOf(groups[i], old0, new0, context).lowa - 1
  {
    hide Pieces, Lines;
  }

  lemma SidesShow<T>(ls: seq<HLine<T>>)
    requires ls != []
    ensures |OldSide(ls)| > 0 || |NewSide(ls)| > 0
  {
  }

  /** The hunk of a group shows some line. */
  lemma GroupShows<T>(g: seq<Change>, old0: seq<T>, new0: seq<T>, context: nat)
    requires GroupOk(g, |old0|, |new0|, context) && Shows(HunkOf(g, old0, new0, context), old0, new0)
    ensures var h := HunkOf(g, old0, new0, context); h.lowa <= h.upb || h.lowc <= h.upd
  {
    hide HunkOf, Shows;
    GroupLines(g, old0, new0, context);
    ShownLines(HunkOf(g, old0, new0, context), old0, new0);
  }

  lemma GroupLines<T>(g: seq<Change>, old0: seq<T>, new0: seq<T>, context: nat)
    requires GroupOk(g, |old0|, |new0|, context)
    ensures HunkOf(g, old0, new0, context).lines != []
  {
    hide Lines, Near;
  }

  lemma ShownLines<T>(h: Hunk<T>, old0: seq<T>, new0: seq<T>)
    requires Shows(h, old0, new0) && h.lines != []
    ensures h.lowa <= h.upb || h.lowc <= h.upd
  {
    hide OldSide, NewSide;
    SidesShow(h.lines);
  }

  lemma {:induction false} PrefixTo<T>(hs: seq<Hunk<T>>, old0: seq<T>, new0: seq<T>, p: nat, q: nat, k: nat)
    requires HunksTo(hs, old0, new0, p, q) && k < |hs|
    ensures 1 <= hs[k].lowa && 1 <= hs[k].lowc && HunksTo(hs[..k], old0, new0, hs[k].lowa - 1, hs[k].lowc - 1)
    decreases |hs|
  {
    hide Shows;
    var n := |hs| - 1;
    LastShown(hs, old0, new0, p, q);
    if k < n {
      PrefixTo(hs[..n], old0, new0, hs[n].lowa - 1, hs[n].lowc - 1, k);
      assert hs[..n][..k] == hs[..k] && hs[..n][k] == hs[k];
    }
  }

  /** Two different files of one line. */
  predicate Lost<T(==)>(old0: seq<T>, new0: seq<T>) {
    |old0| == 1 && |new0| == 1 && old0 != new0
  }

  /**
   When patch gets from the old file to the new one.  The hunks before the first header that is not
   recognised fit.  If one of them says where it starts, the rest of the old file is copied, so it must be
   the rest of the new one; otherwise nothing of it is copied, so nothing may be missing.
   */
  ghost predicate Applies<T>(hs: seq<Hunk<T>>, old0: seq<T>, new0: seq<T>) {
    var f := Recognised(hs);
    && Fits(f, old0) && LastB(f) <= |old0| && LastD(f) <= |new0|
    && if Placed(f) then old0[LastB(f)..] == new0[LastD(f)..] else LastD(f) == |new0|
  }

  /** The hunks that are recognised apply. */
  lemma RecognisedApply<T>(hs: seq<Hunk<T>>, old0: seq<T>, new0: seq<T>)
    requires HunksTo(hs, old0, new0, |old0|, |new0|) && Spread(hs)
    ensures var f := Recognised(hs); Exactly(f, old0, new0) && Clean(f, old0) && Spread(f)
    ensures Recognised(hs) == hs ==> Agree(old0, new0, LastB(hs), LastD(hs), |old0|, |new0|)
  {
    hide HunksTo, Scanned, Recognised, Agree, Clean, Fits, Early, Made, Pos;
    var k := |Recognised(hs)|;
    RecognisedAll(hs);
    RecognisedFront(hs, k);
    if k < |hs| {
      PrefixTo(hs, old0, new0, |old0|, |new0|, k);
      HunksApply(hs[..k], old0, new0, hs[k].lowa - 1, hs[k].lowc - 1);
    } else {
      assert hs[..k] == hs;
      HunksApply(hs, old0, new0, |old0|, |new0|);
    }
  }

  /** Without a hunk that says where it starts, none is early. */
  lemma UnplacedFits<T>(f: seq<Hunk<T>>, old0: seq<T>, new0: seq<T>)
    requires !Placed(f) && Exactly(f, old0, new0)
    ensures Fits(f, old0) && Pos(f) == LastB(f) && Made(f, old0) == new0[..LastD(f)]
  {
    hide Clean, Made, Pos, SrcBeg, DestBeg;
    assert forall i :: 0 <= i < |f| ==> !Early(f[i]);
    assert old0[Pos(f)..LastB(f)] == [] && Made(f, old0) + [] == Made(f, old0);
  }

  /** The result is the new file exactly under that condition. */
  lemma Outcome<T>(hs: seq<Hunk<T>>, old0: seq<T>, new0: seq<T>)
    requires Exactly(Recognised(hs), old0, new0)
    ensures var f := Recognised(hs);
            Made(f, old0) + (if Placed(f) then old0[Pos(f)..] else []) == new0 <==> Applies(hs, old0, new0)
  {
    hide Clean, Made, Pos, Placed, Recognised, Fits;
    var f := Recognised(hs);
    var made, pos, b, d := Made(f, old0), Pos(f), LastB(f), LastD(f);
    assert new0 == new0[..d] + new0[d..];
    if Placed(f) {
      assert made + old0[pos..] == Reached(f, old0) + old0[b..];
      SameParts(Reached(f, old0), new0[..d], old0[b..], new0[d..]);
    } else {
      UnplacedFits(f, old0, new0);
      assert made + [] == made;
    }
  }

  lemma SameParts<T>(a: seq<T>, b: seq<T>, c: seq<T>, d: seq<T>)
    requires |a| == |b|
    ensures a + c == b + d <==> a == b && c == d
  {
    assert (a + c)[..|a|] == a && (b + d)[..|b|] == b && (a + c)[|a|..] == c && (b + d)[|b|..] == d;
  }

  /** Then the file is removed only if it is empty. */
  lemma NotRemoved<T>(hs: seq<Hunk<T>>, old0: seq<T>, new0: seq<T>)
    requires HunksTo(hs, old0, new0, |old0|, |new0|) && Spread(hs) && Exactly(Recognised(hs), old0, new0)
    requires Applies(hs, old0, new0) && new0 != []
    ensures |Made(Recognised(hs), old0)| > 0 && (hs != [] ==> DestBeg(LastHeader(hs)) != 0)
  {
    hide Clean, Made, Pos, Placed, Recognised, Fits, HunksTo, OldSide, NewSide;
    var f := Recognised(hs);
    RecognisedAll(hs);
    if Placed(f) {
      PlacedLast(hs, f, old0, new0);
    } else {
      UnplacedFits(f, old0, new0);
    }
    if hs != [] {
      AllShown(hs, old0, new0, |old0|, |new0|, if |f| < |hs| then |f| else |hs| - 1);
    }
  }

  lemma PlacedLast<T>(hs: seq<Hunk<T>>, f: seq<Hunk<T>>, old0: seq<T>, new0: seq<T>)
    requires HunksTo(hs, old0, new0, |old0|, |new0|) && f <= hs && Spread(f) && Placed(f) && Exactly(f, old0, new0)
    ensures |Made(f, old0)| > 0 && LastD(f) > 0
  {
    hide Clean, Made, Pos, HunksTo, OldSide, NewSide, Fits, Shows, SrcBeg, DestBeg, Early;
    var i :| 0 <= i < |f| && SrcBeg(f[i]) != 0 && DestBeg(f[i]) != 0;
    var n := |f| - 1;
    assert f[i] == hs[i] && f[n] == hs[n];
    AllShown(hs, old0, new0, |old0|, |new0|, i);
    PlacedHunk(hs[i], old0, new0);
    LaterBelow(hs, old0, new0, |old0|, |new0|, i, n);
    if Pos(f) < LastB(f) {
      AllShown(hs, old0, new0, |old0|, |new0|, n);
      EarlyNew(hs[n], old0, new0);
      LastMade(f, old0);
    }
  }

  lemma PlacedHunk<T>(h: Hunk<T>, old0: seq<T>, new0: seq<T>)
    requires Shows(h, old0, new0) && DestBeg(h) != 0
    ensures h.upd > 0
  {
    hide OldSide, NewSide;
  }

  lemma EarlyNew<T>(h: Hunk<T>, old0: seq<T>, new0: seq<T>)
    requires Shows(h, old0, new0) && Early(h) && (h.lowa <= h.upb || h.lowc <= h.upd)
    ensures |NewSide(h.lines)| > 0
  {
    hide OldSide, NewSide;
  }

  lemma LastMade<T>(f: seq<Hunk<T>>, old0: seq<T>)
    requires f != [] && Clean(f, old0) && |NewSide(f[|f| - 1].lines)| > 0
    ensures |Made(f, old0)| > 0
  {
    hide OldSide, NewSide, Pos, Scanned;
  }

  lemma {:induction false} LaterBelow<T>(hs: seq<Hunk<T>>, old0: seq<T>, new0: seq<T>, p: nat, q: nat, i: nat, n: nat)
    requires HunksTo(hs, old0, new0, p, q) && i <= n < |hs|
    ensures hs[i].upd <= hs[n].upd
  {
    hide HunksTo, OldSide, NewSide;
    if i < n {
      LaterBelow(hs, old0, new0, p, q, i, n - 1);
      PrefixTo(hs, old0, new0, p, q, n);
      LastAgrees(hs[..n], old0, new0, hs[n].lowa - 1, hs[n].lowc - 1);
      AllShown(hs, old0, new0, p, q, n);
    }
  }

  /** With context, the hunks apply unless both files are single lines. */
  lemma ContextApplies<T>(hs: seq<Hunk<T>>, old0: seq<T>, new0: seq<T>, context: nat)
    requires HunksTo(hs, old0, new0, |old0|, |new0|) && Spread(hs) && old0 != [] && new0 != [] && hs != []
    requires context >= 1 && AllWide(hs, context, |old0|, |new0|)
    ensures Applies(hs, old0, new0) <==> !(|old0| == 1 && |new0| == 1)
  {
    hide HunksTo, OldSide, NewSide, Recognised, Fits, Exactly, Agree, Placed, Shows;
    RecognisedAll(hs);
    RecognisedApply(hs, old0, new0);
    if |old0| == 1 && |new0| == 1 {
      SingleLines(hs, old0, new0);
      NothingPlaced<T>();
    } else {
      AllScanned(hs, |old0|, |new0|);
      assert Recognised(hs) == hs;
      NoneEarly(hs, old0);
      PlacedFirst(hs, old0, new0);
      AgreesToEnd(old0, new0, LastB(hs), LastD(hs));
    }
  }

  lemma NothingPlaced<T>()
    ensures !Placed<T>([])
  {
  }

  lemma NoneEarly<T>(hs: seq<Hunk<T>>, old0: seq<T>)
    requires forall i :: 0 <= i < |hs| ==> hs[i].lowa <= hs[i].upb || SrcBeg(hs[i]) == 0 || DestBeg(hs[i]) == 0
    ensures Fits(hs, old0)
  {
  }

  /** Between two different files of one line the first header is not scanned. */
  lemma SingleLines<T>(hs: seq<Hunk<T>>, old0: seq<T>, new0: seq<T>)
    requires HunksTo(hs, old0, new0, 1, 1) && |old0| == 1 && |new0| == 1 && hs != [] && Wide(hs[0], 1, 1)
    ensures !Scanned(hs[0])
  {
    hide HunksTo, OldSide, NewSide;
    AllShown(hs, old0, new0, 1, 1, 0);
  }

  lemma AllScanned<T>(hs: seq<Hunk<T>>, n: nat, m: nat)
    requires (forall i :: 0 <= i < |hs| ==> Wide(hs[i], n, m)) && !(n == 1 && m == 1)
    ensures forall i :: 0 <= i < |hs| ==> hs[i].lowa <= hs[i].upb && hs[i].lowc <= hs[i].upd && Scanned(hs[i])
  {
  }

  lemma AgreesToEnd<T>(old0: seq<T>, new0: seq<T>, b: nat, d: nat)
    requires Agree(old0, new0, b, d, |old0|, |new0|)
    ensures b <= |old0| && d <= |new0| && old0[b..] == new0[d..] && |old0| - b == |new0| - d
  {
    assert old0[b..|old0|] == old0[b..] && new0[d..|new0|] == new0[d..];
  }

  lemma PlacedFirst<T>(hs: seq<Hunk<T>>, old0: seq<T>, new0: seq<T>)
    requires hs != [] && HunksTo(hs, old0, new0, |old0|, |new0|)
    requires forall i :: 0 <= i < |hs| ==> hs[i].lowa <= hs[i].upb && hs[i].lowc <= hs[i].upd
    ensures Placed(hs)
  {
    hide HunksTo, OldSide, NewSide;
    AllShown(hs, old0, new0, |old0|, |new0|, 0);
    assert SrcBeg(hs[0]) != 0 && DestBeg(hs[0]) != 0;
  }

  /** From or to an empty file the hunks apply. */
  lemma EmptyApplies<T>(hs: seq<Hunk<T>>, old0: seq<T>, new0: seq<T>)
    requires HunksTo(hs, old0, new0, |old0|, |new0|) && Spread(hs) && (old0 == [] || new0 == [])
    ensures Applies(hs, old0, new0)
  {
    hide HunksTo, OldSide, NewSide, Recognised, Fits, Exactly, Agree;
    RecognisedAll(hs);
    RecognisedApply(hs, old0, new0);
    forall i | 0 <= i < |hs|
      ensures Scanned(hs[i]) && (SrcBeg(hs[i]) == 0 || DestBeg(hs[i]) == 0)
    {
      AllShown(hs, old0, new0, |old0|, |new0|, i);
    }
    assert Recognised(hs) == hs;
    NoneEarly(hs, old0);
    AgreesToEnd(old0, new0, LastB(hs), LastD(hs));
  }

  /** Without context a line put in behind another goes in front of it. */
  lemma ContextZero()
    ensures var hs := [Hunk(3, 2, 3, 3, [Add(3)])];
            HunksTo(hs, [1, 2], [1, 2, 3], 2, 3) && !Applies(hs, [1, 2], [1, 2, 3])
  {
    var h := Hunk(3, 2, 3, 3, [Add(3)]);
    var hs := [h];
    assert Scanned(h) && hs[1..] == [] && Recognised(hs) == [h] + Recognised([]);
    assert hs[..0] == [] && [1, 2][2..2] == [] && [1, 2, 3][3..3] == [] && [1, 2][0..2] == [1, 2, 3][0..2];
    assert h.lines[..0] == [] && OldSide(h.lines) == [] && NewSide(h.lines) == [3];
    assert [1, 2, 3][2..3] == [3];
    assert NewSide(hs[0].lines)[0] == 3 && [1, 2][1] == 2;
    assert Early(hs[0]) && !Harmless(hs[0], [1, 2]);
  }

  /** What patch leaves for hunks that apply: what they make, and the rest of the file if one says where it starts. */
  ghost function Left<T>(hs: seq<Hunk<T>>, old0: seq<T>): seq<T>
    requires Clean(Recognised(hs), old0)
  {
    var f := Recognised(hs);
    Made(f, old0) + (if Placed(f) then old0[Pos(f)..] else [])
  }

  /** patch removes the file if nothing was made, or if the last header it read starts at line 0. */
  ghost predicate Emptied<T>(hs: seq<Hunk<T>>, old0: seq<T>)
    requires Clean(Recognised(hs), old0) && hs != []
  {
    Made(Recognised(hs), old0) == [] || DestBeg(LastHeader(hs)) == 0
  }

  /**
   patch on the text of any hunks that lead from the old file to the new one.  No hunk fails; what is left
   is known exactly, and it is the new file if and only if the hunks apply.
   */
  method PatchText<T(==)>(patch: seq<PLine<T>>, old0: seq<T>, unset: nat, ghost hs: seq<Hunk<T>>, ghost new0: seq<T>)
    returns (result: seq<T>, ok: bool, removed: bool)
    requires patch == AllText(hs) && hs != [] && HunksTo(hs, old0, new0, |old0|, |new0|) && Spread(hs)
    ensures ok && Clean(Recognised(hs), old0) && result == Left(hs, old0) && (removed <==> Emptied(hs, old0))
    ensures (result == new0 && (removed ==> new0 == [])) <==> Applies(hs, old0, new0)
  {
    hide HunksTo, Clean, Made, Pos, AllText, Recognised, Applies, Spread, Exactly, Placed, DestBeg, LastHeader;
    RecognisedApply(hs, old0, new0);
    Outcome(hs, old0, new0);
    var patcher := new Patcher(old0, unset);
    var died := patcher.PatchFile(patch, hs);
    if Applies(hs, old0, new0) && new0 != [] {
      NotRemoved(hs, old0, new0);
    }
    ok := !died && patcher.badHunks == 0;
    result := patcher.dst;
    removed := ok && (patcher.destCurLine == 0 || patcher.destBegLine == 0);
  }

  /**
   Diff and then patch, for any two files and any context.  No hunk that diff prints fails; the result is the
   new file exactly if the hunks of the run apply.  With context, or if a file is empty, that is unless
   the files are two different single lines: then the file is removed.
   */
  method DiffThenPatch<T(==)>(old0: seq<T>, new0: seq<T>, context: nat, h: T -> int, bound: nat, unset: nat)
    returns (patch: seq<PLine<T>>, result: seq<T>, ok: bool, removed: bool, ghost run: Run<T>)
    requires forall t :: h(t) != 0
    ensures ok && patch == AllText(run.hunks) && Sound(run, old0, new0, context)
    ensures old0 == new0 ==> patch == [] && result == old0 && !removed
    ensures old0 != new0 ==>
              && run.hunks != [] && Clean(Recognised(run.hunks), old0)
              && result == Left(run.hunks, old0) && (removed <==> Emptied(run.hunks, old0))
    ensures (result == new0 && (removed ==> new0 == [])) <==> old0 == new0 || Applies(run.hunks, old0, new0)
    ensures context >= 1 || old0 == [] || new0 == [] ==>
              ((result == new0 && (removed ==> new0 == [])) <==> !Lost(old0, new0))
    ensures context >= 1 && Lost(old0, new0) ==> removed && result == []
  {
    hide HunksTo, Clean, Made, Pos, AllText, Recognised, Applies, Spread, Placed, Sound, DestBeg, LastHeader, Minimal;
    patch, run := Diff(old0, new0, context, h, bound);
    if old0 == new0 {
      return patch, old0, true, false, run;
    }
    SoundHunks(run, old0, new0, context);
    result, ok, removed := PatchText(patch, old0, unset, run.hunks, new0);
    WhenContext(run.hunks, old0, new0, context);
  }

  lemma SoundHunks<T>(run: Run<T>, old0: seq<T>, new0: seq<T>, context: nat)
    requires Sound(run, old0, new0, context) && old0 != new0
    ensures run.hunks != [] && HunksTo(run.hunks, old0, new0, |old0|, |new0|) && Spread(run.hunks)
    ensures AllWide(run.hunks, context, |old0|, |new0|)
  {
    hide HunksTo, Spread, Cut, Covers, Divides, Matching, AllWide;
    CutSpread(run.groups, run.hunks, run.records, old0, new0, context);
    if run.hunks == [] {
      SameFiles(old0, new0);
    }
  }

  lemma WhenContext<T>(hs: seq<Hunk<T>>, old0: seq<T>, new0: seq<T>, context: nat)
    requires HunksTo(hs, old0, new0, |old0|, |new0|) && Spread(hs) && hs != [] && old0 != new0
    requires AllWide(hs, context, |old0|, |new0|) && Clean(Recognised(hs), old0)
    ensures context >= 1 || old0 == [] || new0 == [] ==> (Applies(hs, old0, new0) <==> !Lost(old0, new0))
    ensures context >= 1 && Lost(old0, new0) ==> Made(Recognised(hs), old0) == [] && !Placed(Recognised(hs))
  {
    hide HunksTo, Spread, Applies, Scanned;
    if old0 == [] || new0 == [] {
      EmptyApplies(hs, old0, new0);
    } else if context >= 1 {
      ContextApplies(hs, old0, new0, context);
      if Lost(old0, new0) {
        SingleLines(hs, old0, new0);
      }
    }
  }
}
