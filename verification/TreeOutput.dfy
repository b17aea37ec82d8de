/** Scanning and sending the code lengths of a tree (archival/gzip.c, scan_tree and send_tree). */
module TreeOutput {
  import opened Words
  import opened Bits
  import opened Canonical
  import opened Tables
  import opened RunLengths
  import opened BitOutput
  import opened GenCodes

  /** Frequencies with every symbol of rs counted. */
  function Tallied(f: seq<nat>, rs: seq<Run>): (r: seq<nat>)
    requires |f| >= BL_CODES && RunsOk(rs)
    ensures |r| == |f|
  {
    if rs == [] then f
    else
      var prev := Tallied(f, rs[..|rs| - 1]);
      var s := rs[|rs| - 1].symbol;
      prev[s := prev[s] + 1]
  }

  lemma TalliedSnoc(f: seq<nat>, rs: seq<Run>, r: Run)
    requires |f| >= BL_CODES && RunsOk(rs) && RunOk(r)
    ensures RunsOk(rs + [r])
    ensures Tallied(f, rs + [r]) == Tallied(f, rs)[r.symbol := Tallied(f, rs)[r.symbol] + 1]
  {
    hide Pow2;
    assert (rs + [r])[..|rs|] == rs;
  }

  lemma {:induction false} TalliedCopies(f: seq<nat>, rs: seq<Run>, v: nat, k: nat)
    requires |f| >= BL_CODES && RunsOk(rs) && v < 16
    ensures RunsOk(rs + seq(k, _ => Run(v, 0)))
    ensures Tallied(f, rs + seq(k, _ => Run(v, 0))) == Tallied(f, rs)[v := Tallied(f, rs)[v] + k]
  {
    hide Tallied, Pow2;
    SmallPowers();
    var t := Tallied(f, rs);
    if k == 0 {
      assert rs + seq(0, _ => Run(v, 0)) == rs;
      assert t[v := t[v] + 0] == t;
    } else {
      TalliedCopies(f, rs, v, k - 1);
      var prev := rs + seq(k - 1, _ => Run(v, 0));
      TalliedSnoc(f, prev, Run(v, 0));
      assert rs + seq(k, _ => Run(v, 0)) == prev + [Run(v, 0)];
      assert t[v := t[v] + (k - 1)][v := t[v] + k] == t[v := t[v] + k];
    }
  }

  /** A finished run is within the limits of its symbols. */
  ghost predicate Finished(s: Rle, curlen: nat) {
    && RunsOk(s.out) && curlen < 16 && s.count + 1 <= MaxCount(s.prevlen, curlen)
    && s.minCount == MinCount(s.prevlen, curlen)
  }

  lemma StateFinished(lens: seq<nat>, n: nat)
    requires n < |lens| && forall i :: 0 <= i < |lens| ==> lens[i] <= MAX_BITS
    ensures Finished(RleTo(lens, n), lens[n])
  {
    hide RleTo, Unroll, Unrolls;
    RleToOk([], lens, n);
  }

  /** The part of scan_tree that counts the symbols of a finished run. */
  method TallyRun(blFreq: array<nat>, curlen: nat, prevlen: int, count: nat, minCount: nat,
                  ghost f: seq<nat>, ghost s: Rle)
    requires blFreq.Length == |f| >= BL_CODES && Finished(s, curlen)
    requires prevlen == s.prevlen && count == s.count + 1 && minCount == s.minCount
    requires blFreq[..] == Tallied(f, s.out)
    modifies blFreq
    ensures RunsOk(s.out + Emit(curlen, prevlen, count, minCount))
    ensures blFreq[..] == Tallied(f, s.out + Emit(curlen, prevlen, count, minCount))
  {
    hide Tallied, Pow2;
    SmallPowers();
    if count < minCount {
      TalliedCopies(f, s.out, curlen, count);
      blFreq[curlen] := blFreq[curlen] + count;
    } else if curlen != 0 {
      ghost var out := s.out;
      if curlen != prevlen {
        TalliedSnoc(f, out, Run(curlen, 0));
        blFreq[curlen] := blFreq[curlen] + 1;
        out := out + [Run(curlen, 0)];
        assert out + [Run(REP_3_6, count - 4)] == s.out + Emit(curlen, prevlen, count, minCount);
        TalliedSnoc(f, out, Run(REP_3_6, count - 4));
      } else {
        TalliedSnoc(f, out, Run(REP_3_6, count - 3));
      }
      blFreq[REP_3_6] := blFreq[REP_3_6] + 1;
    } else if count <= 10 {
      TalliedSnoc(f, s.out, Run(REPZ_3_10, count - 3));
      blFreq[REPZ_3_10] := blFreq[REPZ_3_10] + 1;
    } else {
      TalliedSnoc(f, s.out, Run(REPZ_11_138, count - 11));
      blFreq[REPZ_11_138] := blFreq[REPZ_11_138] + 1;
    }
  }

  /** scan_tree counts the symbols that send_tree will send, and puts a guard after the lengths. */
  method ScanTree(dl: array<nat>, maxCode: nat, blFreq: array<nat>)
    requires dl != blFreq && maxCode + 1 < dl.Length && BL_CODES <= blFreq.Length
    requires forall i :: 0 <= i <= maxCode ==> dl[i] <= MAX_BITS
    modifies dl, blFreq
    ensures dl[..] == old(dl[..])[maxCode + 1 := GUARD]
    ensures RunsOk(Runs(dl[..maxCode + 1])) && blFreq[..] == Tallied(old(blFreq[..]), Runs(dl[..maxCode + 1]))
  {
    hide RleTo, Tallied, Emit;
    ghost var f, lens := blFreq[..], dl[..maxCode + 1];
    RleStart(lens);
    TalliedNone(f);
    ghost var out: seq<Run> := [];
    var prevlen: int, nextlen, count, maxCount, minCount := -1, dl[0], 0, 7, 4;
    if nextlen == 0 {
      maxCount, minCount := 138, 3;
    }
    dl[maxCode + 1] := GUARD;
    for n := 0 to maxCode + 1
      invariant dl[..] == old(dl[..])[maxCode + 1 := GUARD] && nextlen == LenAt(lens, n)
      invariant Rle(out, prevlen, count, maxCount, minCount) == RleTo(lens, n)
      invariant RunsOk(out) && blFreq[..] == Tallied(f, out)
    {
      RleNext(lens, n);
      StateFinished(lens, n);
      ghost var s := RleTo(lens, n);
      var curlen := nextlen;
      nextlen := dl[n + 1];
      count := count + 1;
      if count < maxCount && curlen == nextlen {
        continue;
      }
      TallyRun(blFreq, curlen, prevlen, count, minCount, f, s);
      out := out + Emit(curlen, prevlen, count, minCount);
      count, prevlen := 0, curlen;
      if nextlen == 0 {
        maxCount, minCount := 138, 3;
      } else if curlen == nextlen {
        maxCount, minCount := 6, 3;
      } else {
        maxCount, minCount := 7, 4;
      }
    }
  }

  lemma RleStart(lens: seq<nat>)
    ensures RleTo(lens, 0) == Rle([], -1, 0, MaxCount(-1, LenAt(lens, 0)), MinCount(-1, LenAt(lens, 0)))
  {
  }

  lemma RleNext(lens: seq<nat>, n: nat)
    requires n < |lens|
    ensures RleTo(lens, n + 1) == RleStep(RleTo(lens, n), lens[n], LenAt(lens, n + 1))
  {
  }

  lemma TalliedNone(f: seq<nat>)
    requires |f| >= BL_CODES
    ensures Tallied(f, []) == f
  {
  }

  /** The arrays hold the lengths and codes of a tree. */
  ghost predicate TreeIn(dl: seq<nat>, code: seq<nat>, lens: seq<nat>) {
    |lens| <= |dl| && dl[..|lens|] == lens && IsCode(lens) && CodesSet(code, lens, |lens|)
  }

  /** send_code. */
  method SendCode(w: BitWriter, c: nat, dl: array<nat>, code: array<nat>, ghost lens: seq<nat>)
    requires w.Valid() && TreeIn(dl[..], code[..], lens) && HasCode(lens, c)
    modifies w, w.outbuf
    ensures w.Valid() && w.Emitted() == old(w.Emitted()) + CodeBits(lens, c)
  {
    hide IsCode, Canon, Rev, Low, Msb;
    assert dl[c] == dl[..][..|lens|][c] && code[c] == code[..][c];
    LowOfRev(Canon(lens, c), lens[c]);
    RevBelow(Canon(lens, c), lens[c]);
    w.SendBits(code[c], dl[c]);
  }

  lemma PlainRun(v: nat, bl: seq<nat>)
    requires v < 16 && HasCode(bl, v)
    ensures RunOk(Run(v, 0)) && RunBits(Run(v, 0), bl) == CodeBits(bl, v)
  {
    hide CodeBits;
    assert CodeBits(bl, v) + [] == CodeBits(bl, v);
  }

  /** w has sent the symbols rs since it had sent `start`. */
  ghost predicate SentRuns(w: BitWriter, start: seq<bool>, rs: seq<Run>, bl: seq<nat>)
    requires w.Valid()
    reads w, w.outbuf
  {
    RunsCodable(rs, bl) && w.Emitted() == start + RunsBits(rs, bl)
  }

  method SendLength(w: BitWriter, v: nat, dl: array<nat>, code: array<nat>,
                    ghost bl: seq<nat>, ghost start: seq<bool>, ghost rs: seq<Run>)
    requires w.Valid() && TreeIn(dl[..], code[..], bl) && v < 16 && HasCode(bl, v) && SentRuns(w, start, rs, bl)
    modifies w, w.outbuf
    ensures w.Valid() && SentRuns(w, start, rs + [Run(v, 0)], bl)
  {
    hide TreeIn, CodeBits, RunsBits, RunBits;
    PlainRun(v, bl);
    RunsSnoc(rs, Run(v, 0), bl);
    SendCode(w, v, dl, code, bl);
  }

  /** A repeat symbol, with the number of repeats in its extra bits. */
  method SendRepeat(w: BitWriter, symbol: nat, value: nat, extra: nat, dl: array<nat>, code: array<nat>,
                    ghost bl: seq<nat>, ghost start: seq<bool>, ghost rs: seq<Run>)
    requires w.Valid() && TreeIn(dl[..], code[..], bl) && HasCode(bl, symbol) && SentRuns(w, start, rs, bl)
    requires REP_3_6 <= symbol < BL_CODES && extra == EXTRA_BLBITS[symbol] && value < Pow2(extra)
    modifies w, w.outbuf
    ensures w.Valid() && SentRuns(w, start, rs + [Run(symbol, value)], bl)
  {
    hide TreeIn, CodeBits, Low, RunsBits;
    RunsSnoc(rs, Run(symbol, value), bl);
    SendCode(w, symbol, dl, code, bl);
    w.SendBits(value, extra);
  }

  /** The part of send_tree that sends a finished run. */
  method SendFinished(w: BitWriter, curlen: nat, prevlen: int, length: nat, minCount: nat,
                      dl: array<nat>, code: array<nat>, ghost bl: seq<nat>, ghost start: seq<bool>, ghost s: Rle)
    requires w.Valid() && TreeIn(dl[..], code[..], bl) && Finished(s, curlen) && SentRuns(w, start, s.out, bl)
    requires prevlen == s.prevlen && length == s.count + 1 && minCount == s.minCount
    requires RunsCodable(Emit(curlen, prevlen, length, minCount), bl)
    modifies w, w.outbuf
    ensures w.Valid() && SentRuns(w, start, s.out + Emit(curlen, prevlen, length, minCount), bl)
  {
    hide TreeIn, SentRuns, Pow2;
    SmallPowers();
    ghost var piece := Emit(curlen, prevlen, length, minCount);
    var count: int := length;
    if count < minCount {
      SendCopies(w, curlen, length, dl, code, bl, start, s.out);
    } else if curlen != 0 {
      ghost var out := s.out;
      if curlen != prevlen {
        assert HasCode(bl, piece[0].symbol) && HasCode(bl, piece[1].symbol);
        SendLength(w, curlen, dl, code, bl, start, out);
        out := out + [Run(curlen, 0)];
        count := count - 1;
      } else {
        assert HasCode(bl, piece[0].symbol);
      }
      SendRepeat(w, REP_3_6, count - 3, 2, dl, code, bl, start, out);
      assert out + [Run(REP_3_6, count - 3)] == s.out + piece;
    } else if count <= 10 {
      assert HasCode(bl, piece[0].symbol);
      SendRepeat(w, REPZ_3_10, count - 3, 3, dl, code, bl, start, s.out);
    } else {
      assert HasCode(bl, piece[0].symbol);
      SendRepeat(w, REPZ_11_138, count - 11, 7, dl, code, bl, start, s.out);
    }
  }

  method SendCopies(w: BitWriter, v: nat, length: nat, dl: array<nat>, code: array<nat>,
                    ghost bl: seq<nat>, ghost start: seq<bool>, ghost rs: seq<Run>)
    requires w.Valid() && TreeIn(dl[..], code[..], bl) && v < 16 && 1 <= length && SentRuns(w, start, rs, bl)
    requires RunsCodable(seq(length, _ => Run(v, 0)), bl)
    modifies w, w.outbuf
    ensures w.Valid() && SentRuns(w, start, rs + seq(length, _ => Run(v, 0)), bl)
  {
    hide TreeIn, SentRuns, Pow2;
    assert HasCode(bl, seq(length, _ => Run(v, 0))[0].symbol);
    var count := length;
    ghost var sent := 0;
    assert rs + seq(0, _ => Run(v, 0)) == rs;
    while true
      invariant w.Valid() && 1 <= count && sent + count == length
      invariant SentRuns(w, start, rs + seq(sent, _ => Run(v, 0)), bl)
      decreases count
    {
      SendLength(w, v, dl, code, bl, start, rs + seq(sent, _ => Run(v, 0)));
      assert rs + seq(sent, _ => Run(v, 0)) + [Run(v, 0)] == rs + seq(sent + 1, _ => Run(v, 0));
      count, sent := count - 1, sent + 1;
      if count == 0 {
        break;
      }
    }
  }

  lemma {:induction false} RleGrows(lens: seq<nat>, n: nat, k: nat)
    requires n <= k <= |lens|
    ensures RleTo(lens, n).out <= RleTo(lens, k).out
  {
    hide Emit;
    if n < k {
      RleGrows(lens, n, k - 1);
    }
  }

  /** The symbols of a finished run are among those of the whole tree. */
  lemma PieceCodable(lens: seq<nat>, n: nat, bl: seq<nat>)
    requires n < |lens| && RunsCodable(Runs(lens), bl)
    requires var s := RleTo(lens, n); !(s.count + 1 < s.maxCount && lens[n] == LenAt(lens, n + 1))
    ensures var s := RleTo(lens, n); RunsCodable(Emit(lens[n], s.prevlen, s.count + 1, s.minCount), bl)
  {
    hide RleTo, Emit;
    var s := RleTo(lens, n);
    var piece, runs := Emit(lens[n], s.prevlen, s.count + 1, s.minCount), Runs(lens);
    RleNext(lens, n);
    RleGrows(lens, n + 1, |lens|);
    assert s.out + piece <= runs;
    forall i | 0 <= i < |piece|
      ensures RunOk(piece[i]) && HasCode(bl, piece[i].symbol)
    {
      assert piece[i] == runs[|s.out| + i];
    }
  }

  /** send_tree sends the symbols for the lengths. */
  method SendTree(w: BitWriter, tree: array<nat>, maxCode: nat, dl: array<nat>, code: array<nat>, ghost bl: seq<nat>)
    requires w.Valid() && TreeIn(dl[..], code[..], bl) && maxCode + 1 < tree.Length && tree[maxCode + 1] == GUARD
    requires forall i :: 0 <= i <= maxCode ==> tree[i] <= MAX_BITS
    requires RunsCodable(Runs(tree[..maxCode + 1]), bl)
    modifies w, w.outbuf
    ensures w.Valid() && w.Emitted() == old(w.Emitted()) + RunsBits(Runs(tree[..maxCode + 1]), bl)
  {
    hide RleTo, Emit, SentRuns, TreeIn, RunsCodable;
    ghost var lens, start := tree[..maxCode + 1], w.Emitted();
    RleStart(lens);
    ghost var out: seq<Run> := [];
    NoneSent(w, bl);
    var prevlen: int, nextlen, count, maxCount, minCount := -1, tree[0], 0, 7, 4;
    if nextlen == 0 {
      maxCount, minCount := 138, 3;
    }
    for n := 0 to maxCode + 1
      invariant w.Valid() && nextlen == LenAt(lens, n) && SentRuns(w, start, out, bl)
      invariant Rle(out, prevlen, count, maxCount, minCount) == RleTo(lens, n)
    {
      RleNext(lens, n);
      StateFinished(lens, n);
      ghost var s := RleTo(lens, n);
      var curlen := nextlen;
      nextlen := tree[n + 1];
      count := count + 1;
      if count < maxCount && curlen == nextlen {
        continue;
      }
      PieceCodable(lens, n, bl);
      SendFinished(w, curlen, prevlen, count, minCount, dl, code, bl, start, s);
      out := out + Emit(curlen, prevlen, count, minCount);
      count, prevlen := 0, curlen;
      if nextlen == 0 {
        maxCount, minCount := 138, 3;
      } else if curlen == nextlen {
        maxCount, minCount := 6, 3;
      } else {
        maxCount, minCount := 7, 4;
      }
    }
    RunsSent(w, start, out, bl);
  }

  lemma NoneSent(w: BitWriter, bl: seq<nat>)
    requires w.Valid()
    ensures SentRuns(w, w.Emitted(), [], bl)
  {
    assert w.Emitted() + [] == w.Emitted();
  }

  lemma RunsSent(w: BitWriter, start: seq<bool>, rs: seq<Run>, bl: seq<nat>)
    requires w.Valid() && SentRuns(w, start, rs, bl)
    ensures RunsCodable(rs, bl) && w.Emitted() == start + RunsBits(rs, bl)
  {
  }
}
