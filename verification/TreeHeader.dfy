/**
 The header of a block with dynamic codes (archival/gzip.c, send_all_trees), and that it decodes
 to the two lists of code lengths.
 */
module TreeHeader {
  import opened Words
  import opened Bits
  import opened Options
  import opened Canonical
  import opened Tables
  import opened Inflate
  import opened TextCoding
  import opened RunLengths
  import opened BitOutput
  import opened TreeOutput

  /** The place of each code length symbol in BL_ORDER. */
  const BL_INDEX: seq<nat> := [3, 17, 15, 13, 11, 9, 7, 5, 4, 6, 8, 10, 12, 14, 16, 18, 0, 1, 2]

  lemma OrderInverse(i: nat)
    requires i < BL_CODES
    ensures BL_INDEX[i] < BL_CODES && BL_ORDER[BL_INDEX[i]] == i
    ensures BL_ORDER[i] < BL_CODES && BL_INDEX[BL_ORDER[i]] == i
  {
  }

  /** Lengths of the code length code that need no more than n entries of the header. */
  predicate BlFits(bl: seq<nat>, n: nat) {
    && |bl| == BL_CODES && n <= BL_CODES && (forall i :: 0 <= i < BL_CODES ==> bl[i] < 8)
    && forall i :: 0 <= i < BL_CODES ==> BL_INDEX[i] < n || bl[i] == 0
  }

  /** Three bits for each of the n first entries. */
  function BlBits(bl: seq<nat>, rank: nat, n: nat): (r: seq<bool>)
    requires |bl| == BL_CODES && rank <= n <= BL_CODES
    ensures |r| == 3 * (n - rank)
    decreases n - rank
  {
    if rank == n then [] else Low(bl[BL_ORDER[rank]], 3) + BlBits(bl, rank + 1, n)
  }

  lemma {:induction false} BlSnoc(bl: seq<nat>, rank: nat, n: nat)
    requires |bl| == BL_CODES && rank <= n < BL_CODES
    ensures BlBits(bl, rank, n + 1) == BlBits(bl, rank, n) + Low(bl[BL_ORDER[n]], 3)
    decreases n - rank
  {
    hide Low;
    if rank < n {
      BlSnoc(bl, rank + 1, n);
    } else {
      assert BlBits(bl, n, n + 1) == Low(bl[BL_ORDER[n]], 3) + BlBits(bl, n + 1, n + 1);
    }
  }

  /** The entries read so far. */
  function BlPart(bl: seq<nat>, rank: nat): (r: seq<nat>)
    requires |bl| == BL_CODES
    ensures |r| == BL_CODES
  {
    seq(BL_CODES, i requires 0 <= i < BL_CODES => if BL_INDEX[i] < rank then bl[i] else 0)
  }

  lemma BlPartNext(bl: seq<nat>, rank: nat)
    requires |bl| == BL_CODES && rank < BL_CODES
    ensures BL_ORDER[rank] < BL_CODES && BlPart(bl, rank + 1) == BlPart(bl, rank)[BL_ORDER[rank] := bl[BL_ORDER[rank]]]
  {
    OrderInverse(rank);
    var a, b := BlPart(bl, rank + 1), BlPart(bl, rank)[BL_ORDER[rank] := bl[BL_ORDER[rank]]];
    forall i | 0 <= i < BL_CODES
      ensures a[i] == b[i]
    {
      OrderInverse(i);
    }
  }

  lemma {:induction false} ReadBlBack(bl: seq<nat>, rank: nat, n: nat, rest: seq<bool>)
    requires BlFits(bl, n) && rank <= n
    ensures ReadBl(BlBits(bl, rank, n) + rest, rank, n, BlPart(bl, rank)) == Some(Parsed(bl, rest))
    decreases n - rank
  {
    hide Low, BlPart, TakeBits, Pow2;
    if rank == n {
      BlPartAll(bl, n);
      assert BlBits(bl, rank, n) + rest == rest;
    } else {
      OrderInverse(rank);
      SmallPowers();
      var tail := BlBits(bl, rank + 1, n) + rest;
      assert BlBits(bl, rank, n) + rest == Low(bl[BL_ORDER[rank]], 3) + tail;
      TakeLow(bl[BL_ORDER[rank]], 3, tail);
      BlPartNext(bl, rank);
      ReadBlBack(bl, rank + 1, n, rest);
    }
  }

  lemma BlPartAll(bl: seq<nat>, n: nat)
    requires BlFits(bl, n)
    ensures BlPart(bl, n) == bl
  {
  }

  lemma BlPartNone(bl: seq<nat>)
    requires |bl| == BL_CODES
    ensures BlPart(bl, 0) == Copies(0, BL_CODES)
  {
  }

  /** What a block header may hold. */
  predicate HeaderOk(llens: seq<nat>, dlens: seq<nat>, bl: seq<nat>, blcodes: nat) {
    && 257 <= |llens| <= L_CODES && 1 <= |dlens| <= D_CODES && 4 <= blcodes
    && BlFits(bl, blcodes) && IsCode(bl)
    && (forall i :: 0 <= i < |llens| ==> llens[i] <= MAX_BITS)
    && (forall i :: 0 <= i < |dlens| ==> dlens[i] <= MAX_BITS)
    && RunsCodable(Runs(llens), bl) && RunsCodable(Runs(dlens), bl)
  }

  function HeaderCounts(lcodes: nat, dcodes: nat, blcodes: nat): seq<bool>
    requires 257 <= lcodes && 1 <= dcodes && 4 <= blcodes
  {
    Low(lcodes - 257, 5) + Low(dcodes - 1, 5) + Low(blcodes - 4, 4)
  }

  function HeaderBits(llens: seq<nat>, dlens: seq<nat>, bl: seq<nat>, blcodes: nat): seq<bool>
    requires HeaderOk(llens, dlens, bl, blcodes)
  {
    HeaderCounts(|llens|, |dlens|, blcodes) + BlBits(bl, 0, blcodes) + RunsBits(Runs(llens), bl) + RunsBits(Runs(dlens), bl)
  }

  /** The two lists are read back as one. */
  lemma DecodeBoth(llens: seq<nat>, dlens: seq<nat>, bl: seq<nat>, rest: seq<bool>)
    requires IsCode(bl) && RunsCodable(Runs(llens), bl) && RunsCodable(Runs(dlens), bl)
    requires forall i :: 0 <= i < |llens| ==> llens[i] <= MAX_BITS
    requires forall i :: 0 <= i < |dlens| ==> dlens[i] <= MAX_BITS
    ensures DecodeLengths(bl, RunsBits(Runs(llens), bl) + RunsBits(Runs(dlens), bl) + rest, |llens| + |dlens|, []) ==
            Some(Parsed(llens + dlens, rest))
  {
    hide IsCode, RunsCodable, Runs, RunsBits, Unroll, Unrolls, DecodeLengths;
    var a, b := Runs(llens), Runs(dlens);
    RunsUnroll([], llens);
    RunsUnroll(llens, dlens);
    assert [] + llens == llens;
    UnrollBoth([], a, b);
    RunsAppend(a, b, bl);
    DecodeRuns(bl, a + b, [], rest);
  }

  lemma {:induction false} UnrollBoth(acc: seq<nat>, a: seq<Run>, b: seq<Run>)
    ensures Unroll(acc, a + b) == Unroll(Unroll(acc, a), b)
    ensures Unrolls(acc, a) && Unrolls(Unroll(acc, a), b) ==> Unrolls(acc, a + b)
    decreases |b|
  {
    if b == [] {
      assert a + b == a;
    } else {
      var k := |b| - 1;
      UnrollBoth(acc, a, b[..k]);
      UnrollSnoc(acc, a + b[..k], b[k]);
      assert a + b == a + b[..k] + [b[k]];
    }
  }

  lemma DecodeCounts(lcodes: nat, dcodes: nat, blcodes: nat, rest: seq<bool>)
    requires 257 <= lcodes <= L_CODES && 1 <= dcodes <= D_CODES && 4 <= blcodes <= BL_CODES
    ensures DecodeTrees(HeaderCounts(lcodes, dcodes, blcodes) + rest) == DecodeTreeCodes(lcodes, dcodes, blcodes, rest)
  {
    hide Low, Pow2, TakeBits, DecodeTreeCodes;
    SmallPowers();
    var l, d, b := Low(lcodes - 257, 5), Low(dcodes - 1, 5), Low(blcodes - 4, 4);
    assert HeaderCounts(lcodes, dcodes, blcodes) + rest == l + (d + (b + rest));
    TakeLow(lcodes - 257, 5, d + (b + rest));
    TakeLow(dcodes - 1, 5, b + rest);
    TakeLow(blcodes - 4, 4, rest);
  }

  /** The header decodes to the lengths of both codes. */
  lemma DecodeHeader(llens: seq<nat>, dlens: seq<nat>, bl: seq<nat>, blcodes: nat, rest: seq<bool>)
    requires HeaderOk(llens, dlens, bl, blcodes)
    ensures DecodeTrees(HeaderBits(llens, dlens, bl, blcodes) + rest) == Some(Parsed(CodeLens(llens, dlens), rest))
  {
    hide IsCode, RunsCodable, Runs, RunsBits, BlBits, ReadBl, DecodeLengths, HeaderCounts, DecodeTrees, BlPart, Copies;
    var runs := RunsBits(Runs(llens), bl) + RunsBits(Runs(dlens), bl);
    var tail := BlBits(bl, 0, blcodes) + (runs + rest);
    assert HeaderBits(llens, dlens, bl, blcodes) + rest == HeaderCounts(|llens|, |dlens|, blcodes) + tail;
    DecodeCounts(|llens|, |dlens|, blcodes, tail);
    BlPartNone(bl);
    ReadBlBack(bl, 0, blcodes, runs + rest);
    DecodeBoth(llens, dlens, bl, rest);
    assert (llens + dlens)[..|llens|] == llens && (llens + dlens)[|llens|..] == dlens;
  }

  /** send_all_trees. */
  method SendAllTrees(w: BitWriter, lcodes: nat, dcodes: nat, blcodes: nat, ltree: array<nat>, dtree: array<nat>,
                      blDl: array<nat>, blCode: array<nat>, ghost bl: seq<nat>)
    requires w.Valid() && lcodes < ltree.Length && dcodes < dtree.Length
    requires HeaderOk(ltree[..lcodes], dtree[..dcodes], bl, blcodes)
    requires BL_CODES <= blDl.Length && blDl[..BL_CODES] == bl && TreeIn(blDl[..], blCode[..], bl)
    requires ltree[lcodes] == GUARD && dtree[dcodes] == GUARD
    modifies w, w.outbuf
    ensures w.Valid()
    ensures w.Emitted() == old(w.Emitted()) + HeaderBits(ltree[..lcodes], dtree[..dcodes], bl, blcodes)
  {
    hide IsCode, RunsCodable, Runs, RunsBits, BlBits, Low, Pow2, TreeIn, HeaderCounts, BlFits, BitWriter.Emitted;
    ghost var start, ll, dd := w.Emitted(), ltree[..lcodes], dtree[..dcodes];
    BlRange(bl, blcodes);
    SendCounts(w, lcodes, dcodes, blcodes);
    SendBl(w, blcodes, blDl, bl);
    SendTree(w, ltree, lcodes - 1, blDl, blCode, bl);
    assert ltree[..lcodes - 1 + 1] == ll;
    SendTree(w, dtree, dcodes - 1, blDl, blCode, bl);
    assert dtree[..dcodes - 1 + 1] == dd;
    assert w.Emitted() == start + HeaderBits(ll, dd, bl, blcodes);
  }

  method SendCounts(w: BitWriter, lcodes: nat, dcodes: nat, blcodes: nat)
    requires w.Valid() && 257 <= lcodes <= L_CODES && 1 <= dcodes <= D_CODES && 4 <= blcodes <= BL_CODES
    modifies w, w.outbuf
    ensures w.Valid() && w.Emitted() == old(w.Emitted()) + HeaderCounts(lcodes, dcodes, blcodes)
  {
    hide Low, Pow2;
    SmallPowers();
    w.SendBits(lcodes - 257, 5);
    w.SendBits(dcodes - 1, 5);
    w.SendBits(blcodes - 4, 4);
  }

  method SendBl(w: BitWriter, blcodes: nat, blDl: array<nat>, ghost bl: seq<nat>)
    requires w.Valid() && blcodes <= BL_CODES <= blDl.Length && blDl[..BL_CODES] == bl && BlFits(bl, blcodes)
    modifies w, w.outbuf
    ensures w.Valid() && w.Emitted() == old(w.Emitted()) + BlBits(bl, 0, blcodes)
  {
    hide Low, Pow2, BlBits, BlFits, BitWriter.Emitted;
    ghost var start := w.Emitted();
    BlNone(bl);
    for rank := 0 to blcodes
      invariant w.Valid() && w.Emitted() == start + BlBits(bl, 0, rank)
    {
      BlEntry(bl, blcodes, rank);
      var v := blDl[BL_ORDER[rank]];
      assert v == bl[BL_ORDER[rank]];
      w.SendBits(v, 3);
      BlSnoc(bl, 0, rank);
    }
  }

  lemma BlEntry(bl: seq<nat>, n: nat, rank: nat)
    requires BlFits(bl, n) && rank < BL_CODES
    ensures BL_ORDER[rank] < |bl| && bl[BL_ORDER[rank]] < Pow2(3)
  {
    hide Pow2;
    SmallPowers();
    OrderInverse(rank);
  }

  lemma BlRange(bl: seq<nat>, n: nat)
    requires BlFits(bl, n)
    ensures |bl| == BL_CODES && n <= BL_CODES
  {
  }

  lemma BlNone(bl: seq<nat>)
    requires |bl| == BL_CODES
    ensures BlBits(bl, 0, 0) == []
  {
  }
}
