/** The data of a block (archival/gzip.c, compress_block). */
module CompressBlock {
  import opened Words
  import opened Bits
  import opened Lz77
  import opened Canonical
  import opened Tables
  import opened TextCoding
  import opened BitOutput
  import opened TreeOutput
  import opened TokenBuffers

  lemma TokenRange(t: Token)
    requires t.Match? && TokenOk(t)
    ensures t.length - MIN_MATCH < 256 && t.distance - 1 < 32768
  {
  }

  /** The length symbol of a match and its extra bits. */
  method SendMatchLength(w: BitWriter, tables: CodeTables, lc: nat, dl: array<nat>, code: array<nat>,
                         ghost lens: seq<nat>, ghost t: Token)
    requires w.Valid() && tables.Ready() && TreeIn(dl[..], code[..], lens)
    requires t.Match? && TokenOk(t) && lc == t.length - MIN_MATCH && HasCode(lens, LengthSymbol(t))
    modifies w, w.outbuf
    ensures w.Valid() && w.Emitted() == old(w.Emitted()) + CodeBits(lens, LengthSymbol(t)) + LengthExtra(t)
  {
    hide TreeIn, CodeBits, Low, LengthCode, DistCode, Pow2, BitWriter.Emitted, DistsSet;
    TokenRange(t);
    LengthFits(lc);
    var c := tables.lengthCode[lc];
    ghost var base := LENGTH_BASE[c];
    SendCode(w, c + LITERALS + 1, dl, code, lens);
    var extra := EXTRA_LBITS[c];
    if extra != 0 {
      var rest := lc - tables.baseLength[c];
      w.SendBits(rest, extra);
    } else {
      NoExtra(lc - base);
    }
  }

  lemma NoExtra(v: nat)
    ensures Low(v, 0) == []
  {
  }

  /** The distance symbol of a match and its extra bits. */
  method SendMatchDistance(w: BitWriter, tables: CodeTables, dist: nat, dl: array<nat>, code: array<nat>,
                           ghost lens: seq<nat>, ghost t: Token)
    requires w.Valid() && tables.Ready() && TreeIn(dl[..], code[..], lens)
    requires t.Match? && TokenOk(t) && dist == t.distance - 1 && HasCode(lens, DistSymbol(t))
    modifies w, w.outbuf
    ensures w.Valid() && w.Emitted() == old(w.Emitted()) + CodeBits(lens, DistSymbol(t)) + DistExtra(t)
  {
    hide TreeIn, CodeBits, Low, LengthCode, DistCode, Pow2, BitWriter.Emitted;
    TokenRange(t);
    DistFits(dist);
    var c := tables.DCode(dist);
    ghost var base := DIST_BASE[c];
    SendCode(w, c, dl, code, lens);
    var extra := EXTRA_DBITS[c];
    if extra != 0 {
      w.SendBits(dist - tables.baseDist[c], extra);
    } else {
      NoExtra(dist - base);
    }
  }

  /** The buffer as compress_block reads it. */
  ghost predicate Buffered(tb: TokenBuffer, ts: seq<Token>)
    reads tb, tb.lBuf, tb.dBuf, tb.flagBuf
  {
    && tb.Shape() && TokensOk(ts) && tb.lastLit == |ts| < LIT_BUFSIZE
    && (forall i :: 0 <= i < |ts| ==> tb.lBuf[i] == Lc(ts[i]))
    && tb.lastDist == |Dists(ts)| && tb.dBuf[..tb.lastDist] == Dists(ts)
    && FlagsSaved(tb.flagBuf[..], ts)
  }

  lemma FlagStep(saved: seq<nat>, ts: seq<Token>, lx: nat, flag: nat)
    requires FlagsSaved(saved, ts) && lx < |ts| && lx / 8 < |saved| && flag == Shift(saved[lx / 8], lx % 8)
    ensures (flag % 2 == 1) == ts[lx].Match?
    ensures (lx + 1) % 8 != 0 ==> (lx + 1) / 8 == lx / 8 && flag / 2 == Shift(saved[(lx + 1) / 8], (lx + 1) % 8)
  {
    hide Shift;
    assert Bit(saved[lx / 8], lx % 8) == ts[lx].Match?;
    ShiftNext(saved[lx / 8], lx % 8);
  }

  /** One token, with dx the index of the next distance. */
  method SendToken(w: BitWriter, tables: CodeTables, tb: TokenBuffer, lx: nat, dx: nat, flagged: bool,
                   lDl: array<nat>, lCode: array<nat>, dDl: array<nat>, dCode: array<nat>,
                   ghost ts: seq<Token>, ghost llens: seq<nat>, ghost dlens: seq<nat>)
    returns (dx': nat)
    requires w.Valid() && tables.Ready() && Buffered(tb, ts) && lx < |ts|
    requires TreeIn(lDl[..], lCode[..], llens) && TreeIn(dDl[..], dCode[..], dlens) && AllCodable(ts, llens, dlens)
    requires flagged == ts[lx].Match? && dx == |Dists(ts[..lx])|
    modifies w, w.outbuf
    ensures w.Valid() && w.Emitted() == old(w.Emitted()) + TokenBits(ts[lx], llens, dlens)
    ensures dx' == |Dists(ts[..lx + 1])|
  {
    hide TreeIn, CodeBits, Low, LengthSymbol, DistSymbol, LengthExtra, DistExtra, BitWriter.Emitted, Dists, FlagsSaved;
    hide CodeTables.Ready;
    ghost var t := ts[lx];
    assert Codable(t, llens, dlens);
    NextDist(ts, lx);
    dx' := dx;
    var lc := tb.lBuf[lx];
    if !flagged {
      SendCode(w, lc, lDl, lCode, llens);
    } else {
      SendMatchLength(w, tables, lc, lDl, lCode, llens, t);
      var dist := tb.dBuf[dx];
      assert dist == tb.dBuf[..tb.lastDist][dx];
      dx' := dx + 1;
      ghost var half := w.Emitted();
      SendMatchDistance(w, tables, dist, dDl, dCode, dlens, t);
      assert w.Emitted() == old(w.Emitted()) + TokenBits(t, llens, dlens);
    }
  }

  /** compress_block sends the tokens of the buffer and the end mark. */
  method CompressBlock(w: BitWriter, tables: CodeTables, tb: TokenBuffer,
                       lDl: array<nat>, lCode: array<nat>, dDl: array<nat>, dCode: array<nat>,
                       ghost ts: seq<Token>, ghost llens: seq<nat>, ghost dlens: seq<nat>)
    requires w.Valid() && tables.Ready() && Buffered(tb, ts)
    requires TreeIn(lDl[..], lCode[..], llens) && TreeIn(dDl[..], dCode[..], dlens) && AllCodable(ts, llens, dlens)
    requires HasCode(llens, END_BLOCK)
    modifies w, w.outbuf
    ensures w.Valid() && w.Emitted() == old(w.Emitted()) + CodedBits(ts, llens, dlens)
  {
    hide TreeIn, CodeBits, TokenBits, Codable, BitWriter.Emitted, Dists, Shift, TextBits, CodeTables.Ready, FlagsSaved;
    ghost var start := w.Emitted();
    var lx, dx, fx, flag := 0, 0, 0, 0;
    NothingYet(ts, llens, dlens);
    while lx < tb.lastLit
      invariant w.Valid() && lx <= |ts| && fx == (lx + 7) / 8 && dx == |Dists(ts[..lx])|
      invariant lx % 8 != 0 && lx < |ts| ==> flag == Shift(tb.flagBuf[lx / 8], lx % 8)
      invariant w.Emitted() == start + TextBits(ts[..lx], llens, dlens)
      invariant tables.Ready() && Buffered(tb, ts)
      invariant TreeIn(lDl[..], lCode[..], llens) && TreeIn(dDl[..], dCode[..], dlens)
    {
      if lx % 8 == 0 {
        flag := tb.flagBuf[fx];
        fx := fx + 1;
        ShiftNone(flag);
      }
      FlagStep(tb.flagBuf[..], ts, lx, flag);
      OneMoreToken(ts, lx, llens, dlens);
      dx := SendToken(w, tables, tb, lx, dx, flag % 2 == 1, lDl, lCode, dDl, dCode, ts, llens, dlens);
      lx := lx + 1;
      flag := flag / 2;
    }
    assert ts[..lx] == ts;
    SendCode(w, END_BLOCK, lDl, lCode, llens);
  }

  lemma ShiftNone(v: nat)
    ensures Shift(v, 0) == v
  {
  }

  lemma NothingYet(ts: seq<Token>, llens: seq<nat>, dlens: seq<nat>)
    requires TokensOk(ts)
    ensures TokensOk(ts[..0]) && Dists(ts[..0]) == [] && TextBits(ts[..0], llens, dlens) == []
  {
  }

  lemma OneMoreToken(ts: seq<Token>, lx: nat, llens: seq<nat>, dlens: seq<nat>)
    requires lx < |ts| && AllCodable(ts, llens, dlens)
    ensures AllCodable(ts[..lx], llens, dlens) && AllCodable(ts[..lx + 1], llens, dlens)
    ensures TextBits(ts[..lx + 1], llens, dlens) == TextBits(ts[..lx], llens, dlens) + TokenBits(ts[lx], llens, dlens)
  {
    hide Codable, TextBits, TokenBits;
    assert ts[..lx + 1] == ts[..lx] + [ts[lx]];
    TextSnoc(ts[..lx], ts[lx], llens, dlens);
  }
}
