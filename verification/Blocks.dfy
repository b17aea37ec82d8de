/**
 Blocks (archival/gzip.c, ct_tally and flush_block): tokens are collected and counted, and each
 block is written in the form that takes the fewest bytes.
 */
module Blocks {
  import opened Words
  import opened Bits
  import opened RollingHash
  import opened Lz77
  import opened Options
  import opened Canonical
  import opened Tables
  import opened GenCodes
  import opened BuildTree
  import opened Inflate
  import opened TextCoding
  import opened RunLengths
  import opened BitOutput
  import opened TreeOutput
  import opened TreeHeader
  import opened TokenCounts
  import opened TokenBuffers
  import opened CompressBlock
  import opened StaticTrees
  import opened BlockTrees
  import opened BlockForms
  import opened BlockEnds
  import opened Streams

  /** With the fixed codes every token has a code of at most 31 bits. */
  lemma FixedHas(s: nat)
    ensures s < 288 ==> HasCode(FixedL(), s) && FixedL()[s] <= 9
    ensures LITERALS < s < 288 ==> FixedL()[s] <= 8
    ensures s < D_CODES ==> HasCode(FixedD(), s) && FixedD()[s] == 5
  {
  }

  lemma FixedCovers(ts: seq<Token>)
    requires TokensOk(ts)
    ensures Covers(FixedL(), FixedD(), ts) && AllCodable(ts, FixedL(), FixedD()) && HasCode(FixedL(), END_BLOCK)
    ensures |CodedBits(ts, FixedL(), FixedD())| ==
            BitsTo(CountL(ts), FixedL(), LExtra(), L_CODES) + BitsTo(CountD(ts), FixedD(), EXTRA_DBITS, D_CODES)
  {
    hide CountL, CountD, BitsTo, TextBits, AllCodable, FixedL, FixedD, LExtra, CodeBits;
    forall s | 0 <= s < 288
      ensures HasCode(FixedL(), s)
    {
      FixedHas(s);
    }
    forall s | 0 <= s < D_CODES
      ensures HasCode(FixedD(), s)
    {
      FixedHas(s);
    }
    TextLength(ts, FixedL(), FixedD());
  }

  lemma FixedTokenLength(t: Token)
    requires Codable(t, FixedL(), FixedD())
    ensures |TokenBits(t, FixedL(), FixedD())| <= 31
  {
    hide CodeBits, FixedL, FixedD, LExtra, TokenBits, LengthSymbol, DistSymbol;
    TokenLength(t, FixedL(), FixedD());
    FixedHas(SymbolL(t));
    ExtraBounds(SymbolL(t));
    if t.Match? {
      FixedHas(DistSymbol(t));
      ExtraBounds(DistSymbol(t));
    }
  }

  lemma ExtraBounds(s: nat)
    ensures s < L_CODES ==> LExtra()[s] <= 5 && (s <= LITERALS ==> LExtra()[s] == 0)
    ensures s < D_CODES ==> EXTRA_DBITS[s] <= 13
  {
    hide LExtra;
    if s < L_CODES {
      LExtraIs(s);
    }
  }

  lemma {:induction false} FixedTextLength(ts: seq<Token>)
    requires AllCodable(ts, FixedL(), FixedD())
    ensures |TextBits(ts, FixedL(), FixedD())| <= 31 * |ts|
    decreases |ts|
  {
    hide TokenBits, Codable, FixedL, FixedD;
    if ts != [] {
      FixedTokenLength(ts[0]);
      FixedTextLength(ts[1..]);
    }
  }

  /** A stored block is chosen only for texts whose length fits 16 bits. */
  lemma StoredFits(ts: seq<Token>, storedLen: nat)
    requires AllCodable(ts, FixedL(), FixedD()) && HasCode(FixedL(), END_BLOCK) && |ts| < LIT_BUFSIZE
    requires storedLen + 4 <= (|CodedBits(ts, FixedL(), FixedD())| + 10) / 8
    ensures storedLen < 0x1_0000
  {
    hide TextBits, AllCodable, FixedL, FixedD, CodeBits;
    FixedTextLength(ts);
    FixedHas(END_BLOCK);
  }

  /** Bits to the next byte boundary, as compressed_len is rounded. */
  lemma RoundUp(n: nat)
    ensures n + 3 + |Padding(n + 3)| == 8 * ((n + 10) / 8)
  {
  }

  lemma StoredLength(text: seq<byte>, eof: bool, pos: nat)
    ensures |StoredBits(text, eof, pos)| == 3 + |Padding(pos + 3)| + 8 * (|text| + 4)
  {
    hide BitsOf;
  }

  /** The bits of a block in a form. */
  ghost predicate HasForm(bits: seq<bool>, form: Form, buf: Option<seq<byte>>, eof: bool, pos: nat, ts: seq<Token>,
                          ll: seq<nat>, dd: seq<nat>, bl: seq<nat>, blcodes: nat)
  {
    match form
    case StoredForm => buf.Some? && bits == StoredBits(buf.value, eof, pos)
    case StaticForm =>
      && AllCodable(ts, FixedL(), FixedD()) && HasCode(FixedL(), END_BLOCK)
      && bits == BlockHead(STATIC_TREES, eof) + CodedBits(ts, FixedL(), FixedD())
    case DynamicForm =>
      TreesOk(ts, ll, dd, bl, blcodes) && bits == BlockHead(DYN_TREES, eof) + DynamicBits(ts, ll, dd, bl, blcodes)
  }

  /** How a block was sent: its form, its lengths with fixed and with its own codes, and these codes. */
  datatype Sending = Sending(form: Form, stat: int, opt: int, ll: seq<nat>, dd: seq<nat>, bl: seq<nat>, blcodes: nat)

  /** The form is the one that is chosen for the true lengths of the block. */
  ghost predicate Accounted(s: Sending, ts: seq<Token>, available: bool, storedLen: nat) {
    && s.form == Choice(available, storedLen, s.stat, s.opt)
    && AllCodable(ts, FixedL(), FixedD()) && HasCode(FixedL(), END_BLOCK) && s.stat == |CodedBits(ts, FixedL(), FixedD())|
    && DynamicLength(ts, s.ll, s.dd, s.bl, s.blcodes, s.opt)
  }

  /** The tables and static trees of ct_init. */
  method NewTables() returns (codes: CodeTables, ll: array<nat>, lc: array<nat>, dl: array<nat>, dc: array<nat>)
    ensures fresh({codes.lengthCode, codes.baseLength, codes.distCode, codes.baseDist, ll, lc, dl, dc})
    ensures ll.Length == 288 && dl.Length == D_CODES && codes.Ready()
    ensures TreeIn(ll[..], lc[..], FixedL()) && TreeIn(dl[..], dc[..], FixedD())
  {
    hide TreeIn, CodeTables.Ready;
    var blCount := new nat[MAX_BITS + 1];
    ll, lc, dl, dc := new nat[288], new nat[288], new nat[D_CODES], new nat[D_CODES];
    InitStaticL(ll, lc, blCount);
    InitStaticD(dl, dc);
    codes := new CodeTables();
  }

  class BlockWriter {
    const w: BitWriter
    const tables: CodeTables
    const tb: TokenBuffer
    const trees: Trees
    const sLLen: array<nat>  // the static trees
    const sLCode: array<nat>
    const sDLen: array<nat>
    const sDCode: array<nat>
    var optLen: int
    var staticLen: int
    var compressedLen: int
    ghost var Repr: set<object>
    ghost var pending: seq<Token>
    ghost var blocks: seq<Block>
    ghost var done: bool

    ghost function Buffers(): set<object> {
      {tb, tb.lBuf, tb.dBuf, tb.flagBuf}
    }

    ghost function Fixed(): set<object> {
      {tables.lengthCode, tables.baseLength, tables.distCode, tables.baseDist, sLLen, sLCode, sDLen, sDCode}
    }

    ghost predicate Apart()
      reads this`Repr
    {
      && Repr == {this} + {w, w.outbuf} + Buffers() + trees.parts + Fixed()
      && {this} !! {w, w.outbuf} !! Buffers() !! trees.parts !! Fixed()
    }

    /** The tables and the static trees are in place. */
    ghost predicate Ready()
      reads Fixed()
    {
      && tables.Ready() && sLLen.Length == 288 && sDLen.Length == D_CODES
      && TreeIn(sLLen[..], sLCode[..], FixedL()) && TreeIn(sDLen[..], sDCode[..], FixedD())
    }

    /** The bits sent so far are the blocks, and their number is known. */
    ghost predicate Sent()
      reads this`done, this`blocks, this`compressedLen, w, w.outbuf
    {
      && w.Valid()
      && if done then Ends(w.Emitted(), blocks) && |w.Emitted()| == 8 * (compressedLen / 8) && w.biValid == 0
         else Begins(w.Emitted(), blocks) && |w.Emitted()| == compressedLen
    }

    ghost predicate Valid()
      reads this, Repr
    {
      && Apart() && trees.Apart() && Ready() && Sent()
      && TokensOk(pending) && |pending| < LIT_BUFSIZE && BlocksOk(blocks)
      && tb.Held(pending) && trees.Counted(pending) && optLen == 0 && staticLen == 0
    }

    constructor (writer: BitWriter, codes: CodeTables, buffer: TokenBuffer, dynamic: Trees,
                 ll: array<nat>, lc: array<nat>, dl: array<nat>, dc: array<nat>)
      requires writer.Valid() && writer.Emitted() == [] && codes.Ready() && buffer.Held([]) && dynamic.Counted([])
      requires ll.Length == 288 && dl.Length == D_CODES
      requires TreeIn(ll[..], lc[..], FixedL()) && TreeIn(dl[..], dc[..], FixedD())
      requires {writer, writer.outbuf} !! {buffer, buffer.lBuf, buffer.dBuf, buffer.flagBuf} !! dynamic.parts !!
               {codes.lengthCode, codes.baseLength, codes.distCode, codes.baseDist, ll, lc, dl, dc}
      ensures Valid() && !done && blocks == [] && pending == []
      ensures Repr == {this, writer, writer.outbuf} + {buffer, buffer.lBuf, buffer.dBuf, buffer.flagBuf} + dynamic.parts +
                      {codes.lengthCode, codes.baseLength, codes.distCode, codes.baseDist, ll, lc, dl, dc}
    {
      hide TreeIn, CodeTables.Ready, TokenBuffer.Held, FixedL, FixedD, BitWriter.Emitted, BitWriter.Valid, Begins, Ends,
           Trees.Apart;
      w, tables, tb, trees := writer, codes, buffer, dynamic;
      sLLen, sLCode, sDLen, sDCode := ll, lc, dl, dc;
      optLen, staticLen, compressedLen, pending, blocks, done := 0, 0, 0, [], [], false;
      new;
      Repr := {this} + {w, w.outbuf} + Buffers() + trees.parts + Fixed();
      BeginsEmpty();
    }

    /** The part of ct_tally that counts the symbols. */
    method CountToken(dist: nat, lc: nat, ghost t: Token)
      requires trees.Counted(pending) && tables.Ready() && TokenOk(t) && lc == Lc(t)
      requires if t.Match? then dist == t.distance else dist == 0
      requires trees.lt.freq !in Fixed() && trees.dt.freq !in Fixed()
      modifies trees.lt.freq, trees.dt.freq
      ensures trees.Counted(pending + [t])
    {
      hide CountL, CountD, CodeTables.Ready, Foot, LengthCode, DistCode;
      CountSnoc(pending, t);
      ghost var fl, fd := trees.lt.freq[..L_CODES], trees.dt.freq[..D_CODES];
      ApartFreq();
      if dist == 0 {
        trees.lt.freq[lc] := trees.lt.freq[lc] + 1;
      } else {
        TokenRange(t);
        var c := LengthCodeOf(lc);
        var dc := tables.DCode(dist - 1);
        trees.lt.freq[c + LITERALS + 1] := trees.lt.freq[c + LITERALS + 1] + 1;
        trees.dt.freq[dc] := trees.dt.freq[dc] + 1;
        assert trees.dt.freq[..D_CODES] == More(fd, DistSymbol(t));
      }
      assert trees.lt.freq[..L_CODES] == More(fl, SymbolL(t));
    }

    method LengthCodeOf(lc: nat) returns (c: nat)
      requires tables.Ready() && lc < 256
      ensures c == LengthCode(lc)
    {
      c := tables.lengthCode[lc];
    }

    lemma ApartFreq()
      requires trees.Apart()
      ensures trees.lt.freq != trees.dt.freq && trees.lt.freq != trees.blt.freq && trees.dt.freq != trees.blt.freq
      ensures trees.lt.freq.Length > L_CODES && trees.dt.freq.Length > D_CODES
    {
      assert trees.lt.freq in Foot(trees.lt, trees.lCode);
      assert trees.dt.freq in Foot(trees.dt, trees.dCode);
      assert trees.blt.freq in Foot(trees.blt, trees.blCode);
    }

    /** The guess of ct_tally whether it is profitable to end the block here. */
    method Profitable(inLength: int) returns (flush: bool)
      requires trees.Apart() && TokensOk(pending) && trees.dt.freq[..D_CODES] == CountD(pending)
      requires tb.lastLit == |pending| && tb.lastDist == Matches(pending)
      ensures flush <==> Matches(pending) < |pending| / 2 && Estimate(pending) / 8 < inLength / 2
    {
      hide CountD, Estimate, Matches, Trees.Apart;
      ApartFreq();
      EstimateIs(pending);
      var outLength := tb.lastLit * 8;
      for dcode := 0 to D_CODES
        invariant outLength == |pending| * 8 + DistBits(trees.dt.freq[..D_CODES], dcode)
      {
        outLength := outLength + trees.dt.freq[dcode] * (5 + EXTRA_DBITS[dcode]);
      }
      outLength := outLength / 8;
      flush := tb.lastDist < tb.lastLit / 2 && outLength < inLength / 2;
    }

    /** The part of ct_tally that saves and counts a token. */
    method AddToken(dist: nat, lc: nat, ghost t: Token)
      requires Valid() && !done && |pending| + 1 < LIT_BUFSIZE && TokenOk(t) && lc == Lc(t)
      requires if t.Match? then dist == t.distance else dist == 0
      modifies Repr
      ensures Valid() && Repr == old(Repr) && !done && blocks == old(blocks) && pending == old(pending) + [t]
    {
      hide TokenBuffer.Held, Trees.Counted, Sent, Ready, Apart, Trees.Apart, BlocksOk, TokenOk;
      CountedApart();
      Parts();
      SaveAndCount(dist, lc, t);
      pending := pending + [t];
    }

    method SaveAndCount(dist: nat, lc: nat, ghost t: Token)
      requires Apart() && trees.Apart() && Ready() && tb.Held(pending) && trees.Counted(pending)
      requires |pending| + 1 < LIT_BUFSIZE && TokenOk(t) && lc == Lc(t)
      requires if t.Match? then dist == t.distance else dist == 0
      modifies Buffers(), trees.lt.freq, trees.dt.freq
      ensures tb.Held(pending + [t]) && trees.Counted(pending + [t])
    {
      hide TokenBuffer.Held, Trees.Counted, Ready, Apart, Trees.Apart, TokenOk;
      Parts();
      TablesReady();
      CountToken(dist, lc, t);
      tb.Save(dist, lc, pending, t);
    }

    /** ct_tally: the token is added; the result says whether the block must end. */
    method Tally(dist: nat, lc: nat, inLength: int) returns (flush: bool)
      requires Valid() && !done && |pending| + 1 < LIT_BUFSIZE
      requires lc < 256 && dist <= MAX_DIST
      modifies Repr
      ensures Valid() && Repr == old(Repr) && !done && blocks == old(blocks)
      ensures pending == old(pending) + [if dist == 0 then Literal(lc as byte) else Match(lc + MIN_MATCH, dist)]
      ensures TokensOk(pending) && (flush <==> BlockFull(pending, inLength))
    {
      hide TokenBuffer.Held, Trees.Counted, Sent, Ready, Apart, Estimate, Matches, CountD;
      AddToken(dist, lc, if dist == 0 then Literal(lc as byte) else Match(lc + MIN_MATCH, dist));
      HeldCount();
      if tb.lastLit % 0x1000 == 0 {
        CountedApart();
        flush := Profitable(inLength);
        if flush {
          return;
        }
      }
      flush := tb.lastLit == LIT_BUFSIZE - 1 || tb.lastDist == DIST_BUFSIZE;
    }

    lemma CountedApart()
      requires trees.Counted(pending)
      ensures trees.Apart() && TokensOk(pending) && trees.dt.freq[..D_CODES] == CountD(pending)
    {
    }

    lemma TablesReady()
      requires Ready()
      ensures tables.Ready()
    {
    }

    lemma HeldCount()
      requires tb.Held(pending)
      ensures TokensOk(pending) && tb.lastLit == |pending| && tb.lastDist == Matches(pending)
    {
      MatchesAre(pending);
    }

    lemma Parts()
      requires Apart() && trees.Apart()
      ensures var freqs: set<object> := {trees.lt.freq, trees.dt.freq, trees.blt.freq};
              && this in Repr && freqs + Buffers() <= Repr && freqs !! Buffers() && freqs !! Fixed() && freqs !! {w, w.outbuf}
              && this !in freqs && this !in Buffers() && Buffers() !! Fixed() && Buffers() !! {w, w.outbuf}
    {
      assert trees.lt.freq in trees.parts && trees.dt.freq in trees.parts && trees.blt.freq in trees.parts;
    }

    method SendStored(text: seq<byte>, eof: bool)
      requires w.Valid() && |text| < 0x1_0000 && |w.Emitted()| == compressedLen
      modifies this`compressedLen, w, w.outbuf
      ensures w.Valid() && w.Emitted() == old(w.Emitted()) + StoredBits(text, eof, |old(w.Emitted())|)
      ensures |w.Emitted()| == compressedLen
    {
      hide Low, BitsOf, BitWriter.Emitted, Padding, Pow2, StoredHeader;
      SmallPowers();
      RoundUp(compressedLen);
      w.SendBits(2 * STORED_BLOCK + Eof(eof), 3);
      compressedLen := 8 * ((compressedLen + 3 + 7) / 8);
      compressedLen := compressedLen + 8 * (|text| + 4);
      w.CopyBlock(text, true);
    }

    method SendStatic(eof: bool, stat: int)
      requires w.Valid() && Ready() && Buffered(tb, pending) && |w.Emitted()| == compressedLen
      requires AllCodable(pending, FixedL(), FixedD()) && HasCode(FixedL(), END_BLOCK)
      requires stat == |CodedBits(pending, FixedL(), FixedD())|
      modifies this`compressedLen, w, w.outbuf
      ensures w.Valid()
      ensures w.Emitted() == old(w.Emitted()) + (BlockHead(STATIC_TREES, eof) + CodedBits(pending, FixedL(), FixedD()))
      ensures |w.Emitted()| == compressedLen
    {
      hide Low, BitWriter.Emitted, Pow2, AllCodable, CodedBits, FixedL, FixedD, Buffered, CodeTables.Ready, TreeIn;
      SmallPowers();
      w.SendBits(2 * STATIC_TREES + Eof(eof), 3);
      CompressBlock.CompressBlock(w, tables, tb, sLLen, sLCode, sDLen, sDCode, pending, FixedL(), FixedD());
      compressedLen := compressedLen + 3 + stat;
    }

    method SendDynamic(eof: bool, opt: int, maxBlindex: nat, ghost ll: seq<nat>, ghost dd: seq<nat>, ghost bl: seq<nat>)
      requires w.Valid() && tables.Ready() && Buffered(tb, pending) && |w.Emitted()| == compressedLen
      requires trees.Built(pending, ll, dd, bl, maxBlindex + 1)
      requires opt == |DynamicBits(pending, ll, dd, bl, maxBlindex + 1)|
      modifies this`compressedLen, w, w.outbuf
      ensures w.Valid()
      ensures w.Emitted() == old(w.Emitted()) + (BlockHead(DYN_TREES, eof) + DynamicBits(pending, ll, dd, bl, maxBlindex + 1))
      ensures |w.Emitted()| == compressedLen
    {
      hide Low, BitWriter.Emitted, Pow2, AllCodable, CodedBits, Buffered, CodeTables.Ready, HeaderBits, IsCode, HeaderOk, Foot;
      SmallPowers();
      w.SendBits(2 * DYN_TREES + Eof(eof), 3);
      BuiltShape(ll, dd, bl, maxBlindex + 1);
      SendAllTrees(w, trees.lt.maxCode + 1, trees.dt.maxCode + 1, maxBlindex + 1, trees.lt.dl, trees.dt.dl,
                   trees.blt.dl, trees.blCode, bl);
      CompressBlock.CompressBlock(w, tables, tb, trees.lt.dl, trees.lCode, trees.dt.dl, trees.dCode, pending, ll, dd);
      compressedLen := compressedLen + 3 + opt;
    }

    lemma BuiltShape(ll: seq<nat>, dd: seq<nat>, bl: seq<nat>, blcodes: nat)
      requires trees.Built(pending, ll, dd, bl, blcodes)
      ensures trees.lt.dl[..|ll|] == ll && trees.dt.dl[..|dd|] == dd
      ensures BL_CODES <= trees.blt.dl.Length && trees.blt.dl[..BL_CODES] == bl
      ensures HeaderOk(ll, dd, bl, blcodes) && |bl| == BL_CODES
    {
      hide AllCodable, IsCode, RunsCodable, Foot;
    }

    /** optLen is the length of the block with the trees that were built. */
    ghost predicate DynamicExact(ll: seq<nat>, dd: seq<nat>, bl: seq<nat>, blcodes: nat)
      reads this`pending, this`optLen, trees.lt, trees.lt.dl, trees.lCode, trees.dt, trees.dt.dl, trees.dCode,
            trees.blt.dl, trees.blCode
    {
      trees.Built(pending, ll, dd, bl, blcodes) && DynamicLength(pending, ll, dd, bl, blcodes, optLen)
    }

    /** staticLen is the length of the block with the fixed codes. */
    ghost predicate StaticExact()
      reads this`pending, this`staticLen
    {
      && |pending| < LIT_BUFSIZE && AllCodable(pending, FixedL(), FixedD()) && HasCode(FixedL(), END_BLOCK)
      && staticLen == |CodedBits(pending, FixedL(), FixedD())|
    }

    /** The choice of flush_block: the form that counts the fewest bytes is sent, with exactly its bits. */
    method SendBlock(buf: Option<seq<byte>>, storedLen: nat, eof: bool, maxBlindex: nat,
                     ghost ll: seq<nat>, ghost dd: seq<nat>, ghost bl: seq<nat>)
      returns (ghost form: Form, ghost bits: seq<bool>)
      requires w.Valid() && Ready() && Buffered(tb, pending) && |w.Emitted()| == compressedLen
      requires DynamicExact(ll, dd, bl, maxBlindex + 1) && StaticExact()
      requires buf.Some? ==> |buf.value| == storedLen
      modifies this`compressedLen, w, w.outbuf
      ensures w.Valid() && w.Emitted() == old(w.Emitted()) + bits && |w.Emitted()| == compressedLen
      ensures form == Choice(buf.Some?, storedLen, staticLen, optLen) && Fewest(form, buf.Some?, storedLen, staticLen, optLen)
      ensures |bits| == FormBits(form, |old(w.Emitted())|, storedLen, staticLen, optLen)
      ensures form == StoredForm ==> buf.Some?
      ensures HasForm(bits, form, buf, eof, |old(w.Emitted())|, pending, ll, dd, bl, maxBlindex + 1)
      ensures IsBlock(bits, |old(w.Emitted())|, if form == StoredForm then Stored(buf.value) else Coded(pending), eof)
    {
      hide Buffered, AllCodable, CodedBits, FixedL, FixedD, DynamicBits, IsBlock, BitWriter.Emitted, BitWriter.Valid, Trees.Built,
           StoredBits, Ready, Economical, TreesOk, CountL, CountD;
      ghost var pos := |w.Emitted()|;
      ChoiceIsFewest(buf.Some?, storedLen, staticLen, optLen);
      var optLenb, staticLenb := (optLen + 3 + 7) / 8, (staticLen + 3 + 7) / 8;
      if staticLenb <= optLenb {
        optLenb := staticLenb;
      }
      if storedLen + 4 <= optLenb && buf.Some? {
        StoredFits(pending, storedLen);
        form, bits := StoredForm, StoredBits(buf.value, eof, pos);
        StoredIsBlock(buf.value, eof, pos);
        StoredLength(buf.value, eof, pos);
        SendStored(buf.value, eof);
      } else if staticLenb == optLenb {
        form, bits := StaticForm, BlockHead(STATIC_TREES, eof) + CodedBits(pending, FixedL(), FixedD());
        StaticIsBlock(pending, eof, pos);
        SendStatic(eof, staticLen);
      } else {
        DynamicBlock(ll, dd, bl, maxBlindex + 1, eof, pos);
        form, bits := DynamicForm, BlockHead(DYN_TREES, eof) + DynamicBits(pending, ll, dd, bl, maxBlindex + 1);
        TablesReady();
        SendDynamic(eof, optLen, maxBlindex, ll, dd, bl);
      }
    }

    lemma DynamicBlock(ll: seq<nat>, dd: seq<nat>, bl: seq<nat>, blcodes: nat, eof: bool, pos: nat)
      requires trees.Built(pending, ll, dd, bl, blcodes)
      ensures TreesOk(pending, ll, dd, bl, blcodes)
      ensures IsBlock(BlockHead(DYN_TREES, eof) + DynamicBits(pending, ll, dd, bl, blcodes), pos, Coded(pending), eof)
    {
      hide Trees.Apart, IsBlock, BlockHead, HeaderBits, CodedBits, HeaderOk, AllCodable, IsCode;
      DynamicIsBlock(pending, ll, dd, bl, blcodes, eof, pos);
      assert BlockHead(DYN_TREES, eof) + DynamicBits(pending, ll, dd, bl, blcodes) ==
             BlockHead(DYN_TREES, eof) + HeaderBits(ll, dd, bl, blcodes) + CodedBits(pending, ll, dd);
    }

    /** The state between the building of the trees and the sending of the block. */
    ghost predicate Prepared(ll: seq<nat>, dd: seq<nat>, bl: seq<nat>, blcodes: nat)
      requires Apart() && trees.Apart()
      reads Repr, this
    {
      TreeFrame();
      Ready() && Sent() && Buffered(tb, pending) && DynamicExact(ll, dd, bl, blcodes) && StaticExact()
    }

    lemma TreeFrame()
      requires trees.Apart() && Apart()
      ensures {trees.lt, trees.lt.dl, trees.lCode, trees.dt, trees.dt.dl, trees.dCode, trees.blt.dl, trees.blCode,
               trees.lt.freq, trees.dt.freq, trees.blt.freq} <= trees.parts <= Repr
    {
    }

    /** flush_block up to the choice of the form. */
    method PrepareBlock()
      returns (maxBlindex: nat, ghost ll: seq<nat>, ghost dd: seq<nat>, ghost bl: seq<nat>)
      requires Valid() && !done
      modifies this`optLen, this`staticLen, tb.flagBuf, trees.parts
      ensures Apart() && trees.Apart() && Prepared(ll, dd, bl, maxBlindex + 1)
    {
      hide TokenBuffer.Held, Buffered, Sent, Ready, BlocksOk, TokenOk, DynamicExact, StaticExact, Trees.Counted, Trees.Apart;
      CountedApart();
      TreeFrame();
      SaveFlags();
      maxBlindex, ll, dd, bl := BuildTrees();
    }

    /** The trees of the block and its lengths with them. */
    method BuildTrees()
      returns (maxBlindex: nat, ghost ll: seq<nat>, ghost dd: seq<nat>, ghost bl: seq<nat>)
      requires Apart() && trees.Counted(pending) && Ready() && TokensOk(pending) && |pending| < LIT_BUFSIZE
      modifies this`optLen, this`staticLen, trees.parts
      ensures trees.Apart() && DynamicExact(ll, dd, bl, maxBlindex + 1) && StaticExact()
    {
      hide DynamicLength, Ready, BitsTo, AllCodable, CodedBits, FixedL, FixedD, DynamicBits, CountL, CountD, Trees.Built, TokenOk;
      TreeFrame();
      FixedCovers(pending);
      StaticLens();
      optLen, staticLen, maxBlindex, ll, dd, bl := trees.Build(sLLen[..], sDLen[..], pending);
    }

    method SaveFlags()
      requires tb.Held(pending)
      modifies tb.flagBuf
      ensures Buffered(tb, pending)
    {
      hide Dists, Pow2, FlagsHeld, FlagsSaved;
      HeldFlags();
      SaveLast(tb.flagBuf[..], tb.lastFlags, tb.flags, pending);
      tb.flagBuf[tb.lastFlags] := tb.flags;
    }

    lemma HeldFlags()
      requires tb.Held(pending)
      ensures tb.lastFlags < tb.flagBuf.Length
    {
      hide Dists, Pow2, FlagAt;
    }

    lemma StaticLens()
      requires Ready()
      ensures sLLen[..] == FixedL() && sDLen[..] == FixedD()
    {
      hide IsCode, CodesSet, FixedL, FixedD, CodeTables.Ready;
    }

    /** init_block. */
    method InitBlock()
      requires Apart() && trees.Apart() && tb.Shape()
      modifies this`pending, this`optLen, this`staticLen, Buffers(), trees.lt.freq, trees.dt.freq, trees.blt.freq
      ensures pending == [] && optLen == 0 && staticLen == 0 && tb.Held([]) && trees.Counted([])
    {
      hide TokenBuffer.Held, Trees.Counted, Trees.Apart, Apart;
      WholeFrame();
      trees.InitBlock();
      tb.Clear();
      pending, optLen, staticLen := [], 0, 0;
    }

    /** The end of the stream: padding to a whole byte. */
    method Windup(ghost bs: seq<Block>)
      requires w.Valid() && Ends(w.Emitted(), bs) && |w.Emitted()| == compressedLen
      modifies this`compressedLen, w, w.outbuf
      ensures w.Valid() && Ends(w.Emitted(), bs) && |w.Emitted()| == 8 * (compressedLen / 8) && w.biValid == 0
      ensures |w.Emitted()| == |old(w.Emitted())| + |Padding(|old(w.Emitted())|)|
    {
      hide Ends, BitWriter.Emitted, BitWriter.Valid;
      ghost var bits := w.Emitted();
      EndsPadded(bits, bs, Padding(|bits|));
      w.BiWindup();
      compressedLen := compressedLen + 7;
    }

    /** The block that was sent joins the others. */
    ghost method Append(b: Block, eof: bool, start: seq<bool>, bits: seq<bool>)
      requires w.Valid() && Begins(start, blocks) && IsBlock(bits, |start|, b, eof) && w.Emitted() == start + bits
      modifies this`blocks
      ensures blocks == old(blocks) + [b]
      ensures if eof then Ends(w.Emitted(), blocks) else Begins(w.Emitted(), blocks)
    {
      hide Begins, Ends, IsBlock, BitWriter.Emitted;
      if eof {
        EndsWith(start, blocks, bits, b);
      } else {
        BeginsMore(start, blocks, bits, b);
      }
      blocks := blocks + [b];
    }

    /** flush_block up to the start of the next block. */
    method WriteBlock(buf: Option<seq<byte>>, storedLen: nat, eof: bool) returns (ghost s: Sending)
      requires Valid() && !done && (buf.Some? ==> |buf.value| == storedLen)
      modifies this`optLen, this`staticLen, this`compressedLen, this`blocks, tb.flagBuf, trees.parts, w, w.outbuf
      ensures Apart() && trees.Apart() && Ready() && tb.Shape() && w.Valid() && |w.Emitted()| == compressedLen
      ensures if eof then Ends(w.Emitted(), blocks) else Begins(w.Emitted(), blocks)
      ensures Accounted(s, pending, buf.Some?, storedLen) && (s.form == StoredForm ==> buf.Some?)
      ensures |w.Emitted()| == |old(w.Emitted())| + FormBits(s.form, |old(w.Emitted())|, storedLen, s.stat, s.opt)
      ensures blocks == old(blocks) + [if s.form == StoredForm then Stored(buf.value) else Coded(pending)] && BlocksOk(blocks)
    {
      hide TokenBuffer.Held, Trees.Counted, Ready, BitWriter.Emitted, BitWriter.Valid, Begins, Ends, IsBlock, Buffered,
           DynamicExact, StaticExact, Trees.Apart, Apart, Accounted, FormBits, Choice, HasForm;
      WholeFrame();
      var maxBlindex; ghost var ll, dd, bl;
      maxBlindex, ll, dd, bl := PrepareBlock();
      ghost var start := w.Emitted();
      BufferShape();
      ghost var form, bits := SendBlock(buf, storedLen, eof, maxBlindex, ll, dd, bl);
      Append(if form == StoredForm then Stored(buf.value) else Coded(pending), eof, start, bits);
      s := Sending(form, staticLen, optLen, ll, dd, bl, maxBlindex + 1);
      IsAccounted(s, buf.Some?, storedLen);
    }

    lemma IsAccounted(s: Sending, available: bool, storedLen: nat)
      requires DynamicExact(s.ll, s.dd, s.bl, s.blcodes) && StaticExact() && s.stat == staticLen && s.opt == optLen
      requires s.form == Choice(available, storedLen, staticLen, optLen)
      ensures Accounted(s, pending, available, storedLen)
    {
      hide AllCodable, CodedBits, FixedL, FixedD, DynamicLength, Trees.Built;
    }

    /** flush_block writes the pending tokens as one block, or the text itself if that counts no more bytes. */
    method FlushBlock(buf: Option<seq<byte>>, storedLen: nat, eof: bool) returns (ghost s: Sending)
      requires Valid() && !done && (buf.Some? ==> |buf.value| == storedLen)
      modifies Repr
      ensures Valid() && Repr == old(Repr) && done == eof && pending == []
      ensures Accounted(s, old(pending), buf.Some?, storedLen) && (s.form == StoredForm ==> buf.Some?)
      ensures blocks == old(blocks) + [if s.form == StoredForm then Stored(buf.value) else Coded(old(pending))]
      ensures var start := |old(w.Emitted())|;
              var end := start + FormBits(s.form, start, storedLen, s.stat, s.opt);
              0 <= end && |w.Emitted()| == if eof then end + |Padding(end)| else end
    {
      hide TokenBuffer.Held, Trees.Counted, Ready, BitWriter.Emitted, BitWriter.Valid, Begins, Ends, Trees.Apart, Apart, Sent, BlocksOk,
           Accounted, FormBits;
      WholeFrame();
      s := WriteBlock(buf, storedLen, eof);
      CloseBlock(eof);
    }

    /** The end of flush_block. */
    method CloseBlock(eof: bool)
      requires Apart() && trees.Apart() && Ready() && tb.Shape() && w.Valid() && |w.Emitted()| == compressedLen
      requires BlocksOk(blocks) && if eof then Ends(w.Emitted(), blocks) else Begins(w.Emitted(), blocks)
      modifies this`pending, this`optLen, this`staticLen, this`compressedLen, this`done, Buffers(),
               trees.lt.freq, trees.dt.freq, trees.blt.freq, w, w.outbuf
      ensures Valid() && done == eof && pending == []
      ensures |w.Emitted()| == |old(w.Emitted())| + if eof then |Padding(|old(w.Emitted())|)| else 0
    {
      hide TokenBuffer.Held, Trees.Counted, Ready, BitWriter.Emitted, BitWriter.Valid, Begins, Ends, Trees.Apart, Apart, BlocksOk;
      WholeFrame();
      InitBlock();
      if eof {
        Windup(blocks);
      }
      done := eof;
    }

    lemma KeptOk()
      requires Valid()
      ensures BlocksOk(blocks)
    {
    }

    lemma BufferShape()
      requires Buffered(tb, pending)
      ensures tb.Shape()
    {
    }

    lemma WholeFrame()
      requires Apart() && trees.Apart()
      ensures this in Repr && {w, w.outbuf} + Buffers() + trees.parts <= Repr
      ensures {trees.lt.freq, trees.dt.freq, trees.blt.freq} <= trees.parts
      ensures {w, w.outbuf} !! Buffers() !! trees.parts !! Fixed() && this !in trees.parts
    {
    }
  }

  /** bi_init and ct_init. */
  method NewWriter() returns (b: BlockWriter)
    ensures b.Valid() && fresh(b.Repr) && !b.done && b.blocks == [] && b.pending == []
  {
    hide TreeIn, CodeTables.Ready, TokenBuffer.Held, FixedL, FixedD, BitWriter.Emitted, BitWriter.Valid, Trees.Counted,
         BlockWriter.Valid;
    var writer := new BitWriter();
    var buffer := new TokenBuffer();
    var dynamic := new Trees();
    var codes, ll, lc, dl, dc := NewTables();
    b := new BlockWriter(writer, codes, buffer, dynamic, ll, lc, dl, dc);
  }
}
