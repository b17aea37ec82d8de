/**
 Streams of blocks: reading a whole stream, and the bits of each form of block that
 archival/gzip.c writes (flush_block).
 */
module Streams {
  import opened Words
  import opened Bits
  import opened RollingHash
  import opened Lz77
  import opened Options
  import opened Canonical
  import opened Tables
  import opened Inflate
  import opened TextCoding
  import opened BitOutput
  import opened TreeHeader
  import opened StaticTrees

  lemma {:induction false} TokensShorten(llens: seq<nat>, dlens: seq<nat>, bits: seq<bool>)
    ensures var p := DecodeTokens(llens, dlens, bits); p.Some? ==> |p.value.rest| <= |bits|
    decreases |bits|
  {
    hide DecodeItem;
    ItemShortens(llens, dlens, bits);
    var i := DecodeItem(llens, dlens, bits);
    if i.Some? && i.value.value.Text? {
      TokensShorten(llens, dlens, i.value.rest);
    }
  }

  lemma {:induction false} LengthsShorten(bl: seq<nat>, bits: seq<bool>, n: nat, acc: seq<nat>)
    ensures var p := DecodeLengths(bl, bits, n, acc); p.Some? ==> |p.value.rest| <= |bits|
    decreases |bits|
  {
    hide DecodeFrom, DecodeRun;
    SymbolShortens(bl, bits, 0);
    var d := DecodeSymbol(bl, bits);
    if |acc| < n && d.Some? && DecodeRun(acc, d.value.symbol, d.value.rest).Some? {
      var p := DecodeRun(acc, d.value.symbol, d.value.rest).value;
      LengthsShorten(bl, p.rest, n, p.value);
    }
  }

  lemma {:induction false} BlShortens(bits: seq<bool>, rank: nat, n: nat, acc: seq<nat>)
    requires rank <= n <= BL_CODES && |acc| == BL_CODES
    ensures var p := ReadBl(bits, rank, n, acc); p.Some? ==> |p.value.rest| <= |bits|
    decreases n - rank
  {
    hide TakeBits;
    if rank < n && TakeBits(bits, 3).Some? {
      var p := TakeBits(bits, 3).value;
      BlShortens(p.rest, rank + 1, n, acc[BL_ORDER[rank] := p.value]);
    }
  }

  lemma TreeCodesShorten(lcodes: nat, dcodes: nat, blcodes: nat, bits: seq<bool>)
    ensures var p := DecodeTreeCodes(lcodes, dcodes, blcodes, bits); p.Some? ==> |p.value.rest| <= |bits|
  {
    hide ReadBl, DecodeLengths;
    if blcodes <= BL_CODES {
      BlShortens(bits, 0, blcodes, Copies(0, BL_CODES));
      var bl := ReadBl(bits, 0, blcodes, Copies(0, BL_CODES));
      if bl.Some? {
        LengthsShorten(bl.value.value, bl.value.rest, lcodes + dcodes, []);
      }
    }
  }

  lemma TreesShorten(bits: seq<bool>)
    ensures var p := DecodeTrees(bits); p.Some? ==> |p.value.rest| <= |bits|
  {
    hide TakeBits, DecodeTreeCodes;
    var hlit := TakeBits(bits, 5);
    if hlit.Some? && TakeBits(hlit.value.rest, 5).Some? {
      var hdist := TakeBits(hlit.value.rest, 5);
      var hclen := TakeBits(hdist.value.rest, 4);
      if hclen.Some? {
        TreeCodesShorten(hlit.value.value + 257, hdist.value.value + 1, hclen.value.value + 4, hclen.value.rest);
      }
    }
  }

  lemma BodyShortens(kind: nat, last: bool, bits: seq<bool>, pos: nat)
    ensures var p := DecodeBody(kind, last, bits, pos); p.Some? ==> |p.value.rest| <= |bits|
  {
    hide TakeBits, DecodeTokens, DecodeTrees, ReadBytes;
    TokensShorten(FixedL(), FixedD(), bits);
    TreesShorten(bits);
    var t := DecodeTrees(bits);
    if t.Some? {
      TokensShorten(t.value.value.llens, t.value.value.dlens, t.value.rest);
    }
  }

  /** A block takes at least the three bits of its header. */
  lemma BlockShortens(bits: seq<bool>, pos: nat)
    ensures var p := DecodeBlock(bits, pos); p.Some? ==> |p.value.rest| < |bits|
  {
    hide TakeBits, DecodeBody;
    var final := TakeBits(bits, 1);
    if final.Some? && TakeBits(final.value.rest, 2).Some? {
      var kind := TakeBits(final.value.rest, 2).value;
      BodyShortens(kind.value, final.value.value == 1, kind.rest, pos + 3);
    }
  }

  /** The blocks from position pos of a stream on, up to the last one. */
  function ReadStream(bits: seq<bool>, pos: nat): Option<seq<Block>>
    decreases |bits|
  {
    BlockShortens(bits, pos);
    match DecodeBlock(bits, pos)
    case None => None
    case Some(p) =>
      if p.value.last then Some([p.value.block])
      else
        match ReadStream(p.rest, pos + |bits| - |p.rest|)
        case None => None
        case Some(bs) => Some([p.value.block] + bs)
  }

  /** The text of a stream (what a decompressor makes of it). */
  function Inflated(bits: seq<bool>): Option<seq<byte>> {
    match ReadStream(bits, 0)
    case None => None
    case Some(bs) => ExpandBlocks(bs)
  }

  function Prepended(bs: seq<Block>, rest: Option<seq<Block>>): Option<seq<Block>> {
    match rest
    case None => None
    case Some(more) => Some(bs + more)
  }

  /** bits are the blocks bs, none of them marked as the last. */
  ghost predicate Begins(bits: seq<bool>, bs: seq<Block>) {
    forall rest: seq<bool> :: ReadStream(bits + rest, 0) == Prepended(bs, ReadStream(rest, |bits|))
  }

  /** bits are the blocks bs, complete; what follows does not matter. */
  ghost predicate Ends(bits: seq<bool>, bs: seq<Block>) {
    forall rest: seq<bool> :: ReadStream(bits + rest, 0) == Some(bs)
  }

  /** At position pos the bits are one block. */
  ghost predicate IsBlock(bits: seq<bool>, pos: nat, b: Block, last: bool) {
    forall rest: seq<bool> :: DecodeBlock(bits + rest, pos) == Some(Parsed(Piece(b, last), rest))
  }

  lemma BeginsEmpty()
    ensures Begins([], [])
  {
    hide ReadStream;
    forall rest: seq<bool>
      ensures ReadStream([] + rest, 0) == Prepended([], ReadStream(rest, 0))
    {
      assert [] + rest == rest;
      if ReadStream(rest, 0).Some? {
        assert [] + ReadStream(rest, 0).value == ReadStream(rest, 0).value;
      }
    }
  }

  lemma ReadOne(bits: seq<bool>, pos: nat, b: Block, last: bool, rest: seq<bool>)
    requires IsBlock(bits, pos, b, last)
    ensures ReadStream(bits + rest, pos) == if last then Some([b]) else Prepended([b], ReadStream(rest, pos + |bits|))
  {
    hide DecodeBlock;
    assert DecodeBlock(bits + rest, pos) == Some(Parsed(Piece(b, last), rest));
  }

  lemma BeginsMore(bits: seq<bool>, bs: seq<Block>, next: seq<bool>, b: Block)
    requires Begins(bits, bs) && IsBlock(next, |bits|, b, false)
    ensures Begins(bits + next, bs + [b])
  {
    hide ReadStream, IsBlock;
    forall rest: seq<bool>
      ensures ReadStream(bits + next + rest, 0) == Prepended(bs + [b], ReadStream(rest, |bits + next|))
    {
      assert bits + next + rest == bits + (next + rest);
      ReadOne(next, |bits|, b, false, rest);
      var more := ReadStream(rest, |bits| + |next|);
      if more.Some? {
        assert bs + ([b] + more.value) == bs + [b] + more.value;
      }
    }
  }

  lemma EndsWith(bits: seq<bool>, bs: seq<Block>, next: seq<bool>, b: Block)
    requires Begins(bits, bs) && IsBlock(next, |bits|, b, true)
    ensures Ends(bits + next, bs + [b])
  {
    hide ReadStream, IsBlock;
    forall rest: seq<bool>
      ensures ReadStream(bits + next + rest, 0) == Some(bs + [b])
    {
      assert bits + next + rest == bits + (next + rest);
      ReadOne(next, |bits|, b, true, rest);
    }
  }

  lemma EndsPadded(bits: seq<bool>, bs: seq<Block>, pad: seq<bool>)
    requires Ends(bits, bs)
    ensures Ends(bits + pad, bs)
  {
    hide ReadStream;
    forall rest: seq<bool>
      ensures ReadStream(bits + pad + rest, 0) == Some(bs)
    {
      assert bits + pad + rest == bits + (pad + rest);
    }
  }

  const STORED_BLOCK := 0
  const STATIC_TREES := 1
  const DYN_TREES := 2

  function Eof(last: bool): nat {
    if last then 1 else 0
  }

  /** The three bits that start a block. */
  function BlockHead(kind: nat, last: bool): (r: seq<bool>)
    ensures |r| == 3
  {
    Low(2 * kind + Eof(last), 3)
  }

  lemma DecodeHead(kind: nat, last: bool, rest: seq<bool>, pos: nat)
    requires kind < 3
    ensures DecodeBlock(BlockHead(kind, last) + rest, pos) == DecodeBody(kind, last, rest, pos + 3)
  {
    hide Low, TakeBits, DecodeBody, Pow2;
    SmallPowers();
    var e := Eof(last);
    LowJoin(e, 1, kind, 2);
    assert BlockHead(kind, last) + rest == Low(e, 1) + (Low(kind, 2) + rest);
    TakeLow(e, 1, Low(kind, 2) + rest);
    TakeLow(kind, 2, rest);
  }

  lemma {:induction false} ReadBytesBack(text: seq<byte>, rest: seq<bool>)
    ensures ReadBytes(BitsOf(text) + rest, |text|) == text
    decreases |text|
  {
    hide Low, Value;
    if text != [] {
      var n := |text| - 1;
      var last := text[n] as nat;
      var tail := Low(last, 8) + rest;
      var bits := BitsOf(text) + rest;
      assert bits == BitsOf(text[..n]) + tail;
      ReadBytesBack(text[..n], tail);
      assert bits[8 * n..8 * (n + 1)] == Low(last, 8);
      SmallPowers();
      ValueOfLow(last, 8);
    }
  }

  /** A stored block at position pos. */
  function StoredBits(text: seq<byte>, last: bool, pos: nat): seq<bool> {
    BlockHead(STORED_BLOCK, last) + Padding(pos + 3) + StoredHeader(|text|) + BitsOf(text)
  }

  lemma StoredDecodes(text: seq<byte>, rest: seq<bool>)
    requires |text| < 0x1_0000
    ensures DecodeStored(StoredHeader(|text|) + BitsOf(text) + rest) == Some(Parsed(text, rest))
  {
    hide Low, TakeBits, Pow2, BitsOf, ReadBytes;
    Pow2Of16();
    ModUnique(|text|, 0x1_0000, 0, |text|);
    var len, nlen := Low(|text|, 16), Low(0xffff - |text|, 16);
    assert StoredHeader(|text|) + BitsOf(text) + rest == len + (nlen + (BitsOf(text) + rest));
    TakeLow(|text|, 16, nlen + (BitsOf(text) + rest));
    TakeLow(0xffff - |text|, 16, BitsOf(text) + rest);
    ReadBytesBack(text, rest);
    assert (BitsOf(text) + rest)[8 * |text|..] == rest;
  }

  lemma StoredIsBlock(text: seq<byte>, last: bool, pos: nat)
    requires |text| < 0x1_0000
    ensures IsBlock(StoredBits(text, last, pos), pos, Stored(text), last)
  {
    hide BlockHead, StoredHeader, BitsOf, DecodeStored, DecodeBlock, Padding;
    forall rest: seq<bool>
      ensures DecodeBlock(StoredBits(text, last, pos) + rest, pos) == Some(Parsed(Piece(Stored(text), last), rest))
    {
      var tail := StoredHeader(|text|) + BitsOf(text) + rest;
      assert StoredBits(text, last, pos) + rest == BlockHead(STORED_BLOCK, last) + (Padding(pos + 3) + tail);
      DecodeHead(STORED_BLOCK, last, Padding(pos + 3) + tail, pos);
      SkipPadding(pos + 3, tail);
      StoredDecodes(text, rest);
    }
  }

  lemma SkipPadding(pos: nat, tail: seq<bool>)
    ensures var p := TakeBits(Padding(pos) + tail, (8 - pos % 8) % 8); p.Some? && p.value.rest == tail
  {
    hide Value;
  }

  lemma StaticIsBlock(ts: seq<Token>, last: bool, pos: nat)
    requires AllCodable(ts, FixedL(), FixedD()) && HasCode(FixedL(), END_BLOCK)
    ensures IsBlock(BlockHead(STATIC_TREES, last) + CodedBits(ts, FixedL(), FixedD()), pos, Coded(ts), last)
  {
    hide BlockHead, CodedBits, DecodeBlock, DecodeTokens, AllCodable, FixedL, FixedD, IsCode;
    var bits := CodedBits(ts, FixedL(), FixedD());
    FixedLIsCode();
    FixedDIsCode();
    forall rest: seq<bool>
      ensures DecodeBlock(BlockHead(STATIC_TREES, last) + bits + rest, pos) == Some(Parsed(Piece(Coded(ts), last), rest))
    {
      assert BlockHead(STATIC_TREES, last) + bits + rest == BlockHead(STATIC_TREES, last) + (bits + rest);
      DecodeHead(STATIC_TREES, last, bits + rest, pos);
      DecodeText(ts, FixedL(), FixedD(), rest);
    }
  }

  lemma DynamicIsBlock(ts: seq<Token>, llens: seq<nat>, dlens: seq<nat>, bl: seq<nat>, blcodes: nat, last: bool, pos: nat)
    requires HeaderOk(llens, dlens, bl, blcodes) && AllCodable(ts, llens, dlens) && HasCode(llens, END_BLOCK)
    requires IsCode(llens) && IsCode(dlens)
    ensures IsBlock(BlockHead(DYN_TREES, last) + HeaderBits(llens, dlens, bl, blcodes) + CodedBits(ts, llens, dlens),
                    pos, Coded(ts), last)
  {
    hide BlockHead, CodedBits, DecodeBlock, DecodeTokens, AllCodable, HeaderBits, HeaderOk, DecodeTrees, IsCode;
    var head, bits := HeaderBits(llens, dlens, bl, blcodes), CodedBits(ts, llens, dlens);
    forall rest: seq<bool>
      ensures DecodeBlock(BlockHead(DYN_TREES, last) + head + bits + rest, pos) ==
              Some(Parsed(Piece(Coded(ts), last), rest))
    {
      assert BlockHead(DYN_TREES, last) + head + bits + rest == BlockHead(DYN_TREES, last) + (head + (bits + rest));
      DecodeHead(DYN_TREES, last, head + (bits + rest), pos);
      DecodeHeader(llens, dlens, bl, blcodes, bits + rest);
      DecodeText(ts, llens, dlens, rest);
    }
  }
}
