/** A whole run of the compressor (archival/gzip.c, zip, without the header and the checksum). */
module Zip {
  import opened RollingHash
  import opened Lz77
  import opened Options
  import opened BitOutput
  import opened Streams
  import opened LazyParse
  import opened BlockEnds
  import opened Blocks
  import opened Deflate

  lemma EndsInflated(bits: seq<bool>, bs: seq<Block>, text: seq<byte>)
    requires Ends(bits, bs) && ExpandBlocks(bs) == Some(text)
    ensures Inflated(bits) == Some(text)
  {
    hide ReadStream, ExpandBlocks;
    assert bits + [] == bits;
  }

  lemma WholeBytes(w: BitWriter)
    requires w.Valid() && w.biValid == 0
    ensures w.Emitted() == BitsOf(w.Bytes())
  {
  }

  lemma BlocksDone(b: BlockWriter)
    requires b.Valid() && b.done
    ensures b.w.Valid() && b.w.biValid == 0 && Ends(b.w.Emitted(), b.blocks)
    ensures |b.w.Emitted()| == 8 * (b.compressedLen / 8) && b.w in b.Repr
  {
    hide Ends, BitWriter.Emitted;
  }

  /**
   Compresses the input, however reading it splits it up.  The stream decompresses to exactly the
   bytes that were read, all of the input unless reading failed, and its size is as computed.  Every
   reference in it has a length from 3 to 258 and a distance from 1 to MAX_DIST.  The tokens that the blocks
   are made of are those that lazy evaluation chooses for the text, cut where a block is full.
   */
  method Deflated(input: seq<byte>)
    returns (bytes: seq<byte>, size: int, readError: bool,
             ghost text: seq<byte>, ghost blocks: seq<Block>, ghost trail: seq<Choice>)
    ensures Inflated(BitsOf(bytes)) == Some(text)
    ensures Ends(BitsOf(bytes), blocks) && ExpandBlocks(blocks) == Some(text) && BlocksOk(blocks)
    ensures !readError ==> text == input
    ensures text <= input && size == |bytes|
    ensures Chosen(text, trail) && End(trail) == |text|
    ensures TokensOk(Tokens(trail)) && Divided(blocks, Tokens(trail), true)
  {
    hide Chosen, End, Divided, BlockWriter.Valid, Ends, ExpandBlocks, BlocksOk, BitsOf, Inflated, BitWriter.Valid;
    var writer := NewWriter();
    var d := new Deflater(writer, input);
    assert d.Input() == input;
    d.Run();
    BlocksDone(writer);
    WholeBytes(writer.w);
    EndsInflated(writer.w.Emitted(), writer.blocks, d.text);
    text, readError, size, blocks, trail := d.text, d.readError, writer.compressedLen / 8, writer.blocks, d.trail;
    BufferFits(writer.w);
    writer.w.FlushOutbuf();
    bytes := writer.w.file;
    assert writer.w.Bytes() == bytes;
  }

  lemma BufferFits(w: BitWriter)
    requires w.Valid()
    ensures w.outcnt <= w.outbuf.Length == OUTBUFSIZ
  {
  }
}
