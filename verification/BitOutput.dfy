/**
 The bit packer (archival/gzip.c, bits.c part): bits collect in a 16-bit word that is written to
 a byte buffer, which is written to the file when it is full.
 */
module BitOutput {
  import opened Words
  import opened Bits
  import opened RollingHash

  const OUTBUFSIZ := 8192
  const BUF_SIZE := 16

  /** The bits of bytes, each from its least significant bit. */
  function BitsOf(bytes: seq<byte>): (r: seq<bool>)
    ensures |r| == 8 * |bytes|
  {
    if bytes == [] then [] else BitsOf(bytes[..|bytes| - 1]) + Low(bytes[|bytes| - 1] as nat, 8)
  }

  lemma BitsOfSnoc(bytes: seq<byte>, b: byte)
    ensures BitsOf(bytes + [b]) == BitsOf(bytes) + Low(b as nat, 8)
  {
    assert (bytes + [b])[..|bytes|] == bytes;
  }

  /** Low bits first, then the rest. */
  lemma {:induction false} LowSplit(v: nat, a: nat, b: nat)
    ensures Low(v, a + b) == Low(v, a) + Low(Shift(v, a), b)
  {
    if a == 0 {
      assert Low(v, 0) + Low(v, b) == Low(v, b);
    } else {
      LowSplit(v / 2, a - 1, b);
    }
  }

  lemma {:induction false} LowMod(v: nat, n: nat)
    ensures Low(v % Pow2(n), n) == Low(v, n)
  {
    if n > 0 {
      ModHalves(v, Pow2(n - 1));
      LowMod(v / 2, n - 1);
    }
  }

  lemma Pow2Of16()
    ensures Pow2(16) == 0x1_0000 && Pow2(8) == 256
  {
    assert Pow2(4) == 16;
    Pow2Add(4, 4);
    Pow2Add(8, 8);
  }

  lemma ShortIsTwoBytes(w: nat)
    requires w < 0x1_0000
    ensures Low(w, 16) == Low(w % 256, 8) + Low(w / 256, 8)
  {
    hide Low;
    LowSplit(w, 8, 8);
    Pow2Of16();
    LowMod(w, 8);
    assert Shift(w, 8) == w / 256 by {
      var a := w / 2;
      var b := a / 2;
      var c := b / 2;
      var d := c / 2;
      var e := d / 2;
      var f := e / 2;
      var g := f / 2;
      assert Shift(w, 8) == Shift(a, 7) == Shift(b, 6) == Shift(c, 5);
      assert Shift(c, 5) == Shift(d, 4) == Shift(e, 3) == Shift(f, 2) == Shift(g, 1) == Shift(g / 2, 0);
      assert g / 2 == w / 256;
    }
  }

  /** The 16-bit word with a value put on top of its valid bits. */
  function Word(buf: nat, valid: nat, value: nat): nat {
    Or(buf, value * Pow2(valid)) % 0x1_0000
  }

  /** Room in the word: the value goes on top of the bits there. */
  lemma PackFits(buf: nat, valid: nat, value: nat, length: nat)
    requires buf < Pow2(valid) && value < Pow2(length) && valid + length <= BUF_SIZE
    ensures var word := Word(buf, valid, value);
            word < Pow2(valid + length) && Low(word, valid + length) == Low(buf, valid) + Low(value, length)
  {
    hide Pow2, Low, Or;
    OrDisjoint(buf, value, valid);
    LowJoin(buf, valid, value, length);
    Pow2Add(length, valid);
    MulSpread(value, Pow2(length), Pow2(valid));
    Pow2Monotone(valid + length, BUF_SIZE);
    Pow2Of16();
    ModUnique(buf + value * Pow2(valid), Pow2(BUF_SIZE), 0, buf + value * Pow2(valid));
  }

  /** No room: the word takes the low bits of the value, the rest stays behind. */
  lemma PackSpills(buf: nat, valid: nat, value: nat, length: nat)
    requires buf < Pow2(valid) && value < Pow2(length) && valid <= BUF_SIZE && length <= BUF_SIZE < valid + length
    ensures var word := Word(buf, valid, value);
            var left := Shift(value, BUF_SIZE - valid);
            && left < Pow2(valid + length - BUF_SIZE)
            && Low(word, BUF_SIZE) + Low(left, valid + length - BUF_SIZE) == Low(buf, valid) + Low(value, length)
  {
    hide Pow2, Low, Or, Shift;
    var k := BUF_SIZE - valid;
    OrDisjoint(buf, value, valid);
    LowJoin(buf, valid, value, k);
    Pow2Of16();
    LowMod(buf + value * Pow2(valid), BUF_SIZE);
    LowSplit(value, k, length - k);
    ShiftBelow(value, k, length - k);
  }

  lemma WordFits(buf: nat, valid: nat, value: nat)
    ensures Word(buf, valid, value) < 0x1_0000
  {
  }

  function Zeros(n: nat): (r: seq<bool>)
    ensures |r| == n
  {
    seq(n, _ => false)
  }

  lemma {:induction false} LowOfZero(n: nat)
    ensures Low(0, n) == Zeros(n)
  {
    if n > 0 {
      LowOfZero(n - 1);
    }
  }

  /** More bits than the value has are zeros. */
  lemma LowPadded(v: nat, n: nat, k: nat)
    requires v < Pow2(n)
    ensures Low(v, n + k) == Low(v, n) + Zeros(k)
  {
    hide Low, Shift, Pow2;
    LowSplit(v, n, k);
    ShiftBelow(v, n, 0);
    assert Pow2(0) == 1 by { Pow2Zero(); }
    LowOfZero(k);
  }

  lemma Pow2Zero()
    ensures Pow2(0) == 1
  {
  }

  /** The zeros up to the next byte. */
  function Padding(n: nat): seq<bool> {
    Zeros((8 - n % 8) % 8)
  }

  lemma PaddingIs(n: nat, v: nat, k: nat)
    requires (v + k) % 8 == 0 && k < 8
    ensures Padding(8 * n + v) == Zeros(k)
  {
  }

  lemma {:induction false} BitsOfAppend(a: seq<byte>, b: seq<byte>)
    ensures BitsOf(a + b) == BitsOf(a) + BitsOf(b)
  {
    hide Low;
    if b == [] {
      assert a + b == a;
    } else {
      var k := |b| - 1;
      BitsOfAppend(a, b[..k]);
      BitsOfSnoc(a + b[..k], b[k]);
      assert a + b == a + b[..k] + [b[k]];
    }
  }

  /** The 16-bit length of a stored block and its complement. */
  function StoredHeader(len: nat): (r: seq<bool>)
    ensures |r| == 32
  {
    Low(len % 0x1_0000, 16) + Low(0xffff - len % 0x1_0000, 16)
  }

  class BitWriter {
    var biBuf: nat            // bits not yet in the buffer, from the bottom
    var biValid: nat          // their number
    const outbuf: array<byte>
    var outcnt: nat
    var file: seq<byte>       // what has been written to the file

    constructor ()
      ensures Valid() && Emitted() == [] && fresh(outbuf)
    {
      biBuf, biValid, outcnt, file := 0, 0, 0, [];
      outbuf := new byte[OUTBUFSIZ];
    }

    ghost predicate HasRoom()
      reads this`outcnt
    {
      outbuf.Length == OUTBUFSIZ && outcnt < OUTBUFSIZ
    }

    ghost predicate Valid()
      reads this`outcnt, this`biBuf, this`biValid
    {
      HasRoom() && biValid <= BUF_SIZE && biBuf < Pow2(biValid)
    }

    ghost function Bytes(): seq<byte>
      requires outcnt <= outbuf.Length
      reads this`file, this`outcnt, outbuf
    {
      file + outbuf[..outcnt]
    }

    /** All the bits sent so far. */
    ghost function Emitted(): seq<bool>
      requires Valid()
      reads this, outbuf
    {
      BitsOf(Bytes()) + Low(biBuf, biValid)
    }

    method FlushOutbuf()
      requires outcnt <= outbuf.Length == OUTBUFSIZ
      modifies this`outcnt, this`file
      ensures HasRoom() && outcnt == 0 && Bytes() == old(Bytes())
    {
      if outcnt == 0 {
        return;
      }
      file := file + outbuf[..outcnt];
      outcnt := 0;
    }

    method PutByte(c: byte)
      requires HasRoom()
      modifies this`outcnt, this`file, outbuf
      ensures HasRoom() && Bytes() == old(Bytes()) + [c]
    {
      outbuf[outcnt] := c;
      outcnt := outcnt + 1;
      assert Bytes() == old(Bytes()) + [c];
      if outcnt == OUTBUFSIZ {
        FlushOutbuf();
      }
    }

    method PutShort(w: nat)
      requires HasRoom() && w < 0x1_0000
      modifies this`outcnt, this`file, outbuf
      ensures HasRoom() && BitsOf(Bytes()) == old(BitsOf(Bytes())) + Low(w, 16)
    {
      hide Low, BitsOf;
      ghost var bytes := Bytes();
      var lo, hi := (w % 256) as byte, (w / 256) as byte;
      ShortIsTwoBytes(w);
      BitsOfSnoc(bytes, lo);
      BitsOfSnoc(bytes + [lo], hi);
      if outcnt < OUTBUFSIZ - 2 {
        outbuf[outcnt] := lo;
        outcnt := outcnt + 1;
        outbuf[outcnt] := hi;
        outcnt := outcnt + 1;
        assert Bytes() == bytes + [lo] + [hi];
      } else {
        PutByte(lo);
        PutByte(hi);
      }
    }

    /** send_bits appends the bits of the value. */
    method SendBits(value: nat, length: nat)
      requires Valid() && length <= BUF_SIZE && value < Pow2(length)
      modifies this, outbuf
      ensures Valid() && Emitted() == old(Emitted()) + Low(value, length)
    {
      hide Low, BitsOf, Word, Shift, Pow2;
      WordFits(biBuf, biValid, value);
      ghost var bits, word := BitsOf(Bytes()), Low(biBuf, biValid);
      if biValid > BUF_SIZE - length {
        PackSpills(biBuf, biValid, value, length);
        biBuf := Word(biBuf, biValid, value);
        PutShort(biBuf);
        ghost var w := Low(biBuf, 16);
        biBuf := Shift(value, BUF_SIZE - biValid);
        biValid := biValid + length - BUF_SIZE;
        assert Emitted() == bits + (w + Low(biBuf, biValid));
      } else {
        PackFits(biBuf, biValid, value, length);
        biBuf := Word(biBuf, biValid, value);
        biValid := biValid + length;
        assert Emitted() == bits + Low(biBuf, biValid);
      }
      assert old(Emitted()) + Low(value, length) == bits + (word + Low(value, length));
    }

    /** bi_windup pads with zeros to the next byte. */
    method BiWindup()
      requires Valid()
      modifies this, outbuf
      ensures Valid() && biValid == 0 && Emitted() == old(Emitted()) + Padding(|old(Emitted())|)
    {
      hide Low, BitsOf, Pow2, Padding, Zeros;
      Pow2Of16();
      Pow2Zero();
      ghost var bytes, bits, word := Bytes(), BitsOf(Bytes()), Low(biBuf, biValid);
      PaddingIs(|bytes|, biValid, (16 - biValid) % 8);
      if biValid > 8 {
        Pow2Monotone(biValid, 16);
        LowPadded(biBuf, biValid, 16 - biValid);
        PutShort(biBuf);
        assert BitsOf(Bytes()) == bits + (word + Zeros(16 - biValid));
      } else if biValid > 0 {
        Pow2Monotone(biValid, 8);
        LowPadded(biBuf, biValid, 8 - biValid);
        PutByte(biBuf as byte);
        BitsOfSnoc(bytes, biBuf as byte);
        assert BitsOf(Bytes()) == bits + (word + Zeros(8 - biValid));
      }
      assert BitsOf(Bytes()) == bits + word + Padding(|bits + word|);
      biBuf, biValid := 0, 0;
      assert Emitted() == BitsOf(Bytes());
    }

    method PutBytes(buf: seq<byte>)
      requires Valid() && biValid == 0
      modifies this`outcnt, this`file, outbuf
      ensures Valid() && Emitted() == old(Emitted()) + BitsOf(buf)
    {
      hide Low, BitsOf, Pow2;
      ghost var bytes := Bytes();
      for i := 0 to |buf|
        invariant HasRoom() && Bytes() == bytes + buf[..i]
      {
        PutByte(buf[i]);
        assert bytes + buf[..i + 1] == bytes + buf[..i] + [buf[i]];
      }
      assert buf[..|buf|] == buf;
      BitsOfAppend(bytes, buf);
    }

    /** copy_block: the bytes on a byte boundary, after their number and its complement. */
    method CopyBlock(buf: seq<byte>, header: bool)
      requires Valid()
      modifies this, outbuf
      ensures Valid() && biValid == 0
      ensures Emitted() == old(Emitted()) + Padding(|old(Emitted())|) +
                           (if header then StoredHeader(|buf|) else []) + BitsOf(buf)
    {
      hide Low, BitsOf, Pow2, Padding;
      BiWindup();
      ghost var bits := Emitted();
      assert bits == BitsOf(Bytes());
      if header {
        PutShort(|buf| % 0x1_0000);
        PutShort(0xffff - |buf| % 0x1_0000);
        assert BitsOf(Bytes()) == bits + StoredHeader(|buf|);
      }
      assert Emitted() == BitsOf(Bytes());
      PutBytes(buf);
    }
  }
}
