/**
 Printable forms of bytes (coreutils/uuencode.c): three bytes become four characters, in the
 historical format and in base64 (section 6.8 of RFC 2045).
 */
module Uuencode {
  type Byte = n: int | 0 <= n < 256

  const UPPER := "ABCDEFGHIJKLMNOPQRSTUVWXYZ"
  const LOWER := "abcdefghijklmnopqrstuvwxyz"
  const DIGITS := "0123456789"
  const SIGNS := "!\"#$%&'()*+,-./"
  const TBL_BASE64 := UPPER + LOWER + DIGITS + "+/="
  const TBL_STD := "`" + SIGNS + DIGITS + ":;<=>?@" + UPPER + "[\\]^_" + "`"

  const SRC_BUF_SIZE := 45
  const DST_BUF_SIZE := 60

  /** Four numbers of six bits from three bytes. */
  function Four(a: Byte, b: Byte, c: Byte): (v: seq<int>)
    ensures |v| == 4 && forall k :: 0 <= k < 4 ==> 0 <= v[k] < 64
  {
    [a / 4, a % 4 * 16 + b / 16, b % 16 * 4 + c / 64, c % 64]
  }

  /** They are the same 24 bits in the same order. */
  lemma FourMeans(a: Byte, b: Byte, c: Byte)
    ensures var v := Four(a, b, c);
            v[0] * 0x40000 + v[1] * 0x1000 + v[2] * 0x40 + v[3] == a * 0x10000 + b * 0x100 + c
  {
  }

  function Quad(a: Byte, b: Byte, c: Byte, tbl: string): (q: string)
    requires |tbl| == 65
  {
    var v := Four(a, b, c);
    [tbl[v[0]], tbl[v[1]], tbl[v[2]], tbl[v[3]]]
  }

  /** The characters for the bytes; the last group is padded. */
  function Encoded(s: seq<Byte>, tbl: string): (e: string)
    requires |tbl| == 65
    ensures |e| == (|s| + 2) / 3 * 4
    decreases |s|
  {
    if s == [] then ""
    else if |s| == 1 then Quad(s[0], 0, 0, tbl)[..2] + [tbl[64], tbl[64]]
    else if |s| == 2 then Quad(s[0], s[1], 0, tbl)[..3] + [tbl[64]]
    else Quad(s[0], s[1], s[2], tbl) + Encoded(s[3..], tbl)
  }

  lemma {:induction false} EncodedAppend(s: seq<Byte>, t: seq<Byte>, tbl: string)
    requires |tbl| == 65 && |s| % 3 == 0
    ensures Encoded(s + t, tbl) == Encoded(s, tbl) + Encoded(t, tbl)
    decreases |s|
  {
    hide Quad, Four;
    if s == [] {
      assert s + t == t;
    } else {
      EncodedAppend(s[3..], t, tbl);
      assert (s + t)[3..] == s[3..] + t;
      var q := Quad(s[0], s[1], s[2], tbl);
      assert Encoded(s + t, tbl) == q + Encoded(s[3..] + t, tbl);
      assert q + (Encoded(s[3..], tbl) + Encoded(t, tbl)) == q + Encoded(s[3..], tbl) + Encoded(t, tbl);
    }
  }

  /** Whole groups with zeroes at the end differ from the bytes without them in the padding. */
  lemma EncodedPadded(s: seq<Byte>, t: seq<Byte>, pad: nat, tbl: string)
    requires |tbl| == 65 && |s| % 3 == 0 && |t| == 3 && 1 <= pad <= 2 && forall k :: 3 - pad <= k < 3 ==> t[k] == 0
    ensures var whole, n := Encoded(s, tbl) + Quad(t[0], t[1], t[2], tbl), |Encoded(s, tbl)| + 4;
            Encoded(s + t[..3 - pad], tbl) == whole[..n - pad] + (if pad == 1 then [tbl[64]] else [tbl[64], tbl[64]])
  {
    EncodedAppend(s, t[..3 - pad], tbl);
    var part := Encoded(t[..3 - pad], tbl);
    assert part == Quad(t[0], t[1], t[2], tbl)[..4 - pad] + (if pad == 1 then [tbl[64]] else [tbl[64], tbl[64]]);
  }

  /** The bytes in the buffer from the length to the end of its group are zero. */
  predicate ZeroAfter(src: seq<Byte>, length: nat) {
    (length + 2) / 3 * 3 <= |src| && forall k :: length <= k < (length + 2) / 3 * 3 ==> src[k] == 0
  }

  /** uuencode: the characters of the buffer and a zero after them. */
  method Encode(src: array<Byte>, store: array<char>, length: nat, tbl: string)
    requires |tbl| == 65 && store.Length > (length + 2) / 3 * 4 && ZeroAfter(src[..], length)
    modifies store
    ensures store[..(length + 2) / 3 * 4] == Encoded(src[..length], tbl) && store[(length + 2) / 3 * 4] == '\0'
  {
    hide Quad, Encoded;
    var i, p := 0, 0;
    EncodedNone(tbl);
    while i < length
      invariant 0 <= i <= (length + 2) / 3 * 3 && i % 3 == 0 && p == i / 3 * 4
      invariant store[..p] == Encoded(src[..i], tbl)
    {
      p := EncodeGroup(src, store, i, p, tbl);
      i := i + 3;
    }
    Pad(src, store, i, p, length, tbl);
    store[p] := '\0';
  }

  /** The end of uuencode: the characters of the bytes that are not there become pads. */
  method Pad(src: array<Byte>, store: array<char>, i: nat, p: nat, length: nat, tbl: string)
    requires |tbl| == 65 && length <= i == (length + 2) / 3 * 3 <= src.Length && p == i / 3 * 4 < store.Length
    requires store[..p] == Encoded(src[..i], tbl) && ZeroAfter(src[..], length)
    modifies store
    ensures store[..p] == Encoded(src[..length], tbl)
  {
    hide Quad, Encoded;
    if i == length + 1 || i == length + 2 {
      ghost var t := src[i - 3..i];
      assert src[..i] == src[..i - 3] + t && src[..length] == src[..i - 3] + t[..3 - (i - length)];
      EncodedGroup(src[..i - 3], t, tbl);
      EncodedPadded(src[..i - 3], t, i - length, tbl);
      ghost var whole := store[..p];
      if i == length + 1 {
        store[p - 1] := tbl[64];
        assert store[..p] == whole[..p - 1] + [tbl[64]];
      } else {
        store[p - 2] := tbl[64];
        store[p - 1] := tbl[64];
        assert store[..p] == whole[..p - 2] + [tbl[64], tbl[64]];
      }
    }
  }

  lemma EncodedNone(tbl: string)
    requires |tbl| == 65
    ensures Encoded([], tbl) == ""
  {
  }

  lemma EncodedGroup(s: seq<Byte>, t: seq<Byte>, tbl: string)
    requires |tbl| == 65 && |s| % 3 == 0 && |t| == 3
    ensures Encoded(s + t, tbl) == Encoded(s, tbl) + Quad(t[0], t[1], t[2], tbl)
  {
    hide Quad;
    EncodedAppend(s, t, tbl);
    assert t[3..] == [];
    assert Encoded(t, tbl) == Quad(t[0], t[1], t[2], tbl) + Encoded([], tbl);
  }

  /** One turn of the loop of uuencode. */
  method EncodeGroup(src: array<Byte>, store: array<char>, i: nat, p: nat, tbl: string) returns (next: nat)
    requires |tbl| == 65 && i + 3 <= src.Length && i % 3 == 0 && p == i / 3 * 4 && p + 4 <= store.Length
    requires store[..p] == Encoded(src[..i], tbl)
    modifies store
    ensures next == p + 4 && store[..next] == Encoded(src[..i + 3], tbl)
  {
    hide Encoded;
    ghost var was := store[..p];
    ghost var t := src[i..i + 3];
    EncodedGroup(src[..i], t, tbl);
    assert src[..i + 3] == src[..i] + t;
    store[p] := tbl[src[i] / 4];
    store[p + 1] := tbl[src[i] % 4 * 16 + src[i + 1] / 16];
    store[p + 2] := tbl[src[i + 1] % 16 * 4 + src[i + 2] / 64];
    store[p + 3] := tbl[src[i + 2] % 64];
    next := p + 4;
    assert store[..next] == was + Quad(t[0], t[1], t[2], tbl);
  }

  function Table(base64: bool): (tbl: string)
    ensures |tbl| == 65
  {
    if base64 then TBL_BASE64 else TBL_STD
  }

  function Min(a: nat, b: nat): nat {
    if a < b then a else b
  }

  /** A line: the historical format has the number of its bytes in front. */
  function Line(s: seq<Byte>, base64: bool): string
    requires |s| <= SRC_BUF_SIZE
  {
    (if base64 then "" else [TBL_STD[|s|]]) + Encoded(s, Table(base64))
  }

  function Trailer(base64: bool): string {
    if base64 then "====\n" else "`\nend\n"
  }

  /** What follows the line with the name. */
  function Body(input: seq<Byte>, base64: bool): string
    decreases |input|
  {
    if input == [] then Trailer(base64)
    else
      var n := Min(|input|, SRC_BUF_SIZE);
      Line(input[..n], base64) + "\n" + Body(input[n..], base64)
  }

  lemma NextLine(input: seq<Byte>, pos: nat, size: nat, base64: bool)
    requires pos < |input| && size == Min(|input| - pos, SRC_BUF_SIZE)
    ensures Body(input[pos..], base64) == Line(input[pos..pos + size], base64) + "\n" + Body(input[pos + size..], base64)
  {
    hide Line;
    assert input[pos..][..size] == input[pos..pos + size] && input[pos..][size..] == input[pos + size..];
  }

  lemma LastLine(base64: bool)
    ensures Body([], base64) == Trailer(base64)
  {
  }

  /** fread into the buffer, and zeroes after the bytes of a short last chunk. */
  method Fill(buf: array<Byte>, s: seq<Byte>)
    requires |s| <= SRC_BUF_SIZE < buf.Length
    modifies buf
    ensures buf[..|s|] == s && forall k :: |s| <= k < SRC_BUF_SIZE ==> buf[k] == 0
  {
    for k := 0 to |s|
      invariant forall j :: 0 <= j < k ==> buf[j] == s[j]
    {
      buf[k] := s[k];
    }
    if |s| != SRC_BUF_SIZE {
      for k := |s| to SRC_BUF_SIZE
        invariant forall j :: 0 <= j < |s| ==> buf[j] == s[j]
        invariant forall j :: |s| <= j < k ==> buf[j] == 0
      {
        buf[k] := 0;
      }
    }
  }

  /** One turn of the loop of uuencode_main. */
  method WriteLine(s: seq<Byte>, base64: bool, srcBuf: array<Byte>, dstBuf: array<char>) returns (line: string)
    requires 0 < |s| <= SRC_BUF_SIZE < srcBuf.Length && dstBuf.Length == DST_BUF_SIZE + 1
    modifies srcBuf, dstBuf
    ensures line == Line(s, base64)
  {
    hide Encoded;
    var tbl, size := Table(base64), |s|;
    Fill(srcBuf, s);
    var writeSize := if size != SRC_BUF_SIZE then 4 * ((size + 2) / 3) else DST_BUF_SIZE;
    assert ZeroAfter(srcBuf[..], size);
    Encode(srcBuf, dstBuf, size, tbl);
    line := "";
    if !base64 {
      line := [tbl[size]];
    }
    line := line + dstBuf[..writeSize];
  }

  /** The loop of uuencode_main over the chunks, after the begin line and without its newline. */
  method Write(input: seq<Byte>, base64: bool) returns (out: string)
    ensures out == "\n" + Body(input, base64)
  {
    hide Encoded, Body, Line;
    var srcBuf := new Byte[SRC_BUF_SIZE + 1](_ => 0);
    var dstBuf := new char[DST_BUF_SIZE + 1];
    var pos := 0;
    out := "";
    assert input[0..] == input;
    while pos < |input|
      invariant 0 <= pos <= |input|
      invariant out + "\n" + Body(input[pos..], base64) == "\n" + Body(input, base64)
    {
      var size := Min(|input| - pos, SRC_BUF_SIZE);
      var line := WriteLine(input[pos..pos + size], base64, srcBuf, dstBuf);
      NextLine(input, pos, size, base64);
      ghost var was := out;
      out := out + "\n" + line;
      pos := pos + size;
      assert out + "\n" + Body(input[pos..], base64) == was + "\n" + (line + "\n" + Body(input[pos..], base64));
    }
    LastLine(base64);
    assert input[pos..] == [];
    out := out + "\n" + (if base64 then "====\n" else "`\nend\n");
  }
}
