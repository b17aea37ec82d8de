/**
 Reading the historical format back (coreutils/uudecode.c, read_stduu).

 The text is what follows the begin line. A decoder that dies has written the bytes before that.
 */
module Uudecode {
  import opened Uuencode
  import opened Merging
  import opened UuLines

  function Sextet(c: char): (n: nat)
    ensures n < 64
  {
    (c as int - 0x20) % 64
  }

  lemma SextetOfTable(v: nat)
    requires v <= 64
    ensures Sextet(TBL_STD[v]) == v % 64 && TBL_STD[v] != 'e' && TBL_STD[v] != '\n' && TBL_STD[v] != '\0'
  {
    Alphabet();
    if v == 0 || v == 64 {
      assert TBL_STD[v] == '`';
    } else {
      assert TBL_STD[v] as int == 0x20 + v;
    }
  }

  /** A character of a line, which has a zero after it. */
  function At(line: string, i: nat): char
    requires i <= |line|
  {
    if i < |line| then line[i] else '\0'
  }

  /** The bytes from length characters of the line. */
  function Merged(line: string, at: nat, length: int): seq<Byte>
    requires at + length <= |line|
    decreases length
  {
    if length <= 0 then []
    else
      [Merge0(Sextet(At(line, at)), Sextet(At(line, at + 1)))] +
      if length == 1 then []
      else
        [Merge1(Sextet(At(line, at + 1)), Sextet(At(line, at + 2)))] +
        if length == 2 then []
        else [Merge2(Sextet(At(line, at + 2)), Sextet(At(line, at + 3)))] + Merged(line, at + 4, length - 4)
  }

  datatype LineRead = End | Skip | Bad | Data(bytes: seq<Byte>)

  function ReadLine(line: string): LineRead {
    if line == "end" then End
    else
      var length := Sextet(At(line, 0)) * 4 / 3;
      if length <= 0 then Skip
      else if length > 60 || |line| - 1 < length then Bad
      else Data(Merged(line, 1, length))
  }

  /** The line ends at a newline, a zero or the end of the text. */
  function LineEnd(text: string): (n: nat)
    ensures n <= |text|
  {
    if text == "" || text[0] == '\n' || text[0] == '\0' then 0 else 1 + LineEnd(text[1..])
  }

  function AfterLine(text: string): (rest: string)
    requires text != ""
    ensures |rest| < |text|
  {
    if LineEnd(text) < |text| then text[LineEnd(text) + 1..] else ""
  }

  /** What the lines of the text decode to. */
  function Stduu(text: string): Result
    decreases |text|
  {
    if text == "" then Result(false, [])
    else
      match ReadLine(text[..LineEnd(text)])
      case End => Result(true, [])
      case Bad => Result(false, [])
      case Skip => Stduu(AfterLine(text))
      case Data(bytes) => var r := Stduu(AfterLine(text)); Result(r.ok, bytes + r.out)
  }

  lemma {:induction false} LineEndAt(text: string, n: nat)
    requires n < |text| && text[n] == '\n' && forall k :: 0 <= k < n ==> text[k] != '\n' && text[k] != '\0'
    ensures LineEnd(text) == n
  {
    if n > 0 {
      LineEndAt(text[1..], n - 1);
    }
  }

  /** A table whose characters decode to their places and do not end a line. */
  ghost predicate Decodes(tbl: string) {
    |tbl| == 65 && forall v :: 0 <= v <= 64 ==> Sextet(tbl[v]) == v % 64 && tbl[v] != '\n' && tbl[v] != '\0'
  }

  lemma StdDecodes()
    ensures Decodes(TBL_STD)
  {
    hide Sextet;
    forall v | 0 <= v <= 64
      ensures Sextet(TBL_STD[v]) == v % 64 && TBL_STD[v] != '\n' && TBL_STD[v] != '\0'
    {
      SextetOfTable(v);
    }
  }

  lemma {:induction false} EncodedChars(s: seq<Byte>, k: nat, tbl: string)
    requires Decodes(tbl) && k < |Encoded(s, tbl)|
    ensures Encoded(s, tbl)[k] != '\n' && Encoded(s, tbl)[k] != '\0'
    decreases |s|
  {
    hide Sextet, Four;
    if |s| >= 3 && k >= 4 {
      EncodedChars(s[3..], k - 4, tbl);
    }
  }

  /** The bytes that Merged takes from the first four characters of a group. */
  lemma MergedGroup(line: string, at: nat, a: Byte, b: Byte, c: Byte, n: nat)
    requires 1 <= n && at + 4 <= |line|
    requires forall k :: 0 <= k < 4 && k <= n ==> Sextet(line[at + k]) == Four(a, b, c)[k]
    ensures Merge0(Sextet(line[at]), Sextet(line[at + 1])) == a
    ensures n > 1 ==> Merge1(Sextet(line[at + 1]), Sextet(line[at + 2])) == b
    ensures n > 2 ==> Merge2(Sextet(line[at + 2]), Sextet(line[at + 3])) == c
  {
    hide Sextet, Four, Merge0, Merge1, Merge2;
    MergeFour(a, b, c);
    assert Sextet(line[at + 0]) == Four(a, b, c)[0];
  }

  /** The first characters of an encoded line are those of its first group. */
  lemma FirstGroup(line: string, at: nat, s: seq<Byte>, tbl: string, a: Byte, b: Byte, c: Byte)
    requires Decodes(tbl) && s != [] && at <= |line| && line[at..] == Encoded(s, tbl)
    requires a == s[0] && b == (if |s| > 1 then s[1] else 0) && c == (if |s| > 2 then s[2] else 0)
    ensures at + 4 <= |line| && forall k :: 0 <= k < 4 && k <= |s| ==> Sextet(line[at + k]) == Four(a, b, c)[k]
  {
    hide Sextet, Four, Encoded;
    var v := Four(a, b, c);
    EncodedFirst(s, tbl, v, 0);
    forall k | 0 <= k < 4 && k <= |s|
      ensures at + 4 <= |line| && Sextet(line[at + k]) == v[k]
    {
      EncodedFirst(s, tbl, v, k);
      assert line[at + k] == line[at..][k] == tbl[v[k]];
    }
  }

  lemma MergedStep(line: string, at: nat, n: nat)
    requires 1 <= n && at + n * 4 / 3 <= |line| && at + 4 <= |line|
    ensures var x := [Merge0(Sextet(line[at]), Sextet(line[at + 1]))];
            var y := [Merge1(Sextet(line[at + 1]), Sextet(line[at + 2]))];
            var z := [Merge2(Sextet(line[at + 2]), Sextet(line[at + 3]))];
            Merged(line, at, n * 4 / 3) ==
              if n == 1 then x else if n == 2 then x + y else x + (y + (z + Merged(line, at + 4, (n - 3) * 4 / 3)))
  {
    hide Sextet, Merge0, Merge1, Merge2;
    assert n >= 3 ==> (n - 3) * 4 / 3 == n * 4 / 3 - 4;
    assert n == 1 ==> n * 4 / 3 == 1;
    assert n == 2 ==> n * 4 / 3 == 2;
  }

  lemma EncodedTail(line: string, at: nat, s: seq<Byte>, tbl: string)
    requires |tbl| == 65 && |s| >= 3 && at + 4 <= |line| && line[at..] == Encoded(s, tbl)
    ensures line[at + 4..] == Encoded(s[3..], tbl)
  {
    hide Four;
    assert line[at + 4..] == line[at..][4..];
  }

  /** The decoder takes the bytes of a line back out of its characters. */
  lemma {:induction false} MergedEncoded(line: string, at: nat, s: seq<Byte>, tbl: string)
    requires |tbl| == 65 && Decodes(tbl) && at <= |line| && line[at..] == Encoded(s, tbl)
    ensures at + |s| * 4 / 3 <= |line| && Merged(line, at, |s| * 4 / 3) == s
    decreases |s|
  {
    hide Sextet, Merge0, Merge1, Merge2, Four, Encoded, Merged, Decodes;
    if s == [] {
      MergedNone(line, at);
    } else {
      var a, b, c := s[0], if |s| > 1 then s[1] else 0, if |s| > 2 then s[2] else 0;
      FirstGroup(line, at, s, tbl, a, b, c);
      MergedGroup(line, at, a, b, c, |s|);
      MergedStep(line, at, |s|);
      if |s| >= 3 {
        EncodedTail(line, at, s, tbl);
        MergedEncoded(line, at + 4, s[3..], tbl);
        assert s == [a] + ([b] + ([c] + s[3..]));
      } else {
        assert s == if |s| == 1 then [a] else [a] + [b];
      }
    }
  }

  lemma MergedNone(line: string, at: nat)
    requires at <= |line|
    ensures Merged(line, at, 0) == []
  {
  }

  lemma LineReadBack(s: seq<Byte>)
    requires 0 < |s| <= SRC_BUF_SIZE
    ensures ReadLine(Line(s, false)) == Data(s)
  {
    hide Merged, Encoded, Sextet, Decodes;
    var line := Line(s, false);
    SextetOfTable(|s|);
    StdDecodes();
    ReadData(line, s, TBL_STD);
  }

  lemma ReadData(line: string, s: seq<Byte>, tbl: string)
    requires |tbl| == 65 && Decodes(tbl) && 0 < |s| <= SRC_BUF_SIZE
    requires line == [tbl[|s|]] + Encoded(s, tbl) && tbl[|s|] != 'e'
    ensures ReadLine(line) == Data(s)
  {
    hide Merged, Encoded, Sextet;
    assert Sextet(tbl[|s|]) == |s| by {
      assert |s| % 64 == |s|;
    }
    hide Decodes;
    assert line != "end" by {
      assert "end"[0] == 'e' && line[0] == tbl[|s|];
    }
    assert 0 < |s| * 4 / 3 <= 60;
    assert line[1..] == Encoded(s, tbl);
    MergedEncoded(line, 1, s, tbl);
  }

  lemma LineSplit(s: seq<Byte>, rest: string)
    requires 0 < |s| <= SRC_BUF_SIZE
    ensures var text := Line(s, false) + "\n" + rest;
            text[..LineEnd(text)] == Line(s, false) && AfterLine(text) == rest
  {
    hide Encoded, Sextet, LineEnd;
    var line := Line(s, false);
    var text := line + "\n" + rest;
    SextetOfTable(|s|);
    StdDecodes();
    forall k | 0 <= k < |line|
      ensures text[k] != '\n' && text[k] != '\0'
    {
      if k > 0 {
        EncodedChars(s, k - 1, TBL_STD);
      }
    }
    LineEndAt(text, |line|);
  }

  lemma TrailerReadBack()
    ensures Stduu(Trailer(false)) == Result(true, [])
  {
    var text := "`\nend\n";
    LineEndAt(text, 1);
    assert text[..1] == "`" && AfterLine(text) == "end\n";
    LineEndAt("end\n", 3);
    assert "end\n"[..3] == "end";
  }

  /** Decoding the historical format gives the bytes back. */
  lemma {:induction false} StdRoundTrip(input: seq<Byte>)
    ensures Stduu(Body(input, false)) == Result(true, input)
    decreases |input|
  {
    hide Line, ReadLine, LineEnd, AfterLine;
    if input == [] {
      TrailerReadBack();
    } else {
      var n := Min(|input|, SRC_BUF_SIZE);
      StdRoundTrip(input[n..]);
      LineReadBack(input[..n]);
      LineSplit(input[..n], Body(input[n..], false));
      assert input == input[..n] + input[n..];
    }
  }

  lemma SextetIs(c: char)
    ensures Sextet(c) == SixBits(c)
  {
  }

  /** A group gives the bytes of its 24 bits. */
  lemma GroupBytes(line: string, g: nat)
    ensures var x := 1 + 4 * g;
            && Merge0(SixBits(CharAt(line, x)), SixBits(CharAt(line, x + 1))) == ByteAt(line, 3 * g)
            && Merge1(SixBits(CharAt(line, x + 1)), SixBits(CharAt(line, x + 2))) == ByteAt(line, 3 * g + 1)
            && Merge2(SixBits(CharAt(line, x + 2)), SixBits(CharAt(line, x + 3))) == ByteAt(line, 3 * g + 2)
  {
    hide Merge0, Merge1, Merge2, SixBits, CharAt;
    var x := 1 + 4 * g;
    var a, b, c, d := SixBits(CharAt(line, x)), SixBits(CharAt(line, x + 1)), SixBits(CharAt(line, x + 2)), SixBits(CharAt(line, x + 3));
    assert 3 * g / 3 == g && (3 * g + 1) / 3 == g && (3 * g + 2) / 3 == g && g * 4 == 4 * g;
    BytesOf24(a, b, c, d);
    Merge0Adds(a, b);
    Merge1Adds(b, c);
    Merge2Adds(c, d);
  }

  lemma AtIs(line: string, i: nat)
    requires i <= |line|
    ensures Sextet(At(line, i)) == SixBits(CharAt(line, i))
  {
    SextetIs(At(line, i));
  }

  /** What the loop makes of the first characters from group g on. */
  lemma MergedFirst(line: string, g: nat, length: nat)
    requires 1 + 4 * g + length <= |line| && (length <= 2 || length >= 4)
    ensures var m, first := Merged(line, 1 + 4 * g, length), [ByteAt(line, 3 * g), ByteAt(line, 3 * g + 1), ByteAt(line, 3 * g + 2)];
            if length <= 2 then m == first[..length] else m == first + Merged(line, 1 + 4 * (g + 1), length - 4)
  {
    hide Merge0, Merge1, Merge2, Sextet, SixBits, ByteAt, At, CharAt;
    var x := 1 + 4 * g;
    GroupBytes(line, g);
    if length >= 1 {
      AtIs(line, x);
      AtIs(line, x + 1);
      if length >= 2 {
        AtIs(line, x + 2);
        if length >= 4 {
          AtIs(line, x + 3);
        }
      }
    }
  }

  /** n bytes from group g on are what the loop makes of their characters. */
  lemma {:induction false} MergedBytes(line: string, g: nat, n: nat)
    requires 1 + 4 * g + n * 4 / 3 <= |line|
    ensures var m := Merged(line, 1 + 4 * g, n * 4 / 3); |m| == n && forall k :: 0 <= k < n ==> m[k] == ByteAt(line, 3 * g + k)
    decreases n
  {
    hide Merged, ByteAt;
    MergedFirst(line, g, n * 4 / 3);
    if n >= 3 {
      MergedBytes(line, g + 1, n - 3);
      var m, rest := Merged(line, 1 + 4 * g, n * 4 / 3), Merged(line, 1 + 4 * (g + 1), (n - 3) * 4 / 3);
      assert n * 4 / 3 - 4 == (n - 3) * 4 / 3;
      forall k | 0 <= k < n
        ensures m[k] == ByteAt(line, 3 * g + k)
      {
        assert k >= 3 ==> m[k] == rest[k - 3];
      }
    }
  }

  /** What a line is. */
  lemma LineLaw(line: string)
    ensures ReadLine(line) ==
            if line == "end" then End else if Count(line) == 0 then Skip else if !Good(line) then Bad else Data(LineBytes(line))
  {
    hide Merged, Sextet, SixBits;
    SextetIs(At(line, 0));
    if line != "end" && Count(line) > 0 && Good(line) {
      MergedBytes(line, 0, Count(line));
      assert Merged(line, 1, Count(line) * 4 / 3) == LineBytes(line);
    }
  }

  lemma {:induction false} LineEndIs(text: string, n: nat)
    requires n <= |text| && (forall k :: 0 <= k < n ==> !Ends(text[k])) && (n < |text| ==> Ends(text[n]))
    ensures LineEnd(text) == n
  {
    if n > 0 {
      LineEndIs(text[1..], n - 1);
    }
  }

  lemma FirstLine(text: string, lines: seq<string>)
    requires Lined(text, lines) && lines != []
    ensures text != "" && text[..LineEnd(text)] == lines[0] && Lined(AfterLine(text), lines[1..])
  {
    hide LineEnd;
    var n := |lines[0]|;
    assert forall k :: 0 <= k < n ==> text[k] == lines[0][k];
    LineEndIs(text, n);
    if n == |text| {
      assert lines[1..] == [];
    }
  }

  /** The law of the format: it is read up to the end line, unless a line before that is not good. */
  lemma {:induction false} StduuLaw(text: string, lines: seq<string>, e: nat)
    requires Lined(text, lines) && StopsAt(lines, e)
    ensures Stduu(text) == Result(e < |lines| && lines[e] == "end", AllBytes(lines[..e]))
    decreases |lines|
  {
    hide ReadLine, LineEnd, AfterLine, LineBytes, Good, Lined;
    if lines == [] {
      NoText(text);
    } else {
      FirstLine(text, lines);
      LineLaw(lines[0]);
      if e > 0 {
        StduuLaw(AfterLine(text), lines[1..], e - 1);
        assert lines[..e][1..] == lines[1..][..e - 1];
        NoBytes(lines[0]);
      } else {
        EndIsShort();
      }
    }
  }

  lemma NoText(text: string)
    ensures Lined(text, []) ==> text == ""
  {
  }

  lemma NoBytes(line: string)
    ensures Count(line) == 0 ==> LineBytes(line) == []
  {
  }

  lemma EndIsShort()
    ensures forall line: string :: Count(line) == 0 ==> Good(line)
  {
  }

  lemma {:induction false} LinesOf(text: string) returns (lines: seq<string>, e: nat)
    ensures Lined(text, lines) && StopsAt(lines, e)
    decreases |text|
  {
    if text == "" {
      lines, e := [], 0;
    } else {
      var rest, d := LinesOf(AfterLine(text));
      var l := text[..LineEnd(text)];
      LineEndLimits(text);
      lines := [l] + rest;
      e := if l == "end" || !Good(l) then 0 else d + 1;
      LinedMore(text, l, rest);
      assert lines[1..] == rest && forall i :: 1 <= i < |lines| ==> lines[i] == rest[i - 1];
    }
  }

  lemma LinedMore(text: string, l: string, rest: seq<string>)
    requires text != "" && l == text[..LineEnd(text)] && Lined(AfterLine(text), rest)
    requires (forall k :: 0 <= k < |l| ==> !Ends(l[k])) && (|l| < |text| ==> Ends(text[|l|]))
    ensures Lined(text, [l] + rest)
  {
    assert ([l] + rest)[1..] == rest;
  }

  lemma {:induction false} LineEndLimits(text: string)
    ensures var n := LineEnd(text); (forall k :: 0 <= k < n ==> !Ends(text[k])) && (n < |text| ==> Ends(text[n]))
  {
    if text != "" && !Ends(text[0]) {
      LineEndLimits(text[1..]);
    }
  }

  /** bb_get_chomped_line_from_file */
  method GetLine(text: string, pos: nat) returns (line: string, next: nat)
    requires pos < |text|
    ensures pos < next <= |text| && line == text[pos..][..LineEnd(text[pos..])] && text[next..] == AfterLine(text[pos..])
  {
    var q := pos;
    while q < |text| && text[q] != '\n' && text[q] != '\0'
      invariant pos <= q <= |text| && LineEnd(text[pos..]) == q - pos + LineEnd(text[q..])
    {
      assert text[q..][1..] == text[q + 1..];
      q := q + 1;
    }
    assert LineEnd(text[q..]) == 0;
    line := text[pos..q];
    next := if q < |text| then q + 1 else q;
    assert text[pos..][..q - pos] == line;
    assert q < |text| ==> text[pos..][q - pos + 1..] == text[q + 1..];
  }

  /** The loop of read_stduu over the characters of a line. */
  method MergeLine(line: string, length0: nat) returns (bytes: seq<Byte>)
    requires length0 < |line|
    ensures bytes == Merged(line, 1, length0)
  {
    hide Sextet, Merge0, Merge1, Merge2;
    var ptr, length := 1, length0;
    bytes := [];
    while length > 0
      invariant 0 <= ptr && ptr + length <= |line| && length >= -1
      invariant bytes + Merged(line, ptr, length) == Merged(line, 1, length0)
      decreases length
    {
      ghost var was, x := bytes, Merged(line, ptr, length);
      bytes := bytes + [Merge0(Sextet(At(line, ptr)), Sextet(At(line, ptr + 1)))];
      ptr, length := ptr + 1, length - 1;
      if length == 0 {
        return;
      }
      bytes := bytes + [Merge1(Sextet(At(line, ptr)), Sextet(At(line, ptr + 1)))];
      ptr, length := ptr + 1, length - 1;
      if length == 0 {
        return;
      }
      bytes := bytes + [Merge2(Sextet(At(line, ptr)), Sextet(At(line, ptr + 1)))];
      ptr, length := ptr + 2, length - 2;
      assert bytes + Merged(line, ptr, length) == was + x;
    }
  }

  /** read_stduu: the bytes of the lines before the end line, or before the first line that is not good. */
  method ReadStduu(text: string) returns (r: Result, ghost lines: seq<string>, ghost e: nat)
    ensures r == Stduu(text) && Lined(text, lines) && StopsAt(lines, e)
    ensures (r.ok <==> e < |lines| && lines[e] == "end") && r.out == AllBytes(lines[..e])
  {
    hide Merged, LineEnd, AfterLine, Sextet, Lined, StopsAt, AllBytes;
    lines, e := LinesOf(text);
    StduuLaw(text, lines, e);
    var pos, out := 0, [];
    assert text[0..] == text;
    while pos < |text|
      invariant 0 <= pos <= |text|
      invariant Stduu(text) == Result(Stduu(text[pos..]).ok, out + Stduu(text[pos..]).out)
    {
      var line, next := GetLine(text, pos);
      ghost var was := pos;
      pos := next;
      if line == "end" {
        return Result(true, out), lines, e;
      }
      var length := Sextet(At(line, 0)) * 4 / 3;
      if length <= 0 {
        continue;
      }
      if length > 60 || |line| - 1 < length {
        return Result(false, out), lines, e;
      }
      var bytes := MergeLine(line, length);
      assert out + (bytes + Stduu(text[next..]).out) == out + bytes + Stduu(text[next..]).out;
      out := out + bytes;
    }
    return Result(false, out), lines, e;
  }
}
