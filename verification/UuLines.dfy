/**
 What a text in the historical format says (coreutils/uudecode.c, read_stduu): its lines, which of them are
 good, and the bytes that a good line carries.
 */
module UuLines {
  import opened Uuencode

  predicate Ends(c: char) {
    c == '\n' || c == '\0'
  }

  /** The lines of the text; each but the last has a newline or a zero behind it. */
  ghost predicate Lined(text: string, lines: seq<string>)
    decreases |text|
  {
    if lines == [] then text == ""
    else
      var l := lines[0];
      && text != "" && l <= text && (forall k :: 0 <= k < |l| ==> !Ends(l[k]))
      && if |l| == |text| then |lines| == 1 else Ends(text[|l|]) && Lined(text[|l| + 1..], lines[1..])
  }

  /** The number of six bits that a character stands for. */
  function SixBits(c: char): (n: nat)
    ensures n < 64
  {
    (c as int + 0x20) % 64
  }

  /** A character of a line; behind its end there are zeros. */
  function CharAt(line: string, i: nat): char {
    if i < |line| then line[i] else '\0'
  }

  /** How many bytes a line says it has. */
  function Count(line: string): (n: nat)
    ensures n < 64
  {
    SixBits(CharAt(line, 0))
  }

  /** A line without bytes, or with at most 45 and the characters for them. */
  predicate Good(line: string) {
    Count(line) == 0 || (Count(line) <= SRC_BUF_SIZE && |line| >= 1 + Count(line) * 4 / 3)
  }

  /** The 24 bits of the group of four characters at a place. */
  function Bits24(line: string, at: nat): nat {
    SixBits(CharAt(line, at)) * 0x40000 + SixBits(CharAt(line, at + 1)) * 0x1000
    + SixBits(CharAt(line, at + 2)) * 0x40 + SixBits(CharAt(line, at + 3))
  }

  /** Byte k of a line: the groups come after the count, three bytes each. */
  function ByteAt(line: string, k: nat): Byte {
    var bits := Bits24(line, 1 + k / 3 * 4);
    (if k % 3 == 0 then bits / 0x10000 else if k % 3 == 1 then bits / 0x100 else bits) % 0x100
  }

  function LineBytes(line: string): (s: seq<Byte>)
    ensures |s| == Count(line) && forall k :: 0 <= k < |s| ==> s[k] == ByteAt(line, k)
  {
    seq(Count(line), k requires k >= 0 => ByteAt(line, k))
  }

  function AllBytes(lines: seq<string>): seq<Byte> {
    if lines == [] then [] else LineBytes(lines[0]) + AllBytes(lines[1..])
  }

  /** Line e is the first that is the end line or not good; or there is none. */
  predicate StopsAt(lines: seq<string>, e: nat) {
    && e <= |lines| && (forall i :: 0 <= i < e ==> lines[i] != "end" && Good(lines[i]))
    && (e < |lines| ==> lines[e] == "end" || !Good(lines[e]))
  }
}
