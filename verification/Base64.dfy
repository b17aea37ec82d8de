/** Reading base64 back (coreutils/uudecode.c, read_base64). */
module Base64 {
  import opened Uuencode
  import opened Merging

  const BASE64_TABLE := TBL_BASE64 + "\n"

  /** strchr: the first place of a character, and the end of the table for zero. */
  function Find(tbl: string, c: char): (n: int)
    ensures -1 <= n <= |tbl|
  {
    if tbl == "" then (if c == '\0' then 0 else -1)
    else if tbl[0] == c then 0
    else
      var n := Find(tbl[1..], c);
      if n == -1 then -1 else n + 1
  }

  /** The place of a character of the table. */
  function Rank(c: char): int {
    if 'A' <= c <= 'Z' then c as int - 'A' as int
    else if 'a' <= c <= 'z' then c as int - 'a' as int + 26
    else if '0' <= c <= '9' then c as int - '0' as int + 52
    else if c == '+' then 62
    else if c == '/' then 63
    else if c == '=' then 64
    else 65
  }

  lemma RankOfTable(v: nat)
    requires v < 66
    ensures Rank(BASE64_TABLE[v]) == v && (v <= 64 ==> TBL_BASE64[v] == BASE64_TABLE[v])
  {
    Alphabet();
  }

  lemma {:induction false} FindAt(tbl: string, v: nat)
    requires v < |tbl| && forall k :: 0 <= k < v ==> tbl[k] != tbl[v]
    ensures Find(tbl, tbl[v]) == v
  {
    if v > 0 {
      FindAt(tbl[1..], v - 1);
    }
  }

  lemma FindInTable(v: nat)
    requires v < 66
    ensures Find(BASE64_TABLE, BASE64_TABLE[v]) == v && (v <= 64 ==> TBL_BASE64[v] == BASE64_TABLE[v])
  {
    hide Find;
    RankOfTable(v);
    forall k | 0 <= k < v
      ensures BASE64_TABLE[k] != BASE64_TABLE[v]
    {
      RankOfTable(k);
    }
    FindAt(BASE64_TABLE, v);
  }

  /** Between two characters: the numbers that wait for their group, and the count of terminators. */
  datatype State = State(pending: seq<nat>, term: nat, out: seq<Byte>, done: bool)

  /** The bytes of a group; a short one is the last. */
  function Group(v: seq<nat>): seq<Byte> {
    (if |v| > 1 then [Merge0(v[0], v[1])] else []) +
    (if |v| > 2 then [Merge1(v[1], v[2])] else []) +
    (if |v| > 3 then [Merge2(v[2], v[3])] else [])
  }

  /** One character; term counts in a char, so modulo 256. */
  function Step(s: State, c: char): State {
    var n := Find(BASE64_TABLE, c);
    if n == -1 then s
    else if n == 64 then
      if s.term == 0 then State([], 0, s.out + Group(s.pending), false)
      else s.(term := (s.term + 1) % 256)
    else if n == 65 then
      if s.term == 5 then s.(done := true) else s.(term := 1)
    else if |s.pending| == 3 then State([], 0, s.out + Group(s.pending + [n]), false)
    else s.(pending := s.pending + [n], term := 0)
  }

  function Run(s: State, text: string): State
    decreases |text|
  {
    if s.done || text == "" then s else Run(Step(s, text[0]), text[1..])
  }

  lemma RunStep(s: State, text: string, c: char, rest: string)
    requires !s.done && text == [c] + rest
    ensures Run(s, text) == Run(Step(s, c), rest)
  {
    assert text[1..] == rest;
  }

  const START := State([], 1, [], false)

  /** A digit joins the ones that wait. */
  lemma StepDigit(s: State, v: nat)
    requires v < 64 && |s.pending| <= 3
    ensures Step(s, TBL_BASE64[v]) ==
              if |s.pending| == 3 then State([], 0, s.out + Group(s.pending + [v]), false)
              else State(s.pending + [v], 0, s.out, s.done)
  {
    FindInTable(v);
    hide Find;
  }

  lemma StepPad(s: State)
    ensures Step(s, '=') == if s.term == 0 then State([], 0, s.out + Group(s.pending), false)
                            else s.(term := (s.term + 1) % 256)
  {
    hide Find;
    FindInTable(64);
    assert BASE64_TABLE[64] == '=';
  }

  lemma StepNewline(s: State)
    ensures Step(s, '\n') == if s.term == 5 then s.(done := true) else s.(term := 1)
  {
    hide Find;
    FindInTable(65);
    assert BASE64_TABLE[65] == '\n';
  }

  /** The characters of a group with so many pads at the end. */
  ghost predicate IsQuad(q: string, v: seq<nat>, pad: nat)
    requires |v| == 4
  {
    && |q| == 4 && pad <= 2 && (forall k :: 0 <= k < 4 ==> v[k] < 64)
    && q[0] == TBL_BASE64[v[0]] && q[1] == TBL_BASE64[v[1]]
    && q[2] == (if pad == 2 then '=' else TBL_BASE64[v[2]]) && q[3] == (if pad >= 1 then '=' else TBL_BASE64[v[3]])
  }

  lemma RunTwo(s: State, v: nat, w: nat, rest: string)
    requires v < 64 && w < 64 && s.pending == [] && !s.done
    ensures Run(s, [TBL_BASE64[v]] + ([TBL_BASE64[w]] + rest)) == Run(State([v, w], 0, s.out, false), rest)
  {
    hide Step, Run;
    var more := [TBL_BASE64[w]] + rest;
    StepDigit(s, v);
    assert [] + [v] == [v];
    RunStep(s, [TBL_BASE64[v]] + more, TBL_BASE64[v], more);
    var t := State([v], 0, s.out, false);
    StepDigit(t, w);
    assert [v] + [w] == [v, w];
    RunStep(t, more, TBL_BASE64[w], rest);
  }

  lemma RunTwoPads(s: State, rest: string)
    requires s.term == 0 && !s.done
    ensures Run(s, ['='] + (['='] + rest)) == Run(State([], 0, s.out + Group(s.pending), false), rest)
  {
    hide Step, Run, Group;
    StepPad(s);
    RunStep(s, ['='] + (['='] + rest), '=', ['='] + rest);
    var f := State([], 0, s.out + Group(s.pending), false);
    StepPad(f);
    GroupNone();
    assert f.out + [] == f.out;
    RunStep(f, ['='] + rest, '=', rest);
  }

  lemma RunRest(s: State, v: nat, c: char, w: nat, rest: string)
    requires |s.pending| == 2 && s.term == 0 && !s.done && v < 64 && w < 64 && (c == '=' || c == TBL_BASE64[w])
    ensures Run(s, [TBL_BASE64[v]] + ([c] + rest)) ==
              Run(State([], 0, s.out + Group(s.pending + (if c == '=' then [v] else [v, w])), false), rest)
  {
    hide Step, Run, Group;
    StepDigit(s, v);
    RunStep(s, [TBL_BASE64[v]] + ([c] + rest), TBL_BASE64[v], [c] + rest);
    var t := State(s.pending + [v], 0, s.out, false);
    if c == '=' {
      StepPad(t);
    } else {
      StepDigit(t, w);
      assert t.pending + [w] == s.pending + [v, w];
    }
    RunStep(t, [c] + rest, c, rest);
  }

  lemma NotPad(w: nat)
    requires w < 64
    ensures TBL_BASE64[w] != '='
  {
    RankOfTable(w);
  }

  /** They give the bytes of their group. */
  lemma RunQuad(s: State, q: string, v: seq<nat>, pad: nat, rest: string)
    requires |v| == 4 && IsQuad(q, v, pad) && s.pending == [] && !s.done
    ensures Run(s, q + rest) == Run(State([], 0, s.out + Group(v[..4 - pad]), false), rest)
  {
    hide Step, Run, Group;
    assert q + rest == [q[0]] + ([q[1]] + ([q[2]] + ([q[3]] + rest)));
    RunTwo(s, v[0], v[1], [q[2]] + ([q[3]] + rest));
    var t := State([v[0], v[1]], 0, s.out, false);
    NotPad(v[3]);
    if pad == 2 {
      assert v[..2] == [v[0], v[1]];
      RunTwoPads(t, rest);
    } else {
      RunRest(t, v[2], q[3], v[3], rest);
      assert v[..3] == [v[0], v[1]] + [v[2]] && v[..4] == [v[0], v[1]] + [v[2], v[3]];
    }
  }

  lemma GroupNone()
    ensures Group([]) == []
  {
  }

  /** A group decodes to the bytes it was made of. */
  lemma GroupFour(a: Byte, b: Byte, c: Byte)
    ensures var v := Four(a, b, c); Group(v[..4]) == [a, b, c] && Group(v[..3]) == [a, b] && Group(v[..2]) == [a]
  {
    MergeFour(a, b, c);
    hide Merge0, Merge1, Merge2, Four;
  }

  lemma EncodedShort(bytes: seq<Byte>, tbl: string)
    requires |tbl| == 65 && 1 <= |bytes| <= 2
    ensures |Encoded(bytes, tbl)| == 4 && Encoded(bytes, tbl)[3] == tbl[64]
    ensures |bytes| == 1 ==> Encoded(bytes, tbl)[2] == tbl[64]
  {
    hide Four;
  }

  lemma ShortQuad(bytes: seq<Byte>, v: seq<nat>)
    requires 1 <= |bytes| <= 2 && v == Four(bytes[0], if |bytes| > 1 then bytes[1] else 0, 0)
    ensures IsQuad(Encoded(bytes, TBL_BASE64), v, 3 - |bytes|)
  {
    hide Four, Encoded;
    assert TBL_BASE64[64] == '=';
    EncodedShort(bytes, TBL_BASE64);
    EncodedFirst(bytes, TBL_BASE64, v, 0);
    EncodedFirst(bytes, TBL_BASE64, v, 1);
    EncodedFirst(bytes, TBL_BASE64, v, |bytes|);
  }

  lemma WholeQuad(a: Byte, b: Byte, c: Byte)
    ensures IsQuad(Quad(a, b, c, TBL_BASE64), Four(a, b, c), 0)
  {
    hide Four;
  }

  /** The last group of a line. */
  lemma RunShort(s: State, bytes: seq<Byte>, rest: string)
    requires s.pending == [] && !s.done && 1 <= |bytes| <= 2
    ensures Run(s, Encoded(bytes, TBL_BASE64) + rest) == Run(State([], 0, s.out + bytes, false), rest)
  {
    hide Run, Group, Four, Encoded, IsQuad;
    var a, b := bytes[0], if |bytes| > 1 then bytes[1] else 0;
    var v := Four(a, b, 0);
    GroupFour(a, b, 0);
    ShortQuad(bytes, v);
    RunQuad(s, Encoded(bytes, TBL_BASE64), v, 3 - |bytes|, rest);
    assert bytes == if |bytes| == 1 then [a] else [a, b];
  }

  lemma EncodedSplit(bytes: seq<Byte>, rest: string, tbl: string)
    requires |tbl| == 65 && 3 <= |bytes|
    ensures Encoded(bytes, tbl) + rest == Quad(bytes[0], bytes[1], bytes[2], tbl) + (Encoded(bytes[3..], tbl) + rest)
  {
    hide Quad;
  }

  lemma RunWhole(s: State, bytes: seq<Byte>, rest: string)
    requires s.pending == [] && !s.done && 3 <= |bytes|
    ensures Run(s, Encoded(bytes, TBL_BASE64) + rest) ==
              Run(State([], 0, s.out + bytes[..3], false), Encoded(bytes[3..], TBL_BASE64) + rest)
  {
    hide Run, Group, Four, Encoded, Quad, IsQuad;
    var v := Four(bytes[0], bytes[1], bytes[2]);
    GroupFour(bytes[0], bytes[1], bytes[2]);
    assert bytes[..3] == [bytes[0], bytes[1], bytes[2]];
    WholeQuad(bytes[0], bytes[1], bytes[2]);
    EncodedSplit(bytes, rest, TBL_BASE64);
    RunQuad(s, Quad(bytes[0], bytes[1], bytes[2], TBL_BASE64), v, 0, Encoded(bytes[3..], TBL_BASE64) + rest);
  }

  lemma {:induction false} RunEncoded(s: State, bytes: seq<Byte>, rest: string)
    requires s.pending == [] && !s.done && bytes != []
    ensures Run(s, Encoded(bytes, TBL_BASE64) + rest) == Run(State([], 0, s.out + bytes, false), rest)
    decreases |bytes|
  {
    hide Run, Encoded;
    if |bytes| < 3 {
      RunShort(s, bytes, rest);
    } else {
      RunWhole(s, bytes, rest);
      if |bytes| == 3 {
        EncodedNone(TBL_BASE64);
        assert bytes[3..] == [] && "" + rest == rest && bytes[..3] == bytes;
      } else {
        RunEncoded(State([], 0, s.out + bytes[..3], false), bytes[3..], rest);
        assert s.out + bytes[..3] + bytes[3..] == s.out + bytes;
      }
    }
  }

  lemma RunTrailer(s: State)
    requires s.pending == [] && !s.done && s.term == 1
    ensures Run(s, Trailer(true)) == State([], 5, s.out, true)
  {
    hide Step, Run;
    StepPad(s);
    RunStep(s, "====\n", '=', "===\n");
    StepPad(s.(term := 2));
    RunStep(s.(term := 2), "===\n", '=', "==\n");
    StepPad(s.(term := 3));
    RunStep(s.(term := 3), "==\n", '=', "=\n");
    StepPad(s.(term := 4));
    RunStep(s.(term := 4), "=\n", '=', "\n");
    StepNewline(s.(term := 5));
    RunStep(s.(term := 5), "\n", '\n', "");
    RunDone(State([], 5, s.out, true));
  }

  lemma RunDone(s: State)
    ensures Run(s, "") == s
  {
  }

  /** Decoding base64 gives the bytes back, whatever came before. */
  lemma {:induction false} RunBody(s: State, input: seq<Byte>)
    requires s.pending == [] && !s.done && s.term == 1
    ensures Run(s, Body(input, true)) == State([], 5, s.out + input, true)
    decreases |input|
  {
    hide Step, Run, Encoded;
    if input == [] {
      RunTrailer(s);
    } else {
      var n := Min(|input|, SRC_BUF_SIZE);
      var chunk, rest := input[..n], Body(input[n..], true);
      assert Body(input, true) == Encoded(chunk, TBL_BASE64) + ("\n" + rest);
      RunEncoded(s, chunk, "\n" + rest);
      var t := State([], 0, s.out + chunk, false);
      StepNewline(t);
      RunStep(t, "\n" + rest, '\n', rest);
      RunBody(t.(term := 1), input[n..]);
      assert s.out + chunk + input[n..] == s.out + input;
    }
  }

  lemma Base64RoundTrip(input: seq<Byte>)
    ensures var r := Run(START, Body(input, true)); r.done && r.out == input
  {
    RunBody(START, input);
  }

  /** read_base64 */
  method ReadBase64(text: string) returns (r: Result)
    ensures r == Result(Run(START, text).done, Run(START, text).out)
  {
    hide Find, Group;
    var term: nat, pos, out := 1, 0, [];
    ghost var s := START;
    assert text[0..] == text;
    while true
      invariant 0 <= pos <= |text| && s == State([], term, out, false) && Run(s, text[pos..]) == Run(START, text)
      decreases |text| - pos
    {
      var translated := new nat[4];
      var count := 0;
      ghost var begun := pos;
      while count < 4
        invariant 0 <= count <= 4 && begun <= pos <= |text| && (count > 0 ==> begun < pos)
        invariant count < 4 ==> s == State(translated[..count], term, out, false)
        invariant count == 4 ==> s == State([], term, out + Group(translated[..4]), false)
        invariant Run(s, text[pos..]) == Run(START, text)
        decreases |text| - pos
      {
        if pos == |text| {
          return Result(false, out);
        }
        var c := text[pos];
        ghost var t := s;
        RunStep(s, text[pos..], c, text[pos + 1..]);
        s := Step(s, c);
        pos := pos + 1;
        var ch := Find(BASE64_TABLE, c);
        if ch == -1 {
          continue;
        }
        if ch == 64 {
          if term == 0 {
            break;
          }
          term := (term + 1) % 256;
        } else if ch == 65 {
          if term == 5 {
            return Result(true, out);
          }
          term := 1;
          continue;
        } else {
          translated[count] := ch;
          assert translated[..count + 1] == t.pending + [ch];
          count := count + 1;
          term := 0;
        }
      }
      var bytes := PutGroup(translated[..count]);
      out := out + bytes;
    }
  }

  /** The end of the outer loop of read_base64. */
  method PutGroup(v: seq<nat>) returns (bytes: seq<Byte>)
    ensures bytes == Group(v)
  {
    bytes := [];
    if |v| > 1 {
      bytes := bytes + [Merge0(v[0], v[1])];
    }
    if |v| > 2 {
      bytes := bytes + [Merge1(v[1], v[2])];
    }
    if |v| > 3 {
      bytes := bytes + [Merge2(v[2], v[3])];
    }
  }
}
