/**
 What any text means in base64 (coreutils/uudecode.c, read_base64): which characters count, and what line breaks
 do.  A line break inside a group is harmless, unless padding follows it.
 */
module Base64Text {
  import opened Uuencode
  import opened Merging
  import opened Base64

  predicate IsDigit(c: char) {
    'A' <= c <= 'Z' || 'a' <= c <= 'z' || '0' <= c <= '9' || c == '+' || c == '/'
  }

  /** A character that is not in the alphabet of section 6.8 of RFC 2045 and does not end a line. */
  predicate Foreign(c: char) {
    !IsDigit(c) && c != '=' && c != '\n' && c != '\0'
  }

  lemma {:induction false} FindMeans(tbl: string, c: char)
    ensures Find(tbl, c) == -1 <==> c !in tbl && c != '\0'
    ensures c !in tbl && c == '\0' ==> Find(tbl, c) == |tbl|
  {
    if tbl != "" {
      FindMeans(tbl[1..], c);
      assert tbl == [tbl[0]] + tbl[1..];
    }
  }

  lemma TableHas(c: char)
    ensures IsDigit(c) ==> 0 <= Rank(c) < 64 && BASE64_TABLE[Rank(c)] == c
    ensures Foreign(c) ==> c !in BASE64_TABLE
    ensures '\0' !in BASE64_TABLE
  {
    Alphabet();
    assert BASE64_TABLE[62] == '+' && BASE64_TABLE[63] == '/';
    TableOnly();
  }

  lemma TableOnly()
    ensures forall k :: 0 <= k < |BASE64_TABLE| ==> !Foreign(BASE64_TABLE[k]) && BASE64_TABLE[k] != '\0'
  {
    hide Rank;
    Alphabet();
    forall k | 0 <= k < |BASE64_TABLE|
      ensures !Foreign(BASE64_TABLE[k]) && BASE64_TABLE[k] != '\0'
    {
      var c := BASE64_TABLE[k];
      assert k < 26 ==> c == UPPER[k];
      assert 26 <= k < 52 ==> c == LOWER[k - 26];
      assert 52 <= k < 62 ==> c == DIGITS[k - 52];
    }
  }

  lemma FindIs(c: char)
    ensures IsDigit(c) ==> Find(BASE64_TABLE, c) == Rank(c) < 64
    ensures Foreign(c) ==> Find(BASE64_TABLE, c) == -1
  {
    hide Find, Rank;
    TableHas(c);
    FindMeans(BASE64_TABLE, c);
    if IsDigit(c) {
      FindInTable(Rank(c));
    }
  }

  /** Characters that are foreign to the format play no part. */
  lemma {:induction false} ForeignSkipped(s: State, a: string, c: char, b: string)
    requires Foreign(c)
    ensures Run(s, a + [c] + b) == Run(s, a + b)
    decreases |a|
  {
    hide Find;
    if a == "" {
      FindIs(c);
      assert a + [c] + b == [c] + b && a + b == b;
      if !s.done {
        RunStep(s, [c] + b, c, b);
      } else {
        RunOver(s, [c] + b);
        RunOver(s, b);
      }
    } else if !s.done {
      ForeignSkipped(Step(s, a[0]), a[1..], c, b);
      assert a + [c] + b == [a[0]] + (a[1..] + [c] + b) && a + b == [a[0]] + (a[1..] + b);
      RunStep(s, a + [c] + b, a[0], a[1..] + [c] + b);
      RunStep(s, a + b, a[0], a[1..] + b);
    }
  }

  lemma RunOver(s: State, text: string)
    requires s.done
    ensures Run(s, text) == s
  {
  }

  /** The first character that counts. */
  function FirstKept(text: string): char {
    if text == "" then '\0' else if Foreign(text[0]) then FirstKept(text[1..]) else text[0]
  }

  /** The same bytes, and the same answer whether the text was complete. */
  predicate SameOutcome(x: State, y: State) {
    x.out == y.out && x.done == y.done
  }

  /** A line break that does not end the text changes nothing, unless padding follows it. */
  lemma LineBreak(s: State, b: string)
    requires !s.done && s.term != 5 && FirstKept(b) != '='
    ensures SameOutcome(Run(s, "\n" + b), Run(s, b))
  {
    hide Step, Run;
    StepNewline(s);
    RunStep(s, "\n" + b, '\n', b);
    TermForgotten(s.(term := 1), s, b);
  }

  lemma {:induction false} TermForgotten(s: State, t: State, b: string)
    requires !s.done && s.term == 1 && t.term != 5 && t == s.(term := t.term) && FirstKept(b) != '='
    ensures SameOutcome(Run(s, b), Run(t, b))
    decreases |b|
  {
    hide Find, Group, Step;
    if b != "" {
      RunStep(s, b, b[0], b[1..]);
      RunStep(t, b, b[0], b[1..]);
      if Foreign(b[0]) {
        StepForeign(s, b[0]);
        StepForeign(t, b[0]);
        TermForgotten(s, t, b[1..]);
      } else {
        SameStep(s, t, b[0]);
      }
    }
  }

  lemma StepForeign(s: State, c: char)
    requires Foreign(c)
    ensures Step(s, c) == s
  {
    hide Find;
    FindIs(c);
  }

  lemma SameStep(s: State, t: State, c: char)
    requires s.term == 1 && t.term != 5 && t == s.(term := t.term) && c != '=' && !Foreign(c)
    ensures Step(s, c) == Step(t, c)
  {
    hide Find, Group;
    FindMeans(BASE64_TABLE, c);
    TableHas(c);
    FindPad(c);
    if c == '\n' {
      StepNewline(s);
      StepNewline(t);
    }
  }

  lemma FindPad(c: char)
    ensures Find(BASE64_TABLE, c) == 64 ==> c == '='
    ensures c in BASE64_TABLE ==> Find(BASE64_TABLE, c) != -1
  {
    FindHits(BASE64_TABLE, c);
    FindMeans(BASE64_TABLE, c);
    assert BASE64_TABLE[64] == '=';
  }

  lemma {:induction false} FindHits(tbl: string, c: char)
    ensures var n := Find(tbl, c); 0 <= n < |tbl| ==> tbl[n] == c
  {
    if tbl != "" {
      FindHits(tbl[1..], c);
    }
  }

  /** Whatever follows, a line break changes nothing if and only if it comes right after another, or at the start. */
  lemma LineBreakIff(s: State)
    requires !s.done && s.term < 256
    ensures (forall b: string :: SameOutcome(Run(s, "\n" + b), Run(s, b))) <==> s.term == 1
  {
    hide Step, Run;
    StepNewline(s);
    forall b: string
      ensures s.term == 1 ==> Run(s, "\n" + b) == Run(s, b)
      ensures s.term != 5 ==> Run(s, "\n" + b) == Run(s.(term := 1), b)
    {
      RunStep(s, "\n" + b, '\n', b);
    }
    if s.term != 1 {
      var b := "====\n";
      FourPads(s);
      if s.term == 5 {
        RunStep(s, "\n" + b, '\n', b);
        RunOver(s.(done := true), b);
      } else {
        RunTrailer1(s.(term := 1));
      }
      assert !SameOutcome(Run(s, "\n" + b), Run(s, b));
    }
  }

  lemma RunTrailer1(s: State)
    requires !s.done && s.term == 1
    ensures Run(s, "====\n").done
  {
    hide Step, Run;
    StepPad(s);
    RunStep(s, "====\n", '=', "===\n");
    StepPad(s.(term := 2));
    RunStep(s.(term := 2), "===\n", '=', "==\n");
    StepPad(s.(term := 3));
    RunStep(s.(term := 3), "==\n", '=', "=\n");
    StepPad(s.(term := 4));
    RunStep(s.(term := 4), "=\n", '=', "\n");
    StepNewline(s.(term := 5));
    RunStep(s.(term := 5), "\n", '\n', "");
    RunDone(s.(term := 5, done := true));
  }

  /** The terminator is not one unless a line break comes before it. */
  lemma FourPads(s: State)
    requires !s.done && s.term != 1 && s.term < 256
    ensures !Run(s, "====\n").done
  {
    hide Step, Run, Group;
    var a := Pad(s);
    RunStep(s, "====\n", '=', "===\n");
    var b := Pad(a);
    RunStep(a, "===\n", '=', "==\n");
    var c := Pad(b);
    RunStep(b, "==\n", '=', "=\n");
    var d := Pad(c);
    RunStep(c, "=\n", '=', "\n");
    StepNewline(d);
    RunStep(d, "\n", '\n', "");
    RunDone(d.(term := 1));
  }

  lemma Pad(s: State) returns (t: State)
    requires !s.done && s.term < 256
    ensures t == Step(s, '=') && !t.done && t.term == if s.term == 0 then 0 else (s.term + 1) % 256
  {
    StepPad(s);
    t := Step(s, '=');
  }

  /** A line break in front of the padding loses the group. */
  lemma PaddingAfterBreak()
    ensures Run(START, "QQ==").out == [65] && Run(START, "QQ\n==").out == []
  {
    hide Step, Run;
    assert TBL_BASE64[16] == 'Q';
    RunTwo(START, 16, 16, "==");
    RunTwo(START, 16, 16, "\n==");
    assert "QQ==" == ['Q'] + (['Q'] + "==") && "QQ\n==" == ['Q'] + (['Q'] + "\n==");
    var s := State([16, 16], 0, [], false);
    RunTwoPads(s, "");
    assert "==" == ['='] + (['='] + "");
    RunDone(State([], 0, [] + Group([16, 16]), false));
    assert Group([16, 16]) == [65] by { Merge0Adds(16, 16); }
    StepNewline(s);
    RunStep(s, "\n==", '\n', "==");
    var t := s.(term := 1);
    StepPad(t);
    RunStep(t, "==", '=', "=");
    StepPad(t.(term := 2));
    RunStep(t.(term := 2), "=", '=', "");
    RunDone(t.(term := 3));
  }

  /** The numbers of the digits, in order. */
  function Numbers(text: string): (ns: seq<nat>)
    ensures forall k :: 0 <= k < |ns| ==> ns[k] < 64
  {
    if text == "" then [] else (if IsDigit(text[0]) then [Value(text[0])] else []) + Numbers(text[1..])
  }

  /** The number of a digit. */
  function Value(c: char): (n: nat)
    requires IsDigit(c)
    ensures n < 64
  {
    if 'A' <= c <= 'Z' then c as int - 'A' as int
    else if 'a' <= c <= 'z' then c as int - 'a' as int + 26
    else if '0' <= c <= '9' then c as int - '0' as int + 52
    else if c == '+' then 62
    else 63
  }

  /** Three bytes from every four numbers: their 24 bits. */
  function Bytes(ns: seq<nat>): seq<Byte>
    requires forall k :: 0 <= k < |ns| ==> ns[k] < 64
  {
    if |ns| < 4 then []
    else
      var v := ns[0] * 0x40000 + ns[1] * 0x1000 + ns[2] * 0x40 + ns[3];
      [v / 0x10000 % 0x100, v / 0x100 % 0x100, v % 0x100] + Bytes(ns[4..])
  }

  lemma GroupMeans(v: seq<nat>)
    requires |v| == 4 && forall k :: 0 <= k < 4 ==> v[k] < 64
    ensures Group(v) == Bytes(v)
  {
    hide Merge0, Merge1, Merge2;
    Merge0Adds(v[0], v[1]);
    Merge1Adds(v[1], v[2]);
    Merge2Adds(v[2], v[3]);
    BytesOf24(v[0], v[1], v[2], v[3]);
  }

  lemma NumbersFirst(c: char, rest: string)
    ensures Numbers([c] + rest) == (if IsDigit(c) then [Value(c)] else []) + Numbers(rest)
  {
    assert ([c] + rest)[1..] == rest;
  }

  predicate Small(ns: seq<nat>) {
    forall k :: 0 <= k < |ns| ==> ns[k] < 64
  }

  /** What a digit adds. */
  lemma DigitAdds(s: State, c: char, ns: seq<nat>)
    requires !s.done && |s.pending| <= 3 && Small(s.pending) && IsDigit(c) && Small(ns)
    ensures var t := Step(s, c);
            && !t.done && t.term == 0 && |t.pending| <= 3 && Small(t.pending)
            && t.out + Bytes(t.pending + ns) == s.out + Bytes(s.pending + ([Value(c)] + ns))
  {
    hide Step, Bytes, Group;
    var t := DigitStep(s, c);
    var v := s.pending + [Value(c)];
    assert s.pending + ([Value(c)] + ns) == v + ns;
    if |s.pending| == 3 {
      GroupMeans(v);
      BytesFirst(v, ns);
      assert [] + ns == ns;
    }
  }

  /** Text without padding decodes to the bits of its digits, however they are broken into lines and mixed with others. */
  lemma {:induction false} DigitsDecode(s: State, text: string)
    requires !s.done && s.term <= 1 && |s.pending| <= 3 && Small(s.pending) && '=' !in text && '\0' !in text
    ensures !Run(s, text).done && Run(s, text).out == s.out + Bytes(s.pending + Numbers(text))
    decreases |text|
  {
    hide Bytes, Step, Run, Numbers, IsDigit;
    if text == "" {
      RunDone(s);
      NoDigits(s);
    } else {
      var c, rest := text[0], text[1..];
      assert text == [c] + rest;
      RunStep(s, text, c, rest);
      NumbersFirst(c, rest);
      if IsDigit(c) {
        DigitAdds(s, c, Numbers(rest));
        DigitsDecode(Step(s, c), rest);
      } else {
        assert Numbers(text) == Numbers(rest);
        if c == '\n' {
          StepNewline(s);
          DigitsDecode(s.(term := 1), rest);
        } else {
          StepForeign(s, c);
          DigitsDecode(s, rest);
        }
      }
    }
  }

  lemma NoDigits(s: State)
    requires |s.pending| <= 3 && Small(s.pending)
    ensures Numbers("") == [] && s.out + Bytes(s.pending + []) == s.out
  {
    assert s.pending + [] == s.pending && Bytes(s.pending) == [];
  }

  lemma BytesFirst(v: seq<nat>, rest: seq<nat>)
    requires |v| == 4 && (forall k :: 0 <= k < 4 ==> v[k] < 64) && forall k :: 0 <= k < |rest| ==> rest[k] < 64
    ensures forall k :: 0 <= k < |v + rest| ==> (v + rest)[k] < 64
    ensures Bytes(v + rest) == Bytes(v) + Bytes(rest)
  {
    assert (v + rest)[4..] == rest && v[4..] == [];
    assert Bytes([]) == [];
  }

  lemma DigitStep(s: State, c: char) returns (t: State)
    requires !s.done && |s.pending| <= 3 && IsDigit(c)
    ensures t == Step(s, c)
    ensures t == if |s.pending| == 3 then State([], 0, s.out + Group(s.pending + [Value(c)]), false)
                 else State(s.pending + [Value(c)], 0, s.out, false)
  {
    hide Find, Group;
    FindIs(c);
    assert Value(c) == Rank(c);
    t := Step(s, c);
  }
}
