/**
 A text for which flush_block does not send the shortest form (archival/gzip.c): fifteen different bytes
 with fixed codes of nine bits are stored in 160 bits, while the fixed codes take 145.
 */
module StoredExample {
  import opened Words
  import opened RollingHash
  import opened Lz77
  import opened Options
  import opened Sums
  import opened CodeCounts
  import opened HuffmanGrow
  import opened Canonical
  import opened GenCodes
  import opened Tables
  import opened Inflate
  import opened TextCoding
  import opened RunLengths
  import opened TreeHeader
  import opened TokenCounts
  import opened BlockTrees
  import opened BlockForms
  import opened Blocks

  function Fifteen(): (text: seq<byte>)
    ensures |text| == 15
  {
    seq(15, i requires 0 <= i < 15 => (0x90 + i) as byte)
  }

  function Literals(text: seq<byte>): (ts: seq<Token>)
    ensures |ts| == |text| && TokensOk(ts)
  {
    seq(|text|, i requires 0 <= i < |text| => Literal(text[i]))
  }

  predicate Different(text: seq<byte>) {
    forall i, k :: 0 <= i < k < |text| ==> text[i] != text[k]
  }

  lemma {:induction false} CopyKeeps(out: seq<byte>, length: nat, distance: nat)
    requires 1 <= distance <= |out|
    ensures out <= Copy(out, length, distance)
    ensures length > 0 ==> Copy(out, length, distance)[|out|] == out[|out| - distance]
    decreases length
  {
    if length > 0 {
      var more := out + [out[|out| - distance]];
      CopyKeeps(more, length - 1, distance);
      assert more[|out|] == out[|out| - distance];
    }
  }

  lemma ReferenceRepeats(out: seq<byte>, t: Token, text: seq<byte>)
    requires TokenOk(t) && ExpandToken(out, t) == Some(text)
    ensures t.Match? ==> !Different(text)
  {
    if t.Match? {
      CopyKeeps(out, t.length, t.distance);
      assert text[|out|] == text[|out| - t.distance];
    }
  }

  /** Without repeated bytes there are no references. */
  lemma {:induction false} DifferentAreLiterals(ts: seq<Token>, text: seq<byte>)
    requires TokensOk(ts) && Expand([], ts) == Some(text) && Different(text)
    ensures ts == Literals(text)
    decreases |ts|
  {
    if ts != [] {
      var n := |ts| - 1;
      var t, front := ts[n], ts[..n];
      var o := Expand([], front).value;
      ReferenceRepeats(o, t, text);
      assert text == o + [t.value];
      assert forall i :: 0 <= i < |o| ==> o[i] == text[i];
      DifferentAreLiterals(front, o);
      assert ts == front + [t];
    }
  }

  /** The symbols of a text. */
  function Symbols(text: seq<byte>): (xs: seq<nat>)
    ensures |xs| == |text|
  {
    seq(|text|, i requires 0 <= i < |text| => text[i] as nat)
  }

  lemma {:induction false} LiteralBits(text: seq<byte>, ll: seq<nat>, dd: seq<nat>)
    requires AllCodable(Literals(text), ll, dd)
    ensures InTable(Symbols(text), ll) && |TextBits(Literals(text), ll, dd)| == SumAt(ll, Symbols(text))
    decreases |text|
  {
    hide CodeBits;
    var ts := Literals(text);
    assert forall i :: 0 <= i < |text| ==> Codable(ts[i], ll, dd) && ts[i] == Literal(text[i]);
    if text != [] {
      assert ts[1..] == Literals(text[1..]) && Symbols(text)[1..] == Symbols(text[1..]);
      LiteralBits(text[1..], ll, dd);
    }
  }

  lemma {:induction false} NoDistances(text: seq<byte>)
    ensures CountD(Literals(text)) == NoTokensD()
  {
    if text != [] {
      var n := |text| - 1;
      assert Literals(text)[..n] == Literals(text[..n]);
      NoDistances(text[..n]);
    }
  }

  /** The literals and the end mark. */
  function Sixteen(): (xs: seq<nat>)
    ensures |xs| == 16 && forall i :: 0 <= i < 16 ==> xs[i] == if i < 15 then 0x90 + i else END_BLOCK
  {
    seq(16, i requires 0 <= i < 16 => if i < 15 then 0x90 + i else END_BLOCK)
  }

  lemma FifteenBits(ll: seq<nat>, dd: seq<nat>)
    requires AllCodable(Literals(Fifteen()), ll, dd) && HasCode(ll, END_BLOCK)
    ensures InTable(Sixteen(), ll) && |CodedBits(Literals(Fifteen()), ll, dd)| == SumAt(ll, Sixteen())
    ensures forall i :: 0 <= i < 16 ==> HasCode(ll, Sixteen()[i])
  {
    hide SumAt, TextBits, CodeBits;
    var text, ts := Fifteen(), Literals(Fifteen());
    LiteralBits(text, ll, dd);
    assert Sixteen() == Symbols(text) + [END_BLOCK];
    SumAppend(ll, Symbols(text), [END_BLOCK]);
    SumOne(ll, END_BLOCK);
    forall i | 0 <= i < 15
      ensures HasCode(ll, Sixteen()[i])
    {
      assert Codable(ts[i], ll, dd) && ts[i] == Literal(text[i]);
    }
  }

  // ---- the fixed codes ----

  lemma {:induction false} SumSame(table: seq<int>, xs: seq<nat>, v: int)
    requires InTable(xs, table) && forall i :: 0 <= i < |xs| ==> table[xs[i]] == v
    ensures SumAt(table, xs) == |xs| * v
  {
    if xs != [] {
      assert forall i :: 0 <= i < |xs| - 1 ==> xs[1..][i] == xs[i + 1];
      SumSame(table, xs[1..], v);
    }
  }

  lemma FixedLength()
    requires InTable(Sixteen(), FixedL())
    ensures SumAt(FixedL(), Sixteen()) == 142
  {
    hide SumAt;
    var xs := Sixteen();
    assert xs == xs[..15] + [END_BLOCK];
    SumSame(FixedL(), xs[..15], 9);
    SumAppend(FixedL(), xs[..15], [END_BLOCK]);
    SumOne(FixedL(), END_BLOCK);
  }

  // ---- codes of its own ----

  predicate Ascending(xs: seq<nat>) {
    forall i, k :: 0 <= i < k < |xs| ==> xs[i] < xs[k]
  }

  /** Some of the codes take no more room than all. */
  lemma {:induction false} PartOfKraft(lens: seq<nat>, xs: seq<nat>, n: nat)
    requires n <= |lens| && Ascending(xs) && (xs != [] ==> xs[|xs| - 1] < n)
    requires forall i :: 0 <= i < |xs| ==> xs[i] < |lens| && lens[xs[i]] != 0
    ensures InTable(xs, lens) && InTable(UsedTo(lens, n), lens)
    ensures 0 <= KraftAt(lens, xs, MAX_BITS) <= KraftAt(lens, UsedTo(lens, n), MAX_BITS)
    decreases n
  {
    hide SumAt, Pow2;
    var table := KraftTable(lens, MAX_BITS);
    UsedBelow(lens, n);
    if n == 0 {
      EmptySums(lens, MAX_BITS);
    } else {
      var front, k := xs, |xs| - 1;
      if xs != [] && xs[k] == n - 1 {
        front := xs[..k];
        assert xs == front + [n - 1];
        PartOfKraft(lens, front, n - 1);
        SumAppend(table, front, [n - 1]);
      } else {
        PartOfKraft(lens, xs, n - 1);
      }
      SumOne(table, n - 1);
      if lens[n - 1] != 0 {
        SumAppend(table, UsedTo(lens, n - 1), [n - 1]);
      }
    }
  }

  lemma KraftOfCode(lens: seq<nat>)
    requires IsCode(lens)
    ensures InTable(UsedTo(lens, |lens|), lens) && KraftAt(lens, UsedTo(lens, |lens|), MAX_BITS) <= Pow2(MAX_BITS)
  {
    hide KraftCounts, CountLen, KraftAt, Pow2, CountTo, LenCounts, UsedTo;
    var us, bl := UsedTo(lens, |lens|), LenCounts(lens);
    UsedBelow(lens, |lens|);
    assert forall i :: 0 <= i < |us| ==> lens[us[i]] <= MAX_BITS;
    hide IsCode;
    forall b | 0 <= b <= MAX_BITS
      ensures bl[b] == CountLen(lens, us, b)
    {
      if b > 0 {
        UsedCount(lens, lens, |lens|, b);
      } else {
        NoneOfZero(lens, us);
      }
    }
    CountsSums(bl, lens, us, MAX_BITS);
    assert KraftCounts(bl, MAX_BITS + 1, MAX_BITS) <= Pow2(MAX_BITS) by { CodeKraft(lens); }
  }

  lemma CodeKraft(lens: seq<nat>)
    requires IsCode(lens)
    ensures KraftCounts(LenCounts(lens), MAX_BITS + 1, MAX_BITS) <= Pow2(MAX_BITS)
  {
  }

  lemma {:induction false} NoneOfZero(lens: seq<nat>, us: seq<nat>)
    requires InTable(us, lens) && forall i :: 0 <= i < |us| ==> lens[us[i]] != 0
    ensures CountLen(lens, us, 0) == 0
  {
    if us != [] {
      CountCons(lens, us, 0);
      assert forall i :: 0 <= i < |us| - 1 ==> us[1..][i] == us[i + 1];
      NoneOfZero(lens, us[1..]);
    } else {
      EmptySums(lens, 0);
    }
  }

  /** A code of l bits takes at least the room that the tangent at four bits gives it. */
  lemma Tangent(l: nat)
    requires 1 <= l <= MAX_BITS
    ensures Pow2(MAX_BITS - l) >= 2048 * (5 - l)
  {
    hide Pow2;
    SmallPowers();
    if l < 5 {
      Pow2Add(11, 4 - l);
      Pow2Of11();
    }
  }

  lemma Pow2Of11()
    ensures Pow2(11) == 2048 && Pow2(0) == 1 && Pow2(1) == 2 && Pow2(2) == 4 && Pow2(3) == 8
  {
    assert Pow2(4) == 16 && Pow2(5) == 32 && Pow2(6) == 64 && Pow2(7) == 128;
    assert Pow2(8) == 256 && Pow2(9) == 512 && Pow2(10) == 1024;
  }

  lemma {:induction false} TangentSum(lens: seq<nat>, xs: seq<nat>)
    requires InTable(xs, lens) && forall i :: 0 <= i < |xs| ==> 1 <= lens[xs[i]] <= MAX_BITS
    ensures KraftAt(lens, xs, MAX_BITS) >= 2048 * (5 * |xs| - SumAt(lens, xs))
  {
    if xs != [] {
      hide Pow2;
      Tangent(lens[xs[0]]);
      assert forall i :: 0 <= i < |xs| - 1 ==> xs[1..][i] == xs[i + 1];
      TangentSum(lens, xs[1..]);
    } else {
      EmptySums(lens, MAX_BITS);
    }
  }

  /** Sixteen symbols need four bits each on average. */
  lemma SixtyFour(ll: seq<nat>)
    requires IsCode(ll) && InTable(Sixteen(), ll) && forall i :: 0 <= i < 16 ==> HasCode(ll, Sixteen()[i])
    ensures SumAt(ll, Sixteen()) >= 64
  {
    hide SumAt, KraftAt, IsCode, UsedTo, Pow2;
    KraftOfCode(ll);
    PartOfKraft(ll, Sixteen(), |ll|);
    TangentSum(ll, Sixteen());
    Pow2Of15();
  }

  /** A run-length symbol takes at least eight bits for 138 lengths. */
  lemma RunCost(r: Run, bl: seq<nat>)
    requires RunOk(r) && HasCode(bl, r.symbol)
    ensures 138 * |RunBits(r, bl)| >= 8 * Span(r)
  {
    hide CodeBits, Pow2;
    SmallPowers();
    assert |RunBits(r, bl)| >= 1 + EXTRA_BLBITS[r.symbol];
  }

  lemma {:induction false} RunsCost(rs: seq<Run>, bl: seq<nat>)
    requires RunsCodable(rs, bl)
    ensures 138 * |RunsBits(rs, bl)| >= 8 * |Unroll([], rs)|
    decreases |rs|
  {
    hide RunBits, RunOk;
    if rs != [] {
      var n := |rs| - 1;
      RunsCost(rs[..n], bl);
      RunCost(rs[n], bl);
      assert rs == rs[..n] + [rs[n]];
      RunsSnoc(rs[..n], rs[n], bl);
      assert |Applied(Unroll([], rs[..n]), rs[n])| <= |Unroll([], rs[..n])| + Span(rs[n]);
    }
  }

  /** The forced codes for distances have one bit, and that length comes late in the header. */
  lemma LateLength(text: seq<byte>, ll: seq<nat>, dd: seq<nat>, bl: seq<nat>, blcodes: nat, opt: int)
    requires DynamicLength(Literals(text), ll, dd, bl, blcodes, opt)
    ensures blcodes >= 18
  {
    hide CodedBits, DynamicBits, AllCodable, IsCode, Runs, CountL, CountD, UsedTo, Unroll, Unrolls, Pow2;
    NoDistances(text);
    var k := |dd| - 1;
    assert NoTokensD()[k] == 0 && dd[k] == 1;
    RunsUnroll([], dd);
    assert [] + dd == dd;
    LengthSent([], Runs(dd), 1);
    var i :| 0 <= i < |Runs(dd)| && Runs(dd)[i].symbol == 1;
    assert HasCode(bl, 1) && BL_INDEX[1] == 17;
  }

  lemma OwnLength(ll: seq<nat>, dd: seq<nat>, bl: seq<nat>, blcodes: nat, opt: int)
    requires DynamicLength(Literals(Fifteen()), ll, dd, bl, blcodes, opt)
    ensures opt >= 142
  {
    LateLength(Fifteen(), ll, dd, bl, blcodes, opt);
    hide CodedBits, AllCodable, IsCode, Runs, CountL, CountD, UsedTo, Unroll, Unrolls, Pow2, RunsBits, SumAt, Economical, RunsCodable;
    FifteenBits(ll, dd);
    SixtyFour(ll);
    RunsUnroll([], ll);
    assert [] + ll == ll;
    RunsCost(Runs(ll), bl);
  }

  /** The block of these bytes at the start of the stream is stored, in 15 bits more than the fixed codes take. */
  lemma FifteenBytes(ts: seq<Token>, s: Sending)
    requires Expand([], ts) == Some(Fifteen()) && Accounted(s, ts, true, 15)
    ensures s.form == StoredForm
    ensures FormBits(StoredForm, 0, 15, s.stat, s.opt) == 160 && FormBits(StaticForm, 0, 15, s.stat, s.opt) == 145
  {
    hide CodedBits, AllCodable, Expand, FixedL, FixedD, DynamicLength, SumAt;
    assert TokensOk(ts) by { LengthTokens(ts, s); }
    DifferentAreLiterals(ts, Fifteen());
    FifteenBits(FixedL(), FixedD());
    FixedLength();
    OwnLength(s.ll, s.dd, s.bl, s.blcodes, s.opt);
  }

  lemma LengthTokens(ts: seq<Token>, s: Sending)
    requires DynamicLength(ts, s.ll, s.dd, s.bl, s.blcodes, s.opt)
    ensures TokensOk(ts)
  {
    hide TreesOk, Economical;
  }
}
