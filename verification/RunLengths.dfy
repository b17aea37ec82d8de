/**
 Run-length coding of code lengths (archival/gzip.c, the loop shared by scan_tree and send_tree)
 and its inverse from section 3.2.7 of RFC 1951.
 */
module RunLengths {
  import opened Words
  import opened Bits
  import opened Options
  import opened Canonical
  import opened Tables
  import opened Inflate
  import opened TextCoding

  const REP_3_6 := 16
  const REPZ_3_10 := 17
  const REPZ_11_138 := 18
  const GUARD := 0xffff

  /** A symbol of the code length alphabet with the value of its extra bits. */
  datatype Run = Run(symbol: nat, extra: nat)

  predicate RunOk(r: Run) {
    r.symbol < BL_CODES && r.extra < Pow2(EXTRA_BLBITS[r.symbol])
  }

  predicate RunsOk(rs: seq<Run>) {
    forall i :: 0 <= i < |rs| ==> RunOk(rs[i])
  }

  /** How many lengths a symbol stands for. */
  function Span(r: Run): nat {
    if r.symbol < 16 then 1 else if r.symbol == REPZ_11_138 then 11 + r.extra else 3 + r.extra
  }

  /** The lengths after one more symbol. */
  function Applied(acc: seq<nat>, r: Run): seq<nat> {
    if r.symbol < 16 then acc + [r.symbol]
    else if r.symbol == REP_3_6 then acc + Copies(if acc == [] then 0 else acc[|acc| - 1], Span(r))
    else acc + Copies(0, Span(r))
  }

  /** A repeat symbol has a length to repeat. */
  predicate Applies(acc: seq<nat>, r: Run) {
    r.symbol == REP_3_6 ==> acc != []
  }

  /** The lengths after all the symbols. */
  function Unroll(acc: seq<nat>, rs: seq<Run>): seq<nat> {
    if rs == [] then acc else Applied(Unroll(acc, rs[..|rs| - 1]), rs[|rs| - 1])
  }

  predicate Unrolls(acc: seq<nat>, rs: seq<Run>) {
    rs == [] || (Unrolls(acc, rs[..|rs| - 1]) && Applies(Unroll(acc, rs[..|rs| - 1]), rs[|rs| - 1]))
  }

  lemma UnrollSnoc(acc: seq<nat>, rs: seq<Run>, r: Run)
    ensures Unroll(acc, rs + [r]) == Applied(Unroll(acc, rs), r)
    ensures Unrolls(acc, rs + [r]) <==> Unrolls(acc, rs) && Applies(Unroll(acc, rs), r)
  {
    assert (rs + [r])[..|rs|] == rs;
  }

  lemma {:induction false} UnrollCons(acc: seq<nat>, rs: seq<Run>)
    requires rs != []
    ensures Unroll(acc, rs) == Unroll(Applied(acc, rs[0]), rs[1..])
    ensures Unrolls(acc, rs) ==> Applies(acc, rs[0]) && Unrolls(Applied(acc, rs[0]), rs[1..])
  {
    hide Applied, Applies;
    var k := |rs| - 1;
    if k > 0 {
      UnrollCons(acc, rs[..k]);
      assert rs[..k][1..] == rs[1..][..k - 1];
    } else {
      assert rs[..0] == [];
    }
  }

  lemma {:induction false} UnrollGrows(acc: seq<nat>, rs: seq<Run>)
    ensures |acc| + |rs| <= |Unroll(acc, rs)| && acc <= Unroll(acc, rs)
  {
    if rs != [] {
      UnrollGrows(acc, rs[..|rs| - 1]);
    }
  }

  function RunBits(r: Run, bl: seq<nat>): seq<bool>
    requires RunOk(r) && HasCode(bl, r.symbol)
  {
    CodeBits(bl, r.symbol) + Low(r.extra, EXTRA_BLBITS[r.symbol])
  }

  predicate RunsCodable(rs: seq<Run>, bl: seq<nat>) {
    forall i :: 0 <= i < |rs| ==> RunOk(rs[i]) && HasCode(bl, rs[i].symbol)
  }

  function RunsBits(rs: seq<Run>, bl: seq<nat>): seq<bool>
    requires RunsCodable(rs, bl)
  {
    if rs == [] then [] else RunBits(rs[0], bl) + RunsBits(rs[1..], bl)
  }

  lemma {:induction false} RunsAppend(a: seq<Run>, b: seq<Run>, bl: seq<nat>)
    requires RunsCodable(a, bl) && RunsCodable(b, bl)
    ensures RunsCodable(a + b, bl) && RunsBits(a + b, bl) == RunsBits(a, bl) + RunsBits(b, bl)
  {
    hide RunBits, RunOk;
    if a == [] {
      assert a + b == b;
    } else {
      RunsAppend(a[1..], b, bl);
      assert (a + b)[1..] == a[1..] + b;
    }
  }

  lemma RunsSnoc(a: seq<Run>, r: Run, bl: seq<nat>)
    requires RunsCodable(a, bl) && RunOk(r) && HasCode(bl, r.symbol)
    ensures RunsCodable(a + [r], bl) && RunsBits(a + [r], bl) == RunsBits(a, bl) + RunBits(r, bl)
  {
    hide RunBits, RunOk;
    RunsAppend(a, [r], bl);
    assert RunsBits([r], bl) == RunBits(r, bl) + RunsBits([], bl);
  }

  /** One symbol read back. */
  lemma DecodeOneRun(acc: seq<nat>, r: Run, rest: seq<bool>)
    requires RunOk(r) && Applies(acc, r)
    ensures DecodeRun(acc, r.symbol, Low(r.extra, EXTRA_BLBITS[r.symbol]) + rest) == Some(Parsed(Applied(acc, r), rest))
  {
    hide Low, Value, Pow2, TakeBits;
    if r.symbol < 16 {
      Pow2Zero(r.extra);
    } else {
      TakeLow(r.extra, EXTRA_BLBITS[r.symbol], rest);
    }
  }

  lemma Pow2Zero(v: nat)
    ensures Pow2(0) == 1 && forall rest: seq<bool> :: Low(v, 0) + rest == rest
  {
  }

  /** Reading the symbols back yields the lengths they were made from. */
  lemma {:induction false} DecodeRuns(bl: seq<nat>, rs: seq<Run>, acc: seq<nat>, rest: seq<bool>)
    requires IsCode(bl) && RunsCodable(rs, bl) && Unrolls(acc, rs)
    ensures DecodeLengths(bl, RunsBits(rs, bl) + rest, |Unroll(acc, rs)|, acc) == Some(Parsed(Unroll(acc, rs), rest))
    decreases |rs|
  {
    hide IsCode, CodeBits, Applied, Applies, DecodeRun, DecodeSymbol, Unroll, Unrolls;
    UnrollNone(acc);
    UnrollGrows(acc, rs);
    if rs == [] {
      assert RunsBits(rs, bl) + rest == rest;
    } else {
      UnrollCons(acc, rs);
      var tail := RunsBits(rs[1..], bl) + rest;
      var extra := Low(rs[0].extra, EXTRA_BLBITS[rs[0].symbol]);
      assert RunsBits(rs, bl) + rest == CodeBits(bl, rs[0].symbol) + (extra + tail);
      DecodeCode(bl, rs[0].symbol, extra + tail);
      DecodeOneRun(acc, rs[0], tail);
      DecodeRuns(bl, rs[1..], Applied(acc, rs[0]), rest);
    }
  }

  lemma UnrollNone(acc: seq<nat>)
    ensures Unroll(acc, []) == acc
  {
  }

  /** The state of the loop: what was emitted, the length emitted last, and the run in progress. */
  datatype Rle = Rle(out: seq<Run>, prevlen: int, count: nat, maxCount: nat, minCount: nat)

  function MaxCount(prevlen: int, next: nat): nat {
    if next == 0 then 138 else if prevlen == next then 6 else 7
  }

  function MinCount(prevlen: int, next: nat): nat {
    if next == 0 then 3 else if prevlen == next then 3 else 4
  }

  /** The symbols for a finished run of count lengths. */
  function Emit(curlen: nat, prevlen: int, count: nat, minCount: nat): seq<Run> {
    if count < minCount then seq(count, _ => Run(curlen, 0))
    else if curlen != 0 then
      if curlen != prevlen then [Run(curlen, 0), Run(REP_3_6, if count < 4 then 0 else count - 4)]
      else [Run(REP_3_6, if count < 3 then 0 else count - 3)]
    else if count <= 10 then [Run(REPZ_3_10, if count < 3 then 0 else count - 3)]
    else [Run(REPZ_11_138, count - 11)]
  }

  /** One turn of the loop. */
  function RleStep(s: Rle, curlen: nat, nextlen: nat): Rle {
    if s.count + 1 < s.maxCount && curlen == nextlen then s.(count := s.count + 1)
    else Rle(s.out + Emit(curlen, s.prevlen, s.count + 1, s.minCount), curlen, 0,
             MaxCount(curlen, nextlen), MinCount(curlen, nextlen))
  }

  function LenAt(lens: seq<nat>, i: nat): nat {
    if i < |lens| then lens[i] else GUARD
  }

  /** The state after n turns over the lengths. */
  function RleTo(lens: seq<nat>, n: nat): Rle
    requires n <= |lens|
  {
    if n == 0 then Rle([], -1, 0, MaxCount(-1, LenAt(lens, 0)), MinCount(-1, LenAt(lens, 0)))
    else RleStep(RleTo(lens, n - 1), lens[n - 1], LenAt(lens, n))
  }

  /** The symbols for a list of lengths. */
  function Runs(lens: seq<nat>): seq<Run> {
    RleTo(lens, |lens|).out
  }

  /** What the state stands for: the lengths of finished runs are emitted, the rest is counted. */
  ghost predicate RleOk(s: Rle, acc: seq<nat>, lens: seq<nat>, n: nat) {
    && s.count <= n <= |lens| && RunsOk(s.out) && Unrolls(acc, s.out)
    && Unroll(acc, s.out) == acc + lens[..n - s.count]
    && (forall i :: n - s.count <= i < n ==> lens[i] == LenAt(lens, n))
    && (s.prevlen == -1 || (n - s.count > 0 && s.prevlen == lens[n - s.count - 1]))
    && s.maxCount == MaxCount(s.prevlen, LenAt(lens, n)) && s.minCount == MinCount(s.prevlen, LenAt(lens, n))
    && s.count < s.maxCount
  }

  lemma {:induction false} EmitCopies(acc: seq<nat>, rs: seq<Run>, v: nat, k: nat)
    requires v < 16 && RunsOk(rs) && Unrolls(acc, rs)
    ensures var rs' := rs + seq(k, _ => Run(v, 0));
            RunsOk(rs') && Unrolls(acc, rs') && Unroll(acc, rs') == Unroll(acc, rs) + Copies(v, k)
  {
    hide Unroll, Unrolls, Pow2;
    SmallPowers();
    if k == 0 {
      assert rs + seq(0, _ => Run(v, 0)) == rs;
    } else {
      EmitCopies(acc, rs, v, k - 1);
      var prev := rs + seq(k - 1, _ => Run(v, 0));
      UnrollSnoc(acc, prev, Run(v, 0));
      assert rs + seq(k, _ => Run(v, 0)) == prev + [Run(v, 0)];
      assert Copies(v, k) == Copies(v, k - 1) + [v];
    }
  }

  lemma EmitRun(acc: seq<nat>, rs: seq<Run>, r: Run, v: nat)
    requires RunsOk(rs) && Unrolls(acc, rs) && RunOk(r) && Applies(Unroll(acc, rs), r)
    requires if r.symbol < 16 then v == r.symbol
             else if r.symbol == REP_3_6 then var u := Unroll(acc, rs); u != [] && v == u[|u| - 1]
             else v == 0
    ensures RunsOk(rs + [r]) && Unrolls(acc, rs + [r]) && Unroll(acc, rs + [r]) == Unroll(acc, rs) + Copies(v, Span(r))
  {
    hide Unroll, Unrolls, Pow2;
    UnrollSnoc(acc, rs, r);
  }

  /** A finished run is emitted in full. */
  lemma EmitOk(acc: seq<nat>, rs: seq<Run>, curlen: nat, prevlen: int, count: nat)
    requires RunsOk(rs) && Unrolls(acc, rs) && curlen < 16 && 1 <= count <= MaxCount(prevlen, curlen)
    requires prevlen == -1 || (Unroll(acc, rs) != [] && prevlen == Unroll(acc, rs)[|Unroll(acc, rs)| - 1])
    ensures var rs' := rs + Emit(curlen, prevlen, count, MinCount(prevlen, curlen));
            RunsOk(rs') && Unrolls(acc, rs') && Unroll(acc, rs') == Unroll(acc, rs) + Copies(curlen, count)
  {
    hide Unroll, Unrolls, Pow2, Applied;
    SmallPowers();
    if count < MinCount(prevlen, curlen) {
      EmitCopies(acc, rs, curlen, count);
    } else if curlen != 0 && curlen != prevlen {
      EmitRun(acc, rs, Run(curlen, 0), curlen);
      EmitRun(acc, rs + [Run(curlen, 0)], Run(REP_3_6, count - 4), curlen);
      assert rs + [Run(curlen, 0), Run(REP_3_6, count - 4)] == rs + [Run(curlen, 0)] + [Run(REP_3_6, count - 4)];
      assert Copies(curlen, count) == Copies(curlen, 1) + Copies(curlen, count - 1);
    } else if curlen != 0 {
      EmitRun(acc, rs, Run(REP_3_6, count - 3), curlen);
    } else if count <= 10 {
      EmitRun(acc, rs, Run(REPZ_3_10, count - 3), 0);
    } else {
      EmitRun(acc, rs, Run(REPZ_11_138, count - 11), 0);
    }
  }

  lemma RleStepOk(s: Rle, acc: seq<nat>, lens: seq<nat>, n: nat)
    requires n < |lens| && RleOk(s, acc, lens, n) && forall i :: 0 <= i < |lens| ==> lens[i] <= MAX_BITS
    ensures RleOk(RleStep(s, lens[n], LenAt(lens, n + 1)), acc, lens, n + 1)
  {
    hide Unroll, Unrolls, Pow2, RunOk, Emit;
    var cur, next := lens[n], LenAt(lens, n + 1);
    if !(s.count + 1 < s.maxCount && cur == next) {
      EmitOk(acc, s.out, cur, s.prevlen, s.count + 1);
      assert lens[..n + 1] == lens[..n - s.count] + Copies(cur, s.count + 1);
      assert acc + lens[..n + 1] == acc + lens[..n - s.count] + Copies(cur, s.count + 1);
    }
  }

  lemma {:induction false} RleToOk(acc: seq<nat>, lens: seq<nat>, n: nat)
    requires n <= |lens| && forall i :: 0 <= i < |lens| ==> lens[i] <= MAX_BITS
    ensures RleOk(RleTo(lens, n), acc, lens, n)
  {
    hide RleStep;
    if n > 0 {
      hide RleOk;
      RleToOk(acc, lens, n - 1);
      RleStepOk(RleTo(lens, n - 1), acc, lens, n - 1);
    } else {
      assert lens[..0] == [];
      assert acc + [] == acc;
    }
  }

  /** The symbols fit their extra bits and stand for exactly the lengths, whatever came before. */
  lemma RunsUnroll(acc: seq<nat>, lens: seq<nat>)
    requires forall i :: 0 <= i < |lens| ==> lens[i] <= MAX_BITS
    ensures RunsOk(Runs(lens)) && Unrolls(acc, Runs(lens)) && Unroll(acc, Runs(lens)) == acc + lens
  {
    hide Unroll, Unrolls, RleTo;
    RleToOk(acc, lens, |lens|);
    assert |lens| > 0 ==> lens[|lens| - 1] <= MAX_BITS;
    assert lens[..|lens|] == lens;
  }
}
