/**
 The loop of scan_tree and send_tree (archival/gzip.c) counts one length after the other; here is what it
 comes to: every symbol stands for as many lengths as one symbol can.
 */
module GreedyRuns {
  import opened Canonical
  import opened RunLengths

  /** How many lengths at the front are equal. */
  function Equal(lens: seq<nat>): (n: nat)
    ensures n <= |lens| && (lens != [] ==> n > 0)
    ensures forall i :: 0 <= i < n ==> lens[i] == lens[0]
    ensures n < |lens| ==> lens[n] != lens[0]
  {
    if |lens| <= 1 then |lens| else if lens[0] != lens[1] then 1 else 1 + Equal(lens[1..])
  }

  function AtMost(n: nat, most: nat): nat {
    if n < most then n else most
  }

  /**
   The symbols for the lengths after one of prev: three or more zeros make a symbol for up to 138 of them, three
   or more lengths that repeat the one before a symbol for up to six; any other length stands for itself.
   */
  function Greedy(prev: int, lens: seq<nat>): seq<Run>
    decreases |lens|
  {
    if lens == [] then []
    else
      var v, k := lens[0], Equal(lens);
      if k >= 3 && v == 0 then
        var n := AtMost(k, 138);
        [if n <= 10 then Run(REPZ_3_10, n - 3) else Run(REPZ_11_138, n - 11)] + Greedy(v, lens[n..])
      else if k >= 3 && v == prev then
        var n := AtMost(k, 6);
        [Run(REP_3_6, n - 3)] + Greedy(v, lens[n..])
      else [Run(v, 0)] + Greedy(v, lens[1..])
  }

  lemma EqualIs(lens: seq<nat>, n: nat)
    requires 0 < n <= |lens| && (forall i :: 0 <= i < n ==> lens[i] == lens[0])
    ensures n <= Equal(lens) && (n == |lens| || lens[n] != lens[0] ==> Equal(lens) == n)
  {
  }

  lemma GreedyItself(prev: int, lens: seq<nat>)
    requires lens != [] && (Equal(lens) < 3 || (lens[0] != 0 && lens[0] != prev))
    ensures Greedy(prev, lens) == [Run(lens[0], 0)] + Greedy(lens[0], lens[1..])
  {
  }

  lemma GreedyRepeat(lens: seq<nat>, n: nat)
    requires lens != [] && lens[0] != 0 && Equal(lens) >= 3 && n == AtMost(Equal(lens), 6)
    ensures Greedy(lens[0], lens) == [Run(REP_3_6, n - 3)] + Greedy(lens[0], lens[n..])
  {
  }

  lemma GreedyZeros(prev: int, lens: seq<nat>, n: nat)
    requires lens != [] && lens[0] == 0 && Equal(lens) >= 3 && n == AtMost(Equal(lens), 138)
    ensures Greedy(prev, lens) ==
            [if n <= 10 then Run(REPZ_3_10, n - 3) else Run(REPZ_11_138, n - 11)] + Greedy(0, lens[n..])
  {
  }

  /** A short run stands for itself. */
  lemma {:induction false} PlainGreedy(prev: int, lens: seq<nat>)
    requires lens != [] && (Equal(lens) < 3 || (Equal(lens) == 3 && lens[0] != 0 && lens[0] != prev))
    ensures Greedy(prev, lens) == seq(Equal(lens), _ => Run(lens[0], 0)) + Greedy(lens[0], lens[Equal(lens)..])
    decreases |lens|
  {
    hide Greedy;
    var v, k := lens[0], Equal(lens);
    var rest := lens[1..];
    GreedyItself(prev, lens);
    if k > 1 {
      EqualIs(rest, k - 1);
      PlainGreedy(v, rest);
      assert rest[k - 1..] == lens[k..];
      assert seq(k, _ => Run(v, 0)) == [Run(v, 0)] + seq(k - 1, _ => Run(v, 0));
    } else {
      assert seq(k, _ => Run(v, 0)) == [Run(v, 0)];
    }
  }

  /** A run that is emitted is the whole run, or as much of it as is counted at most. */
  lemma EmitGreedy(prev: int, lens: seq<nat>, count: nat)
    requires lens != [] && 1 <= count <= Equal(lens) && count <= MaxCount(prev, lens[0])
    requires count == Equal(lens) || count == MaxCount(prev, lens[0])
    ensures Greedy(prev, lens) == Emit(lens[0], prev, count, MinCount(prev, lens[0])) + Greedy(lens[0], lens[count..])
  {
    hide Greedy, Equal;
    var v := lens[0];
    if count < MinCount(prev, v) {
      PlainGreedy(prev, lens);
    } else if v == 0 {
      GreedyZeros(prev, lens, count);
    } else if v == prev {
      GreedyRepeat(lens, count);
    } else {
      var rest := lens[1..];
      EqualIs(rest, Equal(lens) - 1);
      GreedyRepeat(rest, count - 1);
      GreedyItself(prev, lens);
      assert rest[count - 1..] == lens[count..];
    }
  }

  /** What is emitted, and what the lengths from the run in progress on still make. */
  ghost predicate Made(s: Rle, lens: seq<nat>, n: nat) {
    s.count <= n <= |lens| && s.out + Greedy(s.prevlen, lens[n - s.count..]) == Greedy(-1, lens)
  }

  lemma MadeStep(s: Rle, lens: seq<nat>, n: nat)
    requires n < |lens| && RleOk(s, [], lens, n) && Made(s, lens, n) && forall i :: 0 <= i < |lens| ==> lens[i] <= MAX_BITS
    ensures Made(RleStep(s, lens[n], LenAt(lens, n + 1)), lens, n + 1)
  {
    hide Greedy, Emit, MaxCount, MinCount, Equal, RunsOk, Unrolls, Unroll;
    var cur, next := lens[n], LenAt(lens, n + 1);
    var run := lens[n - s.count..];
    EqualIs(run, s.count + 1);
    if !(s.count + 1 < s.maxCount && cur == next) {
      EmitGreedy(s.prevlen, run, s.count + 1);
      assert run[s.count + 1..] == lens[n + 1..];
    }
  }

  lemma {:induction false} MadeTo(lens: seq<nat>, n: nat)
    requires n <= |lens| && forall i :: 0 <= i < |lens| ==> lens[i] <= MAX_BITS
    ensures Made(RleTo(lens, n), lens, n)
  {
    hide Greedy, RleOk, RleStep;
    if n == 0 {
      assert lens[0..] == lens;
    } else {
      MadeTo(lens, n - 1);
      RleToOk([], lens, n - 1);
      MadeStep(RleTo(lens, n - 1), lens, n - 1);
    }
  }

  /** The symbols sent are the greedy ones. */
  lemma RunsGreedy(lens: seq<nat>)
    requires forall i :: 0 <= i < |lens| ==> lens[i] <= MAX_BITS
    ensures Runs(lens) == Greedy(-1, lens)
  {
    hide RleTo, RleOk;
    MadeTo(lens, |lens|);
    RleToOk([], lens, |lens|);
    RunsDone([], lens);
  }

  lemma RunsDone(acc: seq<nat>, lens: seq<nat>)
    requires RleOk(RleTo(lens, |lens|), acc, lens, |lens|) && forall i :: 0 <= i < |lens| ==> lens[i] <= MAX_BITS
    ensures RleTo(lens, |lens|).count == 0 && lens[|lens|..] == []
  {
    hide RunsOk, Unrolls, Unroll, RleTo;
    assert |lens| > 0 ==> lens[|lens| - 1] <= MAX_BITS;
  }
}
