/**
 Where a block ends (archival/gzip.c, ct_tally): when a buffer is full, or when, every 4096 tokens, few of them
 are matches and the text shrinks to less than half by a rough estimate.
 */
module BlockEnds {
  import opened RollingHash
  import opened Lz77
  import opened Tables
  import opened TextCoding
  import opened TokenCounts
  import opened TokenBuffers

  /** How many of the tokens are matches. */
  function Matches(ts: seq<Token>): (n: nat)
    ensures n <= |ts|
  {
    if ts == [] then 0 else Matches(ts[..|ts| - 1]) + if ts[|ts| - 1].Match? then 1 else 0
  }

  /** A rough size in bits: eight for every token, and for a match five and the extra bits of its distance. */
  function Estimate(ts: seq<Token>): nat
    requires TokensOk(ts)
  {
    if ts == [] then 0
    else
      var t := ts[|ts| - 1];
      Estimate(ts[..|ts| - 1]) + 8 + if t.Match? then 5 + EXTRA_DBITS[DistSymbol(t)] else 0
  }

  /** The block has to end after these tokens, which stand for about inLength bytes. */
  predicate BlockFull(ts: seq<Token>, inLength: int)
    requires TokensOk(ts)
  {
    || |ts| == LIT_BUFSIZE - 1 || Matches(ts) == DIST_BUFSIZE
    || (|ts| % 0x1000 == 0 && Matches(ts) < |ts| / 2 && Estimate(ts) / 8 < inLength / 2)
  }

  lemma {:induction false} MatchesAre(ts: seq<Token>)
    requires TokensOk(ts)
    ensures |Dists(ts)| == Matches(ts)
  {
    if ts != [] {
      MatchesAre(ts[..|ts| - 1]);
    }
  }

  /** The bits of the distances, from the counts of the first n codes. */
  function DistBits(f: seq<nat>, n: nat): nat
    requires n <= |f| && n <= D_CODES
  {
    if n == 0 then 0 else DistBits(f, n - 1) + f[n - 1] * (5 + EXTRA_DBITS[n - 1])
  }

  lemma {:induction false} DistBitsMore(f: seq<nat>, s: nat, n: nat)
    requires n <= |f| && n <= D_CODES && s < |f|
    ensures DistBits(More(f, s), n) == DistBits(f, n) + if s < n then 5 + EXTRA_DBITS[s] else 0
  {
    if n > 0 {
      DistBitsMore(f, s, n - 1);
      if s == n - 1 {
        OneMore(f[s], 5 + EXTRA_DBITS[s]);
      }
    }
  }

  lemma OneMore(a: nat, b: nat)
    ensures (a + 1) * b == a * b + b
  {
  }

  lemma {:induction false} DistBitsZero(f: seq<nat>, n: nat)
    requires n <= |f| && n <= D_CODES && forall i :: 0 <= i < n ==> f[i] == 0
    ensures DistBits(f, n) == 0
  {
    if n > 0 {
      DistBitsZero(f, n - 1);
    }
  }

  /** The estimate, as it is computed from the counts. */
  lemma {:induction false} EstimateIs(ts: seq<Token>)
    requires TokensOk(ts)
    ensures Estimate(ts) == |ts| * 8 + DistBits(CountD(ts), D_CODES)
  {
    hide DistBits;
    if ts == [] {
      DistBitsZero(NoTokensD(), D_CODES);
    } else {
      var n := |ts| - 1;
      EstimateIs(ts[..n]);
      if ts[n].Match? {
        DistBitsMore(CountD(ts[..n]), DistSymbol(ts[n]), D_CODES);
      }
    }
  }

  /** How much text the tokens stand for. */
  function Widths(ts: seq<Token>): nat {
    if ts == [] then 0 else Widths(ts[..|ts| - 1]) + Width(ts[|ts| - 1])
  }

  /** The block ends after the run: the text counts up to the first byte of its last token. */
  predicate Full(run: seq<Token>)
    requires TokensOk(run) && run != []
  {
    BlockFull(run, Widths(run[..|run| - 1]) + 1)
  }

  /** No shorter run is full. */
  ghost predicate Lasts(run: seq<Token>)
    requires TokensOk(run)
  {
    forall k :: 0 < k < |run| ==> !Full(run[..k])
  }

  /** The blocks have the tokens, cut into runs as soon as they are full; a stored block has the text of its run. */
  ghost predicate Divided(bs: seq<Block>, ts: seq<Token>, final: bool)
    requires TokensOk(ts)
    decreases |bs|
  {
    && Expand([], ts) == ExpandBlocks(bs)
    && if bs == [] then ts == []
       else
         exists n :: 0 <= n <= |ts| && Divided(bs[..|bs| - 1], ts[..n], false) && Lasts(ts[n..])
                     && (final || (n < |ts| && Full(ts[n..])))
                     && (bs[|bs| - 1].Coded? ==> bs[|bs| - 1].tokens == ts[n..])
  }

  lemma DividedMore(bs: seq<Block>, ts: seq<Token>, run: seq<Token>, b: Block, final: bool)
    requires TokensOk(ts) && TokensOk(run) && Divided(bs, ts, false) && ExpandBlocks(bs).Some? && (b.Coded? ==> b.tokens == run)
    requires ExpandBlock(ExpandBlocks(bs).value, b) == Expand(ExpandBlocks(bs).value, run)
    requires Lasts(run) && (final || (run != [] && Full(run)))
    ensures TokensOk(ts + run) && Divided(bs + [b], ts + run, final)
  {
    hide Expand, ExpandBlocks, ExpandBlock, Lasts, Full, TokenOk;
    ExpandAppend([], ts, run);
    ExpandBlocksSnoc(bs, b);
    assert (bs + [b])[..|bs|] == bs && (ts + run)[..|ts|] == ts && (ts + run)[|ts|..] == run;
    assert Divided((bs + [b])[..|bs|], (ts + run)[..|ts|], false);
  }

  lemma LastsMore(run: seq<Token>, t: Token)
    requires TokensOk(run) && TokenOk(t) && Lasts(run) && (run != [] ==> !Full(run))
    ensures TokensOk(run + [t]) && Lasts(run + [t])
  {
    hide Full, TokenOk;
    var more := run + [t];
    forall k | 0 < k < |more|
      ensures !Full(more[..k])
    {
      assert more[..k] == run[..k] && run[..|run|] == run;
    }
  }

  lemma FullIs(run: seq<Token>, t: Token)
    requires TokensOk(run) && TokenOk(t)
    ensures TokensOk(run + [t]) && (Full(run + [t]) <==> BlockFull(run + [t], Widths(run) + 1))
  {
    assert (run + [t])[..|run|] == run;
  }

  lemma {:induction false} ExpandWidths(out: seq<byte>, ts: seq<Token>)
    requires Expand(out, ts).Some?
    ensures |Expand(out, ts).value| == |out| + Widths(ts)
    decreases |ts|
  {
    if ts != [] {
      ExpandWidths(out, ts[..|ts| - 1]);
    }
  }
}
