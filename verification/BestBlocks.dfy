/**
 How good the codes of a block are (archival/gzip.c, flush_block): with 16-bit counts they are optimal
 whenever some optimal code keeps the limit of 15 bits.
 */
module BestBlocks {
  import opened Lz77
  import opened Canonical
  import opened Tables
  import opened Inflate
  import opened TextCoding
  import opened TokenCounts
  import opened HuffmanGrow
  import opened HuffmanDepth
  import opened CodeLengths
  import opened LimitedCodes
  import opened BlockTrees

  lemma {:induction false} TotalMore(f: seq<nat>, x: nat, n: nat)
    requires x < |f| && n <= |f|
    ensures Total(More(f, x), n) == Total(f, n) + if x < n then 1 else 0
  {
    if n > 0 {
      TotalMore(f, x, n - 1);
    }
  }

  lemma {:induction false} TotalZero(f: seq<nat>, n: nat, x: nat)
    requires n <= |f| && forall i :: 0 <= i < n ==> f[i] == if i == x then 1 else 0
    ensures Total(f, n) == if x < n then 1 else 0
  {
    if n > 0 {
      TotalZero(f, n - 1, x);
    }
  }

  /** Every token counts once, and the end of the block. */
  lemma {:induction false} TotalTokens(ts: seq<Token>)
    requires TokensOk(ts)
    ensures Total(CountL(ts), L_CODES) == |ts| + 1 && Total(CountD(ts), D_CODES) <= |ts|
  {
    hide Total;
    if ts == [] {
      TotalZero(NoTokensL(), L_CODES, END_BLOCK);
      TotalZero(NoTokensD(), D_CODES, D_CODES);
    } else {
      var n := |ts| - 1;
      TotalTokens(ts[..n]);
      TotalMore(CountL(ts[..n]), SymbolL(ts[n]), L_CODES);
      if ts[n].Match? {
        TotalMore(CountD(ts[..n]), DistSymbol(ts[n]), D_CODES);
      }
    }
  }

  lemma ManyOccurrences()
    ensures 0x10001 <= Fib(258)
  {
    Limits();
    assert Fib(19) == 4181 && Fib(20) == 6765 && Fib(21) == 10946 && Fib(22) == 17711 && Fib(23) == 28657;
    assert Fib(24) == 46368 && Fib(25) == 75025;
    FibRises(25, 258);
  }

  /** lens is an optimal code for the counts exactly if an optimal code keeps the limit. */
  ghost predicate BestOf(f: seq<nat>, lens: seq<nat>) {
    2 <= |UsedTo(f, |f|)| ==> (Optimal(f, lens) <==> OptimalWithin(f, MAX_BITS))
  }

  /** The two codes for the data of a block. */
  lemma BlockIsBest(ts: seq<Token>, ll: seq<nat>, dd: seq<nat>, bl: seq<nat>, blcodes: nat, opt: int)
    requires DynamicLength(ts, ll, dd, bl, blcodes, opt) && |ts| < 0x10000
    ensures |ll| <= L_CODES && BestOf(CountL(ts), Filled(ll, L_CODES))
    ensures |dd| <= D_CODES && BestOf(CountD(ts), Filled(dd, D_CODES))
  {
    hide Fib, Total, Optimal, OptimalWithin, UsedTo, CountL, CountD, TreesOk, Economical, DynamicBits, BlFreq, Filled;
    TotalTokens(ts);
    ManyOccurrences();
  }
}
