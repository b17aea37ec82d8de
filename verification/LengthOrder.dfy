/**
 Rarer symbols have longer codes (archival/gzip.c, gen_bitlen): the list of nodes is by decreasing
 frequency, and the last loop deals the longest codes from its end.
 */
module LengthOrder {
  import opened HuffmanGrow
  import opened HuffmanBuild
  import opened LengthPass
  import opened DealLengths

  /** A symbol that occurs less often than another has no shorter code. */
  ghost predicate Monotone(f: seq<nat>, lens: seq<nat>) {
    |f| <= |lens| && forall x, y :: 0 <= x < |f| && 0 <= y < |f| && 0 < f[x] < f[y] ==> lens[y] <= lens[x]
  }

  lemma {:induction false} SymbolsDescend(ord: seq<nat>, freq: seq<nat>, f: seq<nat>)
    requires Descends(ord, freq) && |f| <= |freq| && f == freq[..|f|]
    ensures Descends(Symbols(ord, |f|), f)
    ensures forall x :: x in Symbols(ord, |f|) ==> x in ord
  {
    if ord != [] {
      var n := |ord| - 1;
      var front := Symbols(ord[..n], |f|);
      SymbolsDescend(ord[..n], freq, f);
      if ord[n] < |f| {
        forall i | 0 <= i < |front|
          ensures f[ord[n]] <= f[front[i]]
        {
          assert front[i] in ord[..n];
          var k :| 0 <= k < n && ord[k] == front[i];
        }
      }
    }
  }

  lemma RisingIsMonotone(f: seq<nat>, lens: seq<nat>, us: seq<nat>)
    requires |f| <= |lens| && Descends(us, f) && LengthsRise(lens, us) && multiset(us) == multiset(UsedTo(f, |f|))
    ensures Monotone(f, lens)
  {
    hide UsedTo;
    forall x, y | 0 <= x < |f| && 0 <= y < |f| && 0 < f[x] < f[y]
      ensures lens[y] <= lens[x]
    {
      UsedAll(f, |f|, x);
      UsedAll(f, |f|, y);
      assert x in multiset(us) && y in multiset(us);
      var i :| 0 <= i < |us| && us[i] == x;
      var k :| 0 <= k < |us| && us[k] == y;
      assert k < i;
    }
  }
}
