/**
 Frequencies of the symbols of a block, and the exact number of bits the block takes
 (archival/gzip.c, ct_tally and the lengths kept in opt_len and static_len).
 */
module TokenCounts {
  import opened Words
  import opened Bits
  import opened Lz77
  import opened Canonical
  import opened Tables
  import opened TextCoding
  import opened RunLengths
  import opened TreeOutput
  import opened BuildTree

  /** Extra bits by symbol: only length symbols have any. */
  function LExtra(): (r: seq<nat>)
    ensures |r| == L_CODES
  {
    seq(L_CODES, i requires 0 <= i < L_CODES => if i <= LITERALS then 0 else EXTRA_LBITS[i - 257])
  }

  /** An empty block still has its end mark. */
  function NoTokensL(): (r: seq<nat>)
    ensures |r| == L_CODES
  {
    seq(L_CODES, i => if i == END_BLOCK then 1 else 0)
  }

  function NoTokensD(): (r: seq<nat>)
    ensures |r| == D_CODES
  {
    seq(D_CODES, _ => 0)
  }

  function SymbolL(t: Token): (s: nat)
    requires TokenOk(t)
    ensures s < L_CODES
  {
    match t
    case Literal(b) => b as nat
    case Match(_, _) => LengthSymbol(t)
  }

  function More(f: seq<nat>, s: nat): (r: seq<nat>)
    requires s < |f|
    ensures |r| == |f|
  {
    f[s := f[s] + 1]
  }

  /** How often each literal and length symbol occurs. */
  function CountL(ts: seq<Token>): (r: seq<nat>)
    requires TokensOk(ts)
    ensures |r| == L_CODES
  {
    if ts == [] then NoTokensL() else More(CountL(ts[..|ts| - 1]), SymbolL(ts[|ts| - 1]))
  }

  /** How often each distance symbol occurs. */
  function CountD(ts: seq<Token>): (r: seq<nat>)
    requires TokensOk(ts)
    ensures |r| == D_CODES
  {
    if ts == [] then NoTokensD()
    else if ts[|ts| - 1].Match? then More(CountD(ts[..|ts| - 1]), DistSymbol(ts[|ts| - 1]))
    else CountD(ts[..|ts| - 1])
  }

  lemma CountSnoc(ts: seq<Token>, t: Token)
    requires TokensOk(ts) && TokenOk(t)
    ensures TokensOk(ts + [t]) && CountL(ts + [t]) == More(CountL(ts), SymbolL(t))
    ensures CountD(ts + [t]) == if t.Match? then More(CountD(ts), DistSymbol(t)) else CountD(ts)
  {
    assert (ts + [t])[..|ts|] == ts;
  }

  /** Every symbol that occurs has a code. */
  predicate Covers(llens: seq<nat>, dlens: seq<nat>, ts: seq<Token>)
    requires TokensOk(ts)
  {
    && L_CODES <= |llens| && D_CODES <= |dlens|
    && (forall s :: 0 <= s < L_CODES && CountL(ts)[s] != 0 ==> HasCode(llens, s))
    && (forall s :: 0 <= s < D_CODES && CountD(ts)[s] != 0 ==> HasCode(dlens, s))
  }

  lemma CoversLess(llens: seq<nat>, dlens: seq<nat>, ts: seq<Token>)
    requires TokensOk(ts) && ts != [] && Covers(llens, dlens, ts)
    ensures Covers(llens, dlens, ts[..|ts| - 1]) && Codable(ts[|ts| - 1], llens, dlens)
  {
    hide LengthSymbol, DistSymbol, HasCode;
    var t, prev := ts[|ts| - 1], ts[..|ts| - 1];
    assert CountL(ts)[SymbolL(t)] != 0;
    if t.Match? {
      assert CountD(ts)[DistSymbol(t)] != 0;
    }
    forall s | 0 <= s < L_CODES && CountL(prev)[s] != 0
      ensures HasCode(llens, s)
    {
      assert CountL(ts)[s] != 0;
    }
    forall s | 0 <= s < D_CODES && CountD(prev)[s] != 0
      ensures HasCode(dlens, s)
    {
      assert CountD(ts)[s] != 0;
    }
  }

  /** The bits of a symbol with its extra bits. */
  lemma TokenLength(t: Token, llens: seq<nat>, dlens: seq<nat>)
    requires Codable(t, llens, dlens) && L_CODES <= |llens| && D_CODES <= |dlens|
    ensures |TokenBits(t, llens, dlens)| ==
            llens[SymbolL(t)] + LExtra()[SymbolL(t)] +
            (if t.Match? then dlens[DistSymbol(t)] + EXTRA_DBITS[DistSymbol(t)] else 0)
  {
    hide LengthCode, DistCode, CodeBits, Low, LExtra, LengthExtra, DistExtra;
    LExtraIs(SymbolL(t));
    if t.Match? {
      ExtraLength(t);
    }
  }

  lemma LExtraIs(s: nat)
    requires s < L_CODES
    ensures LExtra()[s] == if s <= LITERALS then 0 else EXTRA_LBITS[s - 257]
  {
  }

  lemma ExtraLength(t: Token)
    requires t.Match? && TokenOk(t)
    ensures |LengthExtra(t)| == EXTRA_LBITS[LengthSymbol(t) - 257] && |DistExtra(t)| == EXTRA_DBITS[DistSymbol(t)]
  {
    hide LengthCode, DistCode, Low;
  }

  lemma RunLength(r: Run, bl: seq<nat>)
    requires RunOk(r) && HasCode(bl, r.symbol)
    ensures |RunBits(r, bl)| == bl[r.symbol] + EXTRA_BLBITS[r.symbol]
  {
    hide CodeBits, Low;
  }

  lemma OneMore(f: seq<nat>, lens: seq<nat>, extra: seq<nat>, n: nat, s: nat)
    requires s < n <= |f| && n <= |lens| && n <= |extra|
    ensures BitsTo(More(f, s), lens, extra, n) == BitsTo(f, lens, extra, n) + lens[s] + extra[s]
  {
    BitsMore(f, lens, extra, n, s, f[s] + 1);
    Distribute(f[s], 1, lens[s] + extra[s]);
  }

  /** The frequencies tell the length of the block. */
  lemma {:induction false} TextLength(ts: seq<Token>, llens: seq<nat>, dlens: seq<nat>)
    requires TokensOk(ts) && Covers(llens, dlens, ts)
    ensures AllCodable(ts, llens, dlens)
    ensures |TextBits(ts, llens, dlens)| + llens[END_BLOCK] ==
            BitsTo(CountL(ts), llens, LExtra(), L_CODES) + BitsTo(CountD(ts), dlens, EXTRA_DBITS, D_CODES)
    decreases |ts|
  {
    hide LExtra, BitsTo, TokenBits, LengthSymbol, DistSymbol, Covers, More, NoTokensL, NoTokensD, HasCode;
    CoversSizes(llens, dlens, ts);
    if ts == [] {
      EmptyLength(llens, dlens);
    } else {
      var k := |ts| - 1;
      var t, prev := ts[k], ts[..k];
      CoversLess(llens, dlens, ts);
      TextLength(prev, llens, dlens);
      assert ts == prev + [t];
      TextSnoc(prev, t, llens, dlens);
      TokenLength(t, llens, dlens);
      OneMore(CountL(prev), llens, LExtra(), L_CODES, SymbolL(t));
      if t.Match? {
        OneMore(CountD(prev), dlens, EXTRA_DBITS, D_CODES, DistSymbol(t));
      }
    }
  }

  lemma CoversSizes(llens: seq<nat>, dlens: seq<nat>, ts: seq<Token>)
    requires TokensOk(ts) && Covers(llens, dlens, ts)
    ensures L_CODES <= |llens| && D_CODES <= |dlens|
  {
  }

  lemma EmptyLength(llens: seq<nat>, dlens: seq<nat>)
    requires L_CODES <= |llens| && D_CODES <= |dlens|
    ensures BitsTo(NoTokensL(), llens, LExtra(), L_CODES) == llens[END_BLOCK]
    ensures BitsTo(NoTokensD(), dlens, EXTRA_DBITS, D_CODES) == 0
  {
    hide BitsTo;
    var zero := seq(L_CODES, _ => 0);
    NoBits(zero, llens, LExtra(), L_CODES);
    NoBits(NoTokensD(), dlens, EXTRA_DBITS, D_CODES);
    OneMore(zero, llens, LExtra(), L_CODES, END_BLOCK);
    assert NoTokensL() == More(zero, END_BLOCK);
  }

  lemma {:induction false} NoBits(f: seq<nat>, lens: seq<nat>, extra: seq<nat>, n: nat)
    requires n <= |f| && n <= |lens| && n <= |extra| && forall i :: 0 <= i < |f| ==> f[i] == 0
    ensures BitsTo(f, lens, extra, n) == 0
  {
    if n > 0 {
      NoBits(f, lens, extra, n - 1);
    }
  }

  /** The same for the symbols that code the lengths. */
  lemma {:induction false} RunsLength(f: seq<nat>, rs: seq<Run>, bl: seq<nat>)
    requires |f| >= BL_CODES && |bl| >= BL_CODES && RunsOk(rs) && RunsCodable(rs, bl)
    ensures |RunsBits(rs, bl)| + BitsTo(f, bl, EXTRA_BLBITS, BL_CODES) ==
            BitsTo(Tallied(f, rs), bl, EXTRA_BLBITS, BL_CODES)
    decreases |rs|
  {
    hide BitsTo, RunBits, RunsBits, Pow2;
    if rs == [] {
      NoRuns(bl);
    } else {
      var k := |rs| - 1;
      RunLength(rs[k], bl);
      RunsLength(f, rs[..k], bl);
      assert rs == rs[..k] + [rs[k]];
      RunsSnoc(rs[..k], rs[k], bl);
      OneMore(Tallied(f, rs[..k]), bl, EXTRA_BLBITS, BL_CODES, rs[k].symbol);
    }
  }

  lemma NoRuns(bl: seq<nat>)
    ensures RunsBits([], bl) == []
  {
  }

  /** Symbols that were counted have a frequency. */
  lemma {:induction false} TalliedUsed(f: seq<nat>, rs: seq<Run>, s: nat)
    requires |f| >= BL_CODES && RunsOk(rs) && s < |f|
    ensures Tallied(f, rs)[s] >= f[s]
    ensures forall i :: 0 <= i < |rs| && rs[i].symbol == s ==> Tallied(f, rs)[s] != 0
    decreases |rs|
  {
    if rs != [] {
      TalliedUsed(f, rs[..|rs| - 1], s);
    }
  }

  /** Symbols without a code at the end of a list do not matter for the others. */
  lemma TrimmedCounts(lens: seq<nat>, k: nat)
    requires k <= |lens| && forall i :: k <= i < |lens| ==> lens[i] == 0
    ensures LenCounts(lens[..k]) == LenCounts(lens)
  {
    hide CountTo;
    forall b | 1 <= b <= MAX_BITS
      ensures LenCounts(lens[..k])[b] == LenCounts(lens)[b]
    {
      CountTrimmed(lens, k, k, b);
      CountTrimmed(lens, k, |lens|, b);
    }
  }

  lemma {:induction false} CountTrimmed(lens: seq<nat>, k: nat, n: nat, b: nat)
    requires k <= |lens| && n <= |lens| && 1 <= b && forall i :: k <= i < |lens| ==> lens[i] == 0
    ensures CountTo(lens, n, b) == CountTo(lens[..k], if n < k then n else k, b)
  {
    if n > 0 {
      CountTrimmed(lens, k, n - 1, b);
    }
  }

  lemma TrimmedCode(lens: seq<nat>, k: nat, n: nat)
    requires k <= |lens| && (forall i :: k <= i < |lens| ==> lens[i] == 0) && HasCode(lens, n)
    ensures HasCode(lens[..k], n) && Canon(lens[..k], n) == Canon(lens, n)
    ensures CodeBits(lens[..k], n) == CodeBits(lens, n)
  {
    hide LenCounts, CountTo, Msb;
    TrimmedCounts(lens, k);
    CountTrimmed(lens, k, n, lens[n]);
  }

  lemma TrimmedIsCode(lens: seq<nat>, k: nat)
    requires k <= |lens| && (forall i :: k <= i < |lens| ==> lens[i] == 0) && IsCode(lens)
    ensures IsCode(lens[..k])
  {
    hide LenCounts;
    TrimmedCounts(lens, k);
  }

  lemma TrimmedToken(t: Token, ll: seq<nat>, lk: nat, dd: seq<nat>, dk: nat)
    requires lk <= |ll| && (forall i :: lk <= i < |ll| ==> ll[i] == 0)
    requires dk <= |dd| && (forall i :: dk <= i < |dd| ==> dd[i] == 0)
    requires Codable(t, ll, dd)
    ensures Codable(t, ll[..lk], dd[..dk]) && TokenBits(t, ll[..lk], dd[..dk]) == TokenBits(t, ll, dd)
  {
    hide HasCode, CodeBits, LengthSymbol, DistSymbol, LengthExtra, DistExtra;
    match t
    case Literal(b) => TrimmedCode(ll, lk, b as nat);
    case Match(_, _) =>
      TrimmedCode(ll, lk, LengthSymbol(t));
      TrimmedCode(dd, dk, DistSymbol(t));
  }

  lemma {:induction false} TrimmedText(ts: seq<Token>, ll: seq<nat>, lk: nat, dd: seq<nat>, dk: nat)
    requires lk <= |ll| && (forall i :: lk <= i < |ll| ==> ll[i] == 0)
    requires dk <= |dd| && (forall i :: dk <= i < |dd| ==> dd[i] == 0)
    requires AllCodable(ts, ll, dd)
    ensures AllCodable(ts, ll[..lk], dd[..dk]) && TextBits(ts, ll[..lk], dd[..dk]) == TextBits(ts, ll, dd)
    decreases |ts|
  {
    hide Codable, TokenBits;
    if ts != [] {
      TrimmedToken(ts[0], ll, lk, dd, dk);
      TrimmedText(ts[1..], ll, lk, dd, dk);
      assert forall i :: 1 <= i < |ts| ==> ts[i] == ts[1..][i - 1];
    }
  }
}
