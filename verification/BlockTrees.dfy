/**
 The three dynamic trees of a block (archival/gzip.c, build_tree and build_bl_tree as flush_block
 uses them): the codes, and the exact number of bits that the block takes with them.
 */
module BlockTrees {
  import opened Words
  import opened Bits
  import opened Lz77
  import opened CodeCounts
  import opened Canonical
  import opened Tables
  import opened HuffmanGrow
  import opened HuffmanBuild
  import opened GenCodes
  import opened LengthOrder
  import opened BuildTree
  import opened Inflate
  import opened TextCoding
  import opened RunLengths
  import opened TreeOutput
  import opened TreeHeader
  import opened TokenCounts

  const MAX_BL_BITS := 7

  lemma {:induction false} CodesTrimmed(code: seq<nat>, lens: seq<nat>, k: nat)
    requires k <= |lens| && (forall i :: k <= i < |lens| ==> lens[i] == 0) && CodesSet(code, lens, |lens|)
    ensures CodesSet(code, lens[..k], k)
  {
    hide Canon, Rev;
    forall n | 0 <= n < k && HasCode(lens[..k], n)
      ensures code[n] == Rev(Canon(lens[..k], n), lens[..k][n])
    {
      TrimmedCode(lens, k, n);
    }
  }

  /** A tree with the entries above the last code cut off. */
  lemma ReadyTrimmed(lens: seq<nat>, code: seq<nat>, f: seq<nat>, m: nat, maxCode: int)
    requires TreeReady(lens, code, f, m, maxCode)
    ensures 0 <= maxCode < |lens| && IsCode(lens[..maxCode + 1]) && CodesSet(code, lens[..maxCode + 1], maxCode + 1)
    ensures forall i :: maxCode < i < |lens| ==> lens[i] == 0
    ensures forall i :: 0 <= i < |lens| ==> lens[i] <= m && (f[i] != 0 ==> 1 <= lens[i])
  {
    hide IsCode, CodesSet, LenCounts, KraftCounts, Pow2;
    TrimmedIsCode(lens, maxCode + 1);
    CodesTrimmed(code, lens, maxCode + 1);
  }

  /** The trees of the block: every token has a code, and the lengths can be sent. */
  ghost predicate TreesOk(ts: seq<Token>, ll: seq<nat>, dd: seq<nat>, bl: seq<nat>, blcodes: nat) {
    && IsCode(ll) && IsCode(dd) && AllCodable(ts, ll, dd) && HasCode(ll, END_BLOCK) && HeaderOk(ll, dd, bl, blcodes)
  }

  /** The bits of a block with dynamic trees, without the three that start it. */
  ghost function DynamicBits(ts: seq<Token>, ll: seq<nat>, dd: seq<nat>, bl: seq<nat>, blcodes: nat): seq<bool>
    requires TreesOk(ts, ll, dd, bl, blcodes)
  {
    HeaderBits(ll, dd, bl, blcodes) + CodedBits(ts, ll, dd)
  }

  function Zero(n: nat): (r: seq<nat>)
    ensures |r| == n
  {
    seq(n, _ => 0)
  }

  /** The tokens have codes, and the frequencies give the length of the data. */
  lemma DataBits(ts: seq<Token>, lf: seq<nat>, lk: nat, df: seq<nat>, dk: nat)
    requires TokensOk(ts) && |lf| == L_CODES && |df| == D_CODES && lk <= |lf| && dk <= |df|
    requires forall i :: 0 <= i < |lf| ==> lf[i] <= MAX_BITS && (CountL(ts)[i] != 0 ==> 1 <= lf[i])
    requires forall i :: 0 <= i < |df| ==> df[i] <= MAX_BITS && (CountD(ts)[i] != 0 ==> 1 <= df[i])
    requires (forall i :: lk <= i < |lf| ==> lf[i] == 0) && (forall i :: dk <= i < |df| ==> df[i] == 0)
    ensures AllCodable(ts, lf[..lk], df[..dk]) && HasCode(lf[..lk], END_BLOCK)
    ensures |CodedBits(ts, lf[..lk], df[..dk])| ==
            BitsTo(CountL(ts), lf, LExtra(), L_CODES) + BitsTo(CountD(ts), df, EXTRA_DBITS, D_CODES)
  {
    hide BitsTo, AllCodable, TextBits, CountL, CountD, LExtra, CodeBits;
    EndCounted(ts);
    TextLength(ts, lf, df);
    TrimmedText(ts, lf, lk, df, dk);
  }

  lemma {:induction false} EndCounted(ts: seq<Token>)
    requires TokensOk(ts)
    ensures CountL(ts)[END_BLOCK] >= 1
  {
    if ts != [] {
      EndCounted(ts[..|ts| - 1]);
    }
  }

  ghost predicate Small(lens: seq<nat>) {
    forall i :: 0 <= i < |lens| ==> lens[i] <= MAX_BITS
  }

  /** How often each code length symbol occurs in the header. */
  ghost function BlFreq(ll: seq<nat>, dd: seq<nat>): (f: seq<nat>)
    requires Small(ll) && Small(dd)
    ensures |f| == BL_CODES
  {
    RunsUnroll([], ll);
    RunsUnroll([], dd);
    Tallied(Tallied(Zero(BL_CODES), Runs(ll)), Runs(dd))
  }

  /** Lengths that give a code to every symbol with a frequency. */
  ghost predicate Gives(lens: seq<nat>, f: seq<nat>, m: nat) {
    |lens| == |f| && forall i :: 0 <= i < |f| ==> lens[i] <= m && (f[i] != 0 ==> 1 <= lens[i])
  }

  /** The same for the symbols of the header. */
  lemma RunsOfTrees(ll: seq<nat>, dd: seq<nat>, bl: seq<nat>)
    requires Small(ll) && Small(dd) && Gives(bl, BlFreq(ll, dd), MAX_BL_BITS)
    ensures RunsCodable(Runs(ll), bl) && RunsCodable(Runs(dd), bl)
    ensures |RunsBits(Runs(ll), bl)| + |RunsBits(Runs(dd), bl)| == BitsTo(BlFreq(ll, dd), bl, EXTRA_BLBITS, BL_CODES)
  {
    hide BitsTo, Runs, RunsBits, Tallied, Pow2, Unroll, Unrolls;
    var a, b := Runs(ll), Runs(dd);
    RunsUnroll([], ll);
    RunsUnroll([], dd);
    var f1 := Tallied(Zero(BL_CODES), a);
    forall i | 0 <= i < |a|
      ensures HasCode(bl, a[i].symbol)
    {
      TalliedUsed(Zero(BL_CODES), a, a[i].symbol);
      TalliedUsed(f1, b, a[i].symbol);
    }
    forall i | 0 <= i < |b|
      ensures HasCode(bl, b[i].symbol)
    {
      TalliedUsed(f1, b, b[i].symbol);
    }
    RunsLength(Zero(BL_CODES), a, bl);
    RunsLength(f1, b, bl);
    NoBits(Zero(BL_CODES), bl, EXTRA_BLBITS, BL_CODES);
  }

  /** No entry of BL_ORDER after the k-th has a code. */
  ghost predicate NoneAfter(bl: seq<nat>, k: nat) {
    |bl| >= BL_CODES && forall r :: k < r < BL_CODES ==> bl[BL_ORDER[r]] == 0
  }

  lemma BlFitsTo(bl: seq<nat>, f: seq<nat>, k: nat)
    requires |bl| == BL_CODES && k < BL_CODES && Gives(bl, f, MAX_BL_BITS) && NoneAfter(bl, k)
    ensures BlFits(bl, k + 1)
  {
    forall i | 0 <= i < BL_CODES
      ensures BL_INDEX[i] < k + 1 || bl[i] == 0
    {
      OrderInverse(i);
    }
  }

  /** opt_len is exactly the length of the dynamic block. */
  lemma OptIsExact(ts: seq<Token>, lf: seq<nat>, lk: nat, df: seq<nat>, dk: nat, bl: seq<nat>, blcodes: nat)
    requires TokensOk(ts) && |lf| == L_CODES && |df| == D_CODES && 257 <= lk <= |lf| && 1 <= dk <= |df| && 4 <= blcodes
    requires AllCodable(ts, lf[..lk], df[..dk]) && HasCode(lf[..lk], END_BLOCK)
    requires IsCode(lf[..lk]) && IsCode(df[..dk]) && IsCode(bl) && BlFits(bl, blcodes)
    requires (forall i :: 0 <= i < lk ==> lf[i] <= MAX_BITS) && (forall i :: 0 <= i < dk ==> df[i] <= MAX_BITS)
    requires RunsCodable(Runs(lf[..lk]), bl) && RunsCodable(Runs(df[..dk]), bl)
    ensures TreesOk(ts, lf[..lk], df[..dk], bl, blcodes)
    ensures |DynamicBits(ts, lf[..lk], df[..dk], bl, blcodes)| ==
            |CodedBits(ts, lf[..lk], df[..dk])| + |RunsBits(Runs(lf[..lk]), bl)| + |RunsBits(Runs(df[..dk]), bl)| +
            3 * blcodes + 14
  {
    hide AllCodable, IsCode, RunsCodable, Runs, RunsBits, CodedBits, BlFits, BlBits, Low;
    BlRange(bl, blcodes);
  }

  /** A length that occurs was sent as a symbol of its own. */
  lemma {:induction false} LengthSent(acc: seq<nat>, rs: seq<Run>, v: nat)
    requires 0 < v < 16 && v in Unroll(acc, rs) && v !in acc && Unrolls(acc, rs)
    ensures exists i :: 0 <= i < |rs| && rs[i].symbol == v
    decreases |rs|
  {
    if rs != [] {
      var k := |rs| - 1;
      if v in Unroll(acc, rs[..k]) {
        LengthSent(acc, rs[..k], v);
        var i :| 0 <= i < k && rs[..k][i].symbol == v;
        assert rs[i].symbol == v;
      } else {
        assert rs[k].symbol == v;
      }
    }
  }

  /** Some length of the first tree is not zero, so one of the plain length symbols has a code. */
  lemma PlainSymbol(ll: seq<nat>, dd: seq<nat>, bl: seq<nat>, i: nat)
    requires Small(ll) && Small(dd) && Gives(bl, BlFreq(ll, dd), MAX_BL_BITS) && i < |ll| && ll[i] != 0
    ensures exists r :: 3 <= r < BL_CODES && bl[BL_ORDER[r]] != 0
  {
    hide Runs, Tallied, Pow2, Unroll, Unrolls;
    var a, v := Runs(ll), ll[i];
    RunsUnroll([], ll);
    RunsUnroll([], dd);
    assert [] + ll == ll;
    LengthSent([], a, v);
    var k :| 0 <= k < |a| && a[k].symbol == v;
    var f1 := Tallied(Zero(BL_CODES), a);
    TalliedUsed(Zero(BL_CODES), a, v);
    TalliedUsed(f1, Runs(dd), v);
    OrderInverse(v);
    PlainPlace(v);
    assert bl[BL_ORDER[BL_INDEX[v]]] != 0;
  }

  lemma PlainPlace(v: nat)
    requires v < 16
    ensures 3 <= BL_INDEX[v] < BL_CODES
  {
  }

  lemma ReadyUsed(lens: seq<nat>, code: seq<nat>, f: seq<nat>, m: nat, maxCode: int)
    requires TreeReady(lens, code, f, m, maxCode)
    ensures Gives(lens, f, m) && IsCode(lens) && IsFull(lens) && CodesSet(code, lens, |lens|)
    ensures Best(f, lens, m) && Monotone(f, lens)
  {
    hide IsCode, CodesSet, LenCounts, KraftCounts, Pow2;
  }

  /** Lengths whose first k entries are a code for the frequencies, the last of them in use; optimal for short messages. */
  ghost predicate Complete(lens: seq<nat>, k: nat, f: seq<nat>) {
    && Gives(lens, f, MAX_BITS) && 1 <= k <= |lens| && lens[k - 1] != 0 && IsCode(lens[..k])
    && Monotone(f, lens) && Best(f, lens, MAX_BITS) && Spare(f, lens)
    && forall i :: k <= i < |lens| ==> lens[i] == 0
  }

  /** The lengths that are sent end with one that is used, and give no codes away. */
  ghost predicate Economical(lens: seq<nat>, f: seq<nat>) {
    && 1 <= |lens| <= |f| && lens[|lens| - 1] != 0
    && forall x :: 0 <= x < |lens| && f[x] == 0 && lens[x] != 0 ==> lens[x] == 1 && |UsedTo(f, |f|)| < 2
  }

  lemma CompleteEconomical(lens: seq<nat>, k: nat, f: seq<nat>)
    requires Complete(lens, k, f)
    ensures k <= |lens| && Economical(lens[..k], f)
  {
    hide IsCode, Monotone, Best, UsedTo;
  }

  lemma ReadyComplete(lens: seq<nat>, code: seq<nat>, f: seq<nat>, maxCode: int)
    requires TreeReady(lens, code, f, MAX_BITS, maxCode)
    ensures Complete(lens, maxCode + 1, f) && CodesSet(code, lens[..maxCode + 1], maxCode + 1)
  {
    hide IsCode, CodesSet, LenCounts, KraftCounts, Pow2, Monotone, Best, Spare;
    ReadyTrimmed(lens, code, f, MAX_BITS, maxCode);
  }

  lemma CompleteSmall(lens: seq<nat>, k: nat, f: seq<nat>)
    requires Complete(lens, k, f)
    ensures |lens| == |f| && 1 <= k <= |lens| && lens[k - 1] != 0 && Small(lens) && Small(lens[..k])
  {
    hide IsCode, Monotone, Best, Spare;
  }

  /** All the parts of the dynamic block together. */
  lemma BlockBits(ts: seq<Token>, lf: seq<nat>, lk: nat, df: seq<nat>, dk: nat, bl: seq<nat>, last: nat)
    requires TokensOk(ts) && lk <= |lf| && dk <= |df| && Small(lf[..lk]) && Small(df[..dk])
    requires Complete(lf, lk, CountL(ts)) && Complete(df, dk, CountD(ts))
    requires Gives(bl, BlFreq(lf[..lk], df[..dk]), MAX_BL_BITS) && IsCode(bl) && 3 <= last < BL_CODES && NoneAfter(bl, last)
    ensures TreesOk(ts, lf[..lk], df[..dk], bl, last + 1)
    ensures |DynamicBits(ts, lf[..lk], df[..dk], bl, last + 1)| ==
            BitsTo(CountL(ts), lf, LExtra(), L_CODES) + BitsTo(CountD(ts), df, EXTRA_DBITS, D_CODES) +
            BitsTo(BlFreq(lf[..lk], df[..dk]), bl, EXTRA_BLBITS, BL_CODES) + 3 * (last + 1) + 14
  {
    hide BitsTo, CountL, CountD, BlFreq, Runs, TreesOk, IsCode, AllCodable, CodedBits,
         RunsBits, RunsCodable, BlFits, DynamicBits, NoneAfter, LExtra, Monotone, Best, Spare;
    DataBits(ts, lf, lk, df, dk);
    RunsOfTrees(lf[..lk], df[..dk], bl);
    BlFitsTo(bl, BlFreq(lf[..lk], df[..dk]), last);
    OptIsExact(ts, lf, lk, df, dk, bl, last + 1);
  }

  lemma IsDynamicLength(ts: seq<Token>, lf: seq<nat>, lk: nat, df: seq<nat>, dk: nat, bl: seq<nat>, last: nat, opt: int)
    requires TokensOk(ts) && lk <= |lf| && dk <= |df| && Small(lf[..lk]) && Small(df[..dk])
    requires Complete(lf, lk, CountL(ts)) && Complete(df, dk, CountD(ts))
    requires Gives(bl, BlFreq(lf[..lk], df[..dk]), MAX_BL_BITS) && IsCode(bl) && 3 <= last < BL_CODES && NoneAfter(bl, last)
    requires Best(BlFreq(lf[..lk], df[..dk]), bl, MAX_BL_BITS)
    requires opt == BitsTo(CountL(ts), lf, LExtra(), L_CODES) + BitsTo(CountD(ts), df, EXTRA_DBITS, D_CODES) +
                    BitsTo(BlFreq(lf[..lk], df[..dk]), bl, EXTRA_BLBITS, BL_CODES) + 3 * (last + 1) + 14
    ensures DynamicLength(ts, lf[..lk], df[..dk], bl, last + 1, opt)
  {
    hide CountL, CountD, TreesOk, DynamicBits, Complete, Economical, BitsTo, BlFreq, LExtra, Small, NoneAfter, Gives, IsCode,
         Best, Filled;
    BlockBits(ts, lf, lk, df, dk, bl, last);
    CompleteBest(lf, lk, CountL(ts));
    CompleteBest(df, dk, CountD(ts));
    CompleteEconomical(lf, lk, CountL(ts));
    CompleteEconomical(df, dk, CountD(ts));
  }

  /** The trees that a block is sent with, and its length with them. */
  ghost predicate DynamicLength(ts: seq<Token>, ll: seq<nat>, dd: seq<nat>, bl: seq<nat>, blcodes: nat, opt: int) {
    && TokensOk(ts) && TreesOk(ts, ll, dd, bl, blcodes) && opt == |DynamicBits(ts, ll, dd, bl, blcodes)|
    && Economical(ll, CountL(ts)) && Economical(dd, CountD(ts)) && BestTrees(ts, ll, dd, bl)
  }

  /** The lengths of n symbols; those behind the ones that are sent are zero. */
  function Filled(ls: seq<nat>, n: nat): (r: seq<nat>)
    requires |ls| <= n
    ensures |r| == n
  {
    ls + seq(n - |ls|, _ => 0)
  }

  /** The three codes of a block are as good as their limits allow. */
  ghost predicate BestTrees(ts: seq<Token>, ll: seq<nat>, dd: seq<nat>, bl: seq<nat>)
    requires TokensOk(ts)
  {
    && |ll| <= L_CODES && |dd| <= D_CODES && Small(ll) && Small(dd)
    && Best(CountL(ts), Filled(ll, L_CODES), MAX_BITS) && Best(CountD(ts), Filled(dd, D_CODES), MAX_BITS)
    && Best(BlFreq(ll, dd), bl, MAX_BL_BITS)
  }

  lemma CompleteBest(lens: seq<nat>, k: nat, f: seq<nat>)
    requires Complete(lens, k, f)
    ensures |lens| == |f| && k <= |lens| && Best(f, Filled(lens[..k], |lens|), MAX_BITS)
  {
    hide IsCode, Monotone, Best, Spare;
    assert Filled(lens[..k], |lens|) == lens;
  }

  lemma LengthParts(ts: seq<Token>, ll: seq<nat>, dd: seq<nat>, bl: seq<nat>, blcodes: nat, opt: int)
    requires DynamicLength(ts, ll, dd, bl, blcodes, opt)
    ensures TreesOk(ts, ll, dd, bl, blcodes)
  {
    hide TreesOk, Economical, BestTrees;
  }

  /** What belongs to one tree. */
  ghost function Foot(b: Builder, code: array<nat>): set<object> {
    {b, b.freq, b.dl, b.depth, b.heap, code}
  }

  ghost predicate TreeShape(b: Builder, code: array<nat>, elems: nat) {
    && b.Shape() && b.elems == elems && elems <= code.Length
    && code != b.freq && code != b.dl && code != b.depth && code != b.heap
  }

  method NewTree(elems: nat) returns (b: Builder, code: array<nat>)
    requires elems <= L_CODES
    ensures TreeShape(b, code, elems) && fresh(Foot(b, code))
  {
    b := new Builder(elems, 2 * L_CODES + 1);
    code := new nat[2 * elems + 1];
  }

  class Trees {
    const lt: Builder   // literals and lengths
    const dt: Builder   // distances
    const blt: Builder  // code lengths
    const lCode: array<nat>
    const dCode: array<nat>
    const blCode: array<nat>
    const blCount: array<nat>
    ghost const parts: set<object>

    ghost predicate Apart() {
      && parts == Foot(lt, lCode) + Foot(dt, dCode) + Foot(blt, blCode) + {blCount}
      && TreeShape(lt, lCode, L_CODES) && TreeShape(dt, dCode, D_CODES) && TreeShape(blt, blCode, BL_CODES)
      && blCount.Length == MAX_BITS + 1
      && Foot(lt, lCode) !! Foot(dt, dCode) !! Foot(blt, blCode) !! {blCount}
    }

    /** The frequencies are those of the tokens. */
    ghost predicate Counted(ts: seq<Token>)
      reads lt.freq, dt.freq, blt.freq
    {
      && Apart() && TokensOk(ts)
      && lt.freq[..L_CODES] == CountL(ts) && dt.freq[..D_CODES] == CountD(ts) && blt.freq[..BL_CODES] == Zero(BL_CODES)
    }

    constructor ()
      ensures Counted([]) && fresh(parts)
    {
      hide TreeShape;
      var l, lc := NewTree(L_CODES);
      var d, dc := NewTree(D_CODES);
      var b, bc := NewTree(BL_CODES);
      lt, lCode, dt, dCode, blt, blCode := l, lc, d, dc, b, bc;
      blCount := new nat[MAX_BITS + 1];
      parts := Foot(l, lc) + Foot(d, dc) + Foot(b, bc) + {blCount};
      new;
      InitBlock();
    }

    method Clear(a: array<nat>, n: nat)
      requires n <= a.Length
      modifies a
      ensures a[..n] == Zero(n)
    {
      for i := 0 to n
        invariant forall k :: 0 <= k < i ==> a[k] == 0
      {
        a[i] := 0;
      }
    }

    /** The part of init_block that concerns the trees. */
    method InitBlock()
      requires Apart()
      modifies lt.freq, dt.freq, blt.freq
      ensures Counted([])
    {
      Clear(lt.freq, L_CODES);
      Clear(dt.freq, D_CODES);
      Clear(blt.freq, BL_CODES);
      ghost var f := lt.freq[..L_CODES];
      lt.freq[END_BLOCK] := 1;
      assert lt.freq[..L_CODES] == f[END_BLOCK := 1] == NoTokensL();
    }

    /** The literal and distance trees. */
    method BuildData(sl: seq<nat>, sd: seq<nat>, ghost ts: seq<Token>) returns (opt: int, stat: int)
      requires Counted(ts) && L_CODES <= |sl| && D_CODES <= |sd|
      modifies Foot(lt, lCode), Foot(dt, dCode), blCount
      ensures TreeReady(lt.dl[..L_CODES], lCode[..], CountL(ts), MAX_BITS, lt.maxCode)
      ensures TreeReady(dt.dl[..D_CODES], dCode[..], CountD(ts), MAX_BITS, dt.maxCode)
      ensures opt == BitsTo(CountL(ts), lt.dl[..L_CODES], LExtra(), L_CODES) +
                     BitsTo(CountD(ts), dt.dl[..D_CODES], EXTRA_DBITS, D_CODES)
      ensures stat == BitsTo(CountL(ts), sl, LExtra(), L_CODES) + BitsTo(CountD(ts), sd, EXTRA_DBITS, D_CODES)
    {
      hide TreeReady, BitsTo, CountL, CountD, Pow2;
      Pow2Of15();
      var opt1, stat1 := BuildTree.BuildTree(lt, lCode, blCount, MAX_BITS, LExtra(), sl);
      var opt2, stat2 := BuildTree.BuildTree(dt, dCode, blCount, MAX_BITS, EXTRA_DBITS, sd);
      opt, stat := opt1 + opt2, stat1 + stat2;
    }

    /** The loops of build_bl_tree over the two trees. */
    method ScanTrees(ghost ll: seq<nat>, ghost dd: seq<nat>)
      requires Apart() && 0 <= lt.maxCode < L_CODES && 0 <= dt.maxCode < D_CODES && Small(ll) && Small(dd)
      requires lt.dl[..lt.maxCode + 1] == ll && dt.dl[..dt.maxCode + 1] == dd
      requires blt.freq[..BL_CODES] == Zero(BL_CODES)
      modifies lt.dl, dt.dl, blt.freq
      ensures lt.dl[..lt.maxCode + 1] == ll && lt.dl[lt.maxCode + 1] == GUARD
      ensures dt.dl[..dt.maxCode + 1] == dd && dt.dl[dt.maxCode + 1] == GUARD
      ensures blt.freq[..BL_CODES] == BlFreq(ll, dd)
    {
      hide Tallied, Runs, RunsOk;
      ghost var f := blt.freq[..];
      ScanTree(lt.dl, lt.maxCode, blt.freq);
      assert lt.dl[..lt.maxCode + 1] == ll;
      ScanTree(dt.dl, dt.maxCode, blt.freq);
      assert dt.dl[..dt.maxCode + 1] == dd;
      TalliedFront(f, Runs(ll), BL_CODES);
      TalliedFront(Tallied(f, Runs(ll)), Runs(dd), BL_CODES);
    }

    /** The index in BL_ORDER of the last code length code to send. */
    method LastBlIndex() returns (maxBlindex: nat)
      requires BL_CODES <= blt.dl.Length
      requires exists r :: 3 <= r < BL_CODES && blt.dl[..][BL_ORDER[r]] != 0
      ensures 3 <= maxBlindex < BL_CODES && NoneAfter(blt.dl[..], maxBlindex) && blt.dl[BL_ORDER[maxBlindex]] != 0
    {
      maxBlindex := BL_CODES - 1;
      while maxBlindex >= 3
        invariant 2 <= maxBlindex < BL_CODES && NoneAfter(blt.dl[..], maxBlindex)
      {
        if blt.dl[BL_ORDER[maxBlindex]] != 0 {
          break;
        }
        maxBlindex := maxBlindex - 1;
      }
    }

    /** The tree of the code lengths, and the bits of the header. */
    method BuildBl(ghost ll: seq<nat>, ghost dd: seq<nat>) returns (opt: int, maxBlindex: nat, ghost bl: seq<nat>)
      requires Apart() && Small(ll) && Small(dd) && blt.freq[..BL_CODES] == BlFreq(ll, dd)
      requires ll != [] && ll[|ll| - 1] != 0
      modifies Foot(blt, blCode), blCount
      ensures Gives(bl, BlFreq(ll, dd), MAX_BL_BITS) && TreeIn(blt.dl[..], blCode[..], bl) && IsCode(bl)
      ensures IsFull(bl) && Best(BlFreq(ll, dd), bl, MAX_BL_BITS) && Monotone(BlFreq(ll, dd), bl)
      ensures 3 <= maxBlindex < BL_CODES && NoneAfter(bl, maxBlindex)
      ensures opt == BitsTo(BlFreq(ll, dd), bl, EXTRA_BLBITS, BL_CODES) + 3 * (maxBlindex + 1) + 14
    {
      hide TreeReady, BitsTo, BlFreq, Pow2, IsCode, IsFull, CodesSet, Gives, NoneAfter, Best, Monotone;
      SmallPowers();
      var bits, stat := BuildTree.BuildTree(blt, blCode, blCount, MAX_BL_BITS, EXTRA_BLBITS, []);
      bl := blt.dl[..BL_CODES];
      ReadyUsed(bl, blCode[..], BlFreq(ll, dd), MAX_BL_BITS, blt.maxCode);
      PlainSymbol(ll, dd, bl, |ll| - 1);
      FrontSame(blt.dl[..], bl);
      maxBlindex := LastBlIndex();
      NoneAfterFront(blt.dl[..], maxBlindex);
      opt := bits + 3 * (maxBlindex + 1) + 5 + 5 + 4;
    }

    /** The trees hold codes for the tokens and are ready to be sent. */
    ghost predicate Built(ts: seq<Token>, ll: seq<nat>, dd: seq<nat>, bl: seq<nat>, blcodes: nat)
      reads lt, lt.dl, lCode, dt, dt.dl, dCode, blt.dl, blCode
    {
      && Apart() && TreesOk(ts, ll, dd, bl, blcodes)
      && lt.maxCode + 1 == |ll| < lt.dl.Length && lt.dl[|ll|] == GUARD && TreeIn(lt.dl[..], lCode[..], ll)
      && dt.maxCode + 1 == |dd| < dt.dl.Length && dt.dl[|dd|] == GUARD && TreeIn(dt.dl[..], dCode[..], dd)
      && TreeIn(blt.dl[..], blCode[..], bl)
    }

    /** The two trees for the data, scanned. */
    method BuildAndScan(sl: seq<nat>, sd: seq<nat>, ghost ts: seq<Token>)
      returns (opt: int, stat: int, ghost lf: seq<nat>, ghost df: seq<nat>)
      requires Counted(ts) && L_CODES <= |sl| && D_CODES <= |sd|
      modifies Foot(lt, lCode), Foot(dt, dCode), blt.freq, blCount
      ensures 0 <= lt.maxCode < L_CODES == |lf| && 0 <= dt.maxCode < D_CODES == |df|
      ensures Complete(lf, lt.maxCode + 1, CountL(ts)) && Complete(df, dt.maxCode + 1, CountD(ts))
      ensures Small(lf[..lt.maxCode + 1]) && Small(df[..dt.maxCode + 1]) && lf[lt.maxCode] != 0
      ensures TreeIn(lt.dl[..], lCode[..], lf[..lt.maxCode + 1]) && lt.dl[lt.maxCode + 1] == GUARD
      ensures TreeIn(dt.dl[..], dCode[..], df[..dt.maxCode + 1]) && dt.dl[dt.maxCode + 1] == GUARD
      ensures blt.freq[..BL_CODES] == BlFreq(lf[..lt.maxCode + 1], df[..dt.maxCode + 1])
      ensures opt == BitsTo(CountL(ts), lf, LExtra(), L_CODES) + BitsTo(CountD(ts), df, EXTRA_DBITS, D_CODES)
      ensures stat == BitsTo(CountL(ts), sl, LExtra(), L_CODES) + BitsTo(CountD(ts), sd, EXTRA_DBITS, D_CODES)
    {
      hide TreeReady, BitsTo, CountL, CountD, BlFreq, IsCode, CodesSet, LExtra, Gives, Small;
      opt, stat := BuildData(sl, sd, ts);
      lf, df := lt.dl[..L_CODES], dt.dl[..D_CODES];
      ReadyComplete(lf, lCode[..], CountL(ts), lt.maxCode);
      ReadyComplete(df, dCode[..], CountD(ts), dt.maxCode);
      CompleteSmall(lf, lt.maxCode + 1, CountL(ts));
      CompleteSmall(df, dt.maxCode + 1, CountD(ts));
      assert lt.dl[..lt.maxCode + 1] == lf[..lt.maxCode + 1] && dt.dl[..dt.maxCode + 1] == df[..dt.maxCode + 1];
      ScanTrees(lf[..lt.maxCode + 1], df[..dt.maxCode + 1]);
    }

    /** All trees of a block; opt and stat are the exact lengths of its dynamic and static forms. */
    method Build(sl: seq<nat>, sd: seq<nat>, ghost ts: seq<Token>)
      returns (opt: int, stat: int, maxBlindex: nat, ghost ll: seq<nat>, ghost dd: seq<nat>, ghost bl: seq<nat>)
      requires Counted(ts) && L_CODES <= |sl| && D_CODES <= |sd|
      modifies Foot(lt, lCode), Foot(dt, dCode), Foot(blt, blCode), blCount
      ensures Built(ts, ll, dd, bl, maxBlindex + 1) && DynamicLength(ts, ll, dd, bl, maxBlindex + 1, opt)
      ensures stat == BitsTo(CountL(ts), sl, LExtra(), L_CODES) + BitsTo(CountD(ts), sd, EXTRA_DBITS, D_CODES)
    {
      hide BitsTo, CountL, CountD, BlFreq, TreesOk, IsCode, TreeIn, Complete, Gives, NoneAfter, LExtra, Small, DynamicBits, DynamicLength,
           Best, Monotone, IsFull;
      ghost var lf, df;
      opt, stat, lf, df := BuildAndScan(sl, sd, ts);
      ll, dd := lf[..lt.maxCode + 1], df[..dt.maxCode + 1];
      var bits;
      bits, maxBlindex, bl := BuildBl(ll, dd);
      opt := opt + bits;
      IsDynamicLength(ts, lf, lt.maxCode + 1, df, dt.maxCode + 1, bl, maxBlindex, opt);
      LengthParts(ts, ll, dd, bl, maxBlindex + 1, opt);
    }
  }

  lemma FrontSame(dl: seq<nat>, bl: seq<nat>)
    requires BL_CODES <= |dl| && dl[..BL_CODES] == bl
    ensures (exists r :: 3 <= r < BL_CODES && bl[BL_ORDER[r]] != 0) ==>
            (exists r :: 3 <= r < BL_CODES && dl[BL_ORDER[r]] != 0)
  {
    if r :| 3 <= r < BL_CODES && bl[BL_ORDER[r]] != 0 {
      OrderInverse(r);
      assert dl[BL_ORDER[r]] != 0;
    }
  }

  lemma NoneAfterFront(dl: seq<nat>, k: nat)
    requires NoneAfter(dl, k)
    ensures NoneAfter(dl[..BL_CODES], k)
  {
    forall r | k < r < BL_CODES
      ensures dl[..BL_CODES][BL_ORDER[r]] == 0
    {
      OrderInverse(r);
      assert dl[BL_ORDER[r]] == 0;
    }
  }

  /** Entries beyond the symbols play no part in the counts. */
  lemma {:induction false} TalliedFront(f: seq<nat>, rs: seq<Run>, k: nat)
    requires BL_CODES <= k <= |f| && RunsOk(rs)
    ensures Tallied(f, rs)[..k] == Tallied(f[..k], rs)
    decreases |rs|
  {
    hide Pow2;
    if rs != [] {
      TalliedFront(f, rs[..|rs| - 1], k);
    }
  }
}
