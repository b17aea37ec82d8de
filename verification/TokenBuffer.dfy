/**
 The buffer of tokens of the current block (archival/gzip.c, l_buf, d_buf and flag_buf as ct_tally
 fills them): literals and lengths, distances, and one flag bit per token to tell them apart.
 */
module TokenBuffers {
  import opened Words
  import opened Bits
  import opened BitOutput
  import opened Lz77

  const LIT_BUFSIZE := 8192
  const DIST_BUFSIZE := 8192

  /** Bit k of v. */
  function Bit(v: nat, k: nat): bool {
    Shift(v, k) % 2 == 1
  }

  lemma {:induction false} BitOfLow(v: nat, n: nat, k: nat)
    requires k < n
    ensures Low(v, n)[k] == Bit(v, k)
  {
    if k > 0 {
      BitOfLow(v / 2, n - 1, k - 1);
    }
  }

  /** Setting bit k above the bits that are there. */
  lemma BitSet(v: nat, k: nat, i: nat)
    requires v < Pow2(k) && i <= k
    ensures Bit(v + Pow2(k), i) == (i == k || Bit(v, i))
    ensures i == k ==> !Bit(v, i)
  {
    hide Low, Pow2, Bit;
    LowJoin(v, k, 1, 1);
    BitOfLow(v + Pow2(k), k + 1, i);
    assert 1 * Pow2(k) == Pow2(k);
    if i < k {
      BitOfLow(v, k, i);
    } else {
      LowPadded(v, k, 1);
      BitOfLow(v, k + 1, i);
      OneBit();
    }
  }

  lemma OneBit()
    ensures Low(1, 1) == [true]
  {
  }

  /** What l_buf holds for a token. */
  function Lc(t: Token): nat
    requires TokenOk(t)
  {
    match t
    case Literal(b) => b as nat
    case Match(length, _) => length - MIN_MATCH
  }

  /** The distances of the matches, less one. */
  function Dists(ts: seq<Token>): (r: seq<nat>)
    requires TokensOk(ts)
    ensures |r| <= |ts|
  {
    if ts == [] then []
    else if ts[|ts| - 1].Match? then Dists(ts[..|ts| - 1]) + [ts[|ts| - 1].distance - 1]
    else Dists(ts[..|ts| - 1])
  }

  lemma DistsSnoc(ts: seq<Token>, t: Token)
    requires TokensOk(ts) && TokenOk(t)
    ensures TokensOk(ts + [t])
    ensures Dists(ts + [t]) == if t.Match? then Dists(ts) + [t.distance - 1] else Dists(ts)
  {
    assert (ts + [t])[..|ts|] == ts;
  }

  lemma {:induction false} DistsPrefix(ts: seq<Token>, i: nat)
    requires i <= |ts| && TokensOk(ts)
    ensures TokensOk(ts[..i]) && Dists(ts[..i]) <= Dists(ts)
    decreases |ts|
  {
    if i < |ts| {
      DistsPrefix(ts[..|ts| - 1], i);
      assert ts[..|ts| - 1][..i] == ts[..i];
    } else {
      assert ts[..i] == ts;
    }
  }

  /** The next distance is that of the next match. */
  lemma NextDist(ts: seq<Token>, i: nat)
    requires i < |ts| && TokensOk(ts)
    ensures TokensOk(ts[..i]) && TokensOk(ts[..i + 1])
    ensures ts[i].Match? ==> |Dists(ts[..i])| < |Dists(ts)| && Dists(ts)[|Dists(ts[..i])|] == ts[i].distance - 1
                             && |Dists(ts[..i + 1])| == |Dists(ts[..i])| + 1
    ensures !ts[i].Match? ==> Dists(ts[..i + 1]) == Dists(ts[..i])
  {
    assert ts[..i + 1] == ts[..i] + [ts[i]];
    DistsPrefix(ts, i);
    DistsSnoc(ts[..i], ts[i]);
    DistsPrefix(ts, i + 1);
  }

  /** The flag of token i: whole bytes are saved, the last bits are still in `flags`. */
  function FlagAt(saved: seq<nat>, count: nat, flags: nat, i: nat): bool
    requires count <= |saved|
  {
    Bit(if i / 8 < count then saved[i / 8] else flags, i % 8)
  }

  ghost predicate FlagsHeld(saved: seq<nat>, count: nat, flags: nat, ts: seq<Token>) {
    && count <= |saved| && 8 * count <= |ts| <= 8 * count + 8 && flags < Pow2(|ts| - 8 * count)
    && forall i :: 0 <= i < |ts| ==> FlagAt(saved, count, flags, i) == ts[i].Match?
  }

  lemma FlagNext(saved: seq<nat>, count: nat, flags: nat, ts: seq<Token>, t: Token)
    requires FlagsHeld(saved, count, flags, ts) && |ts| < 8 * count + 8
    ensures FlagsHeld(saved, count, if t.Match? then flags + Pow2(|ts| - 8 * count) else flags, ts + [t])
  {
    hide Pow2, Bit;
    var k := |ts| - 8 * count;
    var flags' := if t.Match? then flags + Pow2(k) else flags;
    Pow2Step(k);
    forall i | 0 <= i <= |ts|
      ensures FlagAt(saved, count, flags', i) == (ts + [t])[i].Match?
    {
      if i < |ts| {
        assert FlagAt(saved, count, flags, i) == ts[i].Match?;
      }
      if i >= 8 * count {
        ByteOf(count, i);
        BitSet(flags, k, i % 8);
      }
    }
  }

  lemma ByteOf(count: nat, i: nat)
    requires 8 * count <= i < 8 * count + 8
    ensures i / 8 == count && i % 8 == i - 8 * count
  {
  }

  /** A full byte of flags is saved. */
  lemma FlagByte(saved: seq<nat>, count: nat, flags: nat, ts: seq<Token>)
    requires count < |saved| && FlagsHeld(saved, count, flags, ts) && |ts| == 8 * count + 8
    ensures FlagsHeld(saved[count := flags], count + 1, 0, ts)
  {
    hide Pow2, Bit;
    Pow2Step(0);
    forall i | 0 <= i < |ts|
      ensures FlagAt(saved[count := flags], count + 1, 0, i) == ts[i].Match?
    {
      assert FlagAt(saved, count, flags, i) == ts[i].Match?;
    }
  }

  /** The flags as compress_block reads them. */
  ghost predicate FlagsSaved(saved: seq<nat>, ts: seq<Token>) {
    |ts| <= 8 * |saved| && forall i :: 0 <= i < |ts| ==> Bit(saved[i / 8], i % 8) == ts[i].Match?
  }

  lemma SaveLast(saved: seq<nat>, count: nat, flags: nat, ts: seq<Token>)
    requires count < |saved| && FlagsHeld(saved, count, flags, ts)
    ensures FlagsSaved(saved[count := flags], ts)
  {
    hide Pow2, Bit;
    var s := saved[count := flags];
    forall i | 0 <= i < |ts|
      ensures Bit(s[i / 8], i % 8) == ts[i].Match?
    {
      assert FlagAt(saved, count, flags, i) == ts[i].Match?;
    }
  }

  lemma Pow2Step(k: nat)
    ensures Pow2(k + 1) == 2 * Pow2(k) && Pow2(0) == 1
  {
  }

  class TokenBuffer {
    const lBuf: array<nat>     // literals, and match lengths less MIN_MATCH
    const dBuf: array<nat>     // match distances less 1
    const flagBuf: array<nat>  // eight flags to the byte
    var lastLit: nat
    var lastDist: nat
    var lastFlags: nat
    var flags: nat             // flags not yet in flagBuf
    var flagBit: nat           // the bit of the next token in flags

    constructor ()
      ensures Held([]) && fresh(lBuf) && fresh(dBuf) && fresh(flagBuf)
    {
      lBuf, dBuf, flagBuf := new nat[LIT_BUFSIZE], new nat[DIST_BUFSIZE], new nat[LIT_BUFSIZE / 8];
      lastLit, lastDist, lastFlags, flags, flagBit := 0, 0, 0, 0, 1;
    }

    ghost predicate Shape() {
      && lBuf.Length == LIT_BUFSIZE && dBuf.Length == DIST_BUFSIZE && flagBuf.Length == LIT_BUFSIZE / 8
      && lBuf != dBuf && lBuf != flagBuf && dBuf != flagBuf
    }

    /** The buffer holds exactly these tokens. */
    ghost predicate Held(ts: seq<Token>)
      reads this, lBuf, dBuf, flagBuf
    {
      && Shape() && TokensOk(ts) && |ts| < LIT_BUFSIZE
      && lastLit == |ts| && (forall i :: 0 <= i < |ts| ==> lBuf[i] == Lc(ts[i]))
      && lastDist == |Dists(ts)| && dBuf[..lastDist] == Dists(ts)
      && FlagsHeld(flagBuf[..], lastFlags, flags, ts)
      && |ts| < 8 * lastFlags + 8 && flagBit == Pow2(|ts| - 8 * lastFlags)
    }

    /** The index part of init_block. */
    method Clear()
      requires Shape()
      modifies this
      ensures Held([])
    {
      lastLit, lastDist, lastFlags, flags, flagBit := 0, 0, 0, 0, 1;
    }

    /** The part of ct_tally that saves a literal (dist = 0) or a match. */
    method Save(dist: nat, lc: nat, ghost ts: seq<Token>, ghost t: Token)
      requires Held(ts) && |ts| + 1 < LIT_BUFSIZE && TokenOk(t) && lc == Lc(t)
      requires if t.Match? then dist == t.distance else dist == 0
      modifies this, lBuf, dBuf, flagBuf
      ensures Held(ts + [t])
    {
      hide FlagsHeld, Dists, Pow2, Or;
      FlagNext(flagBuf[..], lastFlags, flags, ts, t);
      DistsSnoc(ts, t);
      FlagsBelow(flagBuf[..], lastFlags, flags, ts);
      Pow2Step(|ts| - 8 * lastFlags);
      BitBelow(|ts| - 8 * lastFlags);
      lBuf[lastLit] := lc;
      lastLit := lastLit + 1;
      if dist != 0 {
        dBuf[lastDist] := dist - 1;
        lastDist := lastDist + 1;
        assert dBuf[..lastDist] == old(dBuf[..lastDist]) + [dist - 1];
        OrDisjoint(flags, 1, |ts| - 8 * lastFlags);
        flags := Or(flags, flagBit);
      }
      flagBit := (2 * flagBit) % 256;
      FlushFlags(ts + [t]);
    }

    method FlushFlags(ghost ts: seq<Token>)
      requires Shape() && lastLit == |ts| < LIT_BUFSIZE && FlagsHeld(flagBuf[..], lastFlags, flags, ts)
      requires 8 * lastFlags < |ts|
      requires |ts| < 8 * lastFlags + 8 ==> flagBit == Pow2(|ts| - 8 * lastFlags)
      modifies this`lastFlags, this`flags, this`flagBit, flagBuf
      ensures FlagsHeld(flagBuf[..], lastFlags, flags, ts)
      ensures |ts| < 8 * lastFlags + 8 && flagBit == Pow2(|ts| - 8 * lastFlags)
    {
      hide Pow2, FlagAt;
      Pow2Step(0);
      if lastLit % 8 == 0 {
        FlagByte(flagBuf[..], lastFlags, flags, ts);
        flagBuf[lastFlags] := flags;
        lastFlags := lastFlags + 1;
        flags, flagBit := 0, 1;
      }
    }
  }

  /** Only the eighth shift goes over the top of the byte. */
  lemma BitBelow(k: nat)
    requires k < 8
    ensures k < 7 ==> Pow2(k + 1) < 256
  {
    Pow2Of16();
    if k < 7 {
      Pow2Monotone(k + 1, 7);
      assert Pow2(8) == 2 * Pow2(7);
    }
  }

  lemma FlagsBelow(saved: seq<nat>, count: nat, flags: nat, ts: seq<Token>)
    requires FlagsHeld(saved, count, flags, ts)
    ensures 8 * count <= |ts| && flags < Pow2(|ts| - 8 * count)
  {
  }
}
