/**
 Length and distance codes (section 3.2.5 of RFC 1951) and the tables of archival/gzip.c that
 map a match to them (ct_init, d_code).
 */
module Tables {
  import opened Words

  const LENGTH_CODES := 29
  const LITERALS := 256
  const END_BLOCK := 256
  const L_CODES := 286
  const D_CODES := 30
  const BL_CODES := 19

  const EXTRA_LBITS: seq<nat> :=
    [0, 0, 0, 0, 0, 0, 0, 0, 1, 1, 1, 1, 2, 2, 2, 2, 3, 3, 3, 3, 4, 4, 4, 4, 5, 5, 5, 5, 0]

  const EXTRA_DBITS: seq<nat> :=
    [0, 0, 0, 0, 1, 1, 2, 2, 3, 3, 4, 4, 5, 5, 6, 6, 7, 7, 8, 8, 9, 9, 10, 10, 11, 11, 12, 12, 13, 13]

  const EXTRA_BLBITS: seq<nat> := [0, 0, 0, 0, 0, 0, 0, 0, 0, 0, 0, 0, 0, 0, 0, 0, 2, 3, 7]

  /** The shortest match of each length code, less 3. */
  const LENGTH_BASE: seq<nat> :=
    [0, 1, 2, 3, 4, 5, 6, 7, 8, 10, 12, 14, 16, 20, 24, 28, 32, 40, 48, 56, 64, 80, 96, 112, 128, 160, 192, 224, 255]

  /** The nearest match of each distance code, less 1. */
  const DIST_BASE: seq<nat> :=
    [0, 1, 2, 3, 4, 6, 8, 12, 16, 24, 32, 48, 64, 96, 128, 192, 256, 384, 512, 768, 1024, 1536, 2048, 3072,
     4096, 6144, 8192, 12288, 16384, 24576]

  /** The last code up to c that starts at or before x. */
  function Bucket(base: seq<nat>, x: nat, c: nat): (r: nat)
    requires c < |base|
    ensures r <= c && (r == 0 || base[r] <= x) && (r < c ==> x < base[r + 1])
  {
    if c == 0 || base[c] <= x then c else Bucket(base, x, c - 1)
  }

  /** The code of a match of length lc + 3; the longest has a code of its own. */
  function LengthCode(lc: nat): (c: nat)
    ensures c < LENGTH_CODES
  {
    if lc == 255 then 28 else Bucket(LENGTH_BASE, lc, 27)
  }

  /** The code of a match at distance d + 1. */
  function DistCode(d: nat): (c: nat)
    ensures c < D_CODES
  {
    Bucket(DIST_BASE, d, 29)
  }

  lemma SmallPowers()
    ensures Pow2(0) == 1 && Pow2(1) == 2 && Pow2(2) == 4 && Pow2(3) == 8 && Pow2(4) == 16 && Pow2(5) == 32
    ensures Pow2(6) == 64 && Pow2(7) == 128 && Pow2(8) == 256 && Pow2(9) == 512 && Pow2(10) == 1024
    ensures Pow2(11) == 2048 && Pow2(12) == 4096 && Pow2(13) == 8192
  {
    assert Pow2(4) == 16;
    assert Pow2(8) == 256 by { Pow2Add(4, 4); }
    assert Pow2(12) == 4096 by { Pow2Add(8, 4); }
  }

  /** Each code starts where the one before ends. */
  lemma LengthStep(c: nat)
    requires c < 28
    ensures LENGTH_BASE[c] + Pow2(EXTRA_LBITS[c]) == if c == 27 then 256 else LENGTH_BASE[c + 1]
  {
    hide Pow2;
    SmallPowers();
  }

  lemma DistStep(c: nat)
    requires c < 30
    ensures DIST_BASE[c] + Pow2(EXTRA_DBITS[c]) == if c == 29 then 32768 else DIST_BASE[c + 1]
  {
    hide Pow2;
    SmallPowers();
  }

  /** The rest of a length fits the extra bits of its code. */
  lemma LengthFits(lc: nat)
    requires lc < 256
    ensures var c := LengthCode(lc); LENGTH_BASE[c] <= lc < LENGTH_BASE[c] + Pow2(EXTRA_LBITS[c])
  {
    hide Pow2;
    var c := LengthCode(lc);
    if lc == 255 {
      SmallPowers();
    } else {
      LengthStep(c);
    }
  }

  lemma DistFits(d: nat)
    requires d < 32768
    ensures var c := DistCode(d); DIST_BASE[c] <= d < DIST_BASE[c] + Pow2(EXTRA_DBITS[c])
  {
    hide Pow2, Bucket;
    DistStep(DistCode(d));
  }

  lemma {:induction false} BucketIs(base: seq<nat>, x: nat, c: nat, k: nat)
    requires k <= c < |base| && base[k] <= x && forall i :: k < i <= c ==> x < base[i]
    ensures Bucket(base, x, c) == k
  {
    if k < c {
      BucketIs(base, x, c - 1, k);
    }
  }

  lemma {:induction false} BaseAbove(base: seq<nat>, k: nat, c: nat)
    requires k <= c < |base| && forall i :: 0 <= i < c ==> base[i] < base[i + 1]
    ensures base[k] <= base[c]
  {
    if k < c {
      BaseAbove(base, k, c - 1);
    }
  }

  lemma LengthIn(lc: nat, c: nat)
    requires c < 28 && LENGTH_BASE[c] <= lc < LENGTH_BASE[c] + Pow2(EXTRA_LBITS[c]) && lc != 255
    ensures LengthCode(lc) == c
  {
    hide Pow2, Bucket;
    LengthStep(c);
    forall i | c < i <= 27
      ensures lc < LENGTH_BASE[i]
    {
      LengthsRise();
      BaseAbove(LENGTH_BASE, c + 1, i);
    }
    BucketIs(LENGTH_BASE, lc, 27, c);
  }

  lemma LengthsRise()
    ensures forall i :: 0 <= i < 27 ==> LENGTH_BASE[i] < LENGTH_BASE[i + 1]
  {
    hide Pow2;
    forall i | 0 <= i < 27
      ensures LENGTH_BASE[i] < LENGTH_BASE[i + 1]
    {
      LengthStep(i);
    }
  }

  lemma DistIn(d: nat, c: nat)
    requires c < 30 && DIST_BASE[c] <= d < DIST_BASE[c] + Pow2(EXTRA_DBITS[c])
    ensures DistCode(d) == c
  {
    hide Pow2, Bucket;
    DistStep(c);
    forall i | c < i <= 29
      ensures d < DIST_BASE[i]
    {
      DistsRise();
      BaseAbove(DIST_BASE, c + 1, i);
    }
    BucketIs(DIST_BASE, d, 29, c);
  }

  lemma DistsRise()
    ensures forall i :: 0 <= i < 29 ==> DIST_BASE[i] < DIST_BASE[i + 1]
  {
    hide Pow2;
    forall i | 0 <= i < 29
      ensures DIST_BASE[i] < DIST_BASE[i + 1]
    {
      DistStep(i);
    }
  }

  /** The table of length codes, with the first length of each code. */
  method InitLengths(lengthCode: array<nat>, baseLength: array<nat>)
    requires lengthCode != baseLength && lengthCode.Length == 256 && baseLength.Length == LENGTH_CODES
    modifies lengthCode, baseLength
    ensures forall lc :: 0 <= lc < 256 ==> lengthCode[lc] == LengthCode(lc)
    ensures forall c :: 0 <= c < LENGTH_CODES - 1 ==> baseLength[c] == LENGTH_BASE[c]
  {
    hide Pow2, LengthCode;
    var length, code := 0, 0;
    while code < LENGTH_CODES - 1
      invariant code <= 28 && length == if code == 28 then 256 else LENGTH_BASE[code]
      invariant forall c :: 0 <= c < code ==> baseLength[c] == LENGTH_BASE[c]
      invariant forall lc :: 0 <= lc < length && lc != 255 ==> lengthCode[lc] == LengthCode(lc)
    {
      LengthStep(code);
      baseLength[code] := length;
      length := FillLengths(lengthCode, code, length);
      code := code + 1;
    }
    lengthCode[length - 1] := code;
    LengthOf255();
  }

  lemma LengthOf255()
    ensures LengthCode(255) == 28
  {
  }

  method FillLengths(lengthCode: array<nat>, code: nat, from: nat) returns (length: nat)
    requires code < 28 && lengthCode.Length == 256 && from == LENGTH_BASE[code]
    modifies lengthCode
    ensures length == from + Pow2(EXTRA_LBITS[code])
    ensures forall lc :: 0 <= lc < from && lc < 256 ==> lengthCode[lc] == old(lengthCode[lc])
    ensures forall lc :: from <= lc < length && lc < 255 ==> lengthCode[lc] == LengthCode(lc)
  {
    hide Pow2, LengthCode;
    LengthStep(code);
    FinalLength(code);
    length := from;
    for n := 0 to Pow2(EXTRA_LBITS[code])
      invariant length == from + n
      invariant forall lc :: 0 <= lc < from && lc < 256 ==> lengthCode[lc] == old(lengthCode[lc])
      invariant forall lc :: from <= lc < length && lc != 255 ==> lengthCode[lc] == LengthCode(lc)
    {
      if length != 255 {
        LengthIn(length, code);
      }
      lengthCode[length] := code;
      length := length + 1;
    }
  }

  lemma FinalLength(c: nat)
    requires c < 28
    ensures LENGTH_BASE[c] + Pow2(EXTRA_LBITS[c]) <= 256
  {
    hide Pow2;
    LengthStep(c);
    if c < 27 {
      LengthsRise();
      BaseAbove(LENGTH_BASE, c + 1, 27);
    }
  }

  /** d_code: the table holds near distances as they are and far ones by their high bits. */
  function LookUp(table: seq<nat>, d: nat): nat
    requires |table| == 512 && d < 32768
  {
    if d < 256 then table[d] else table[256 + d / 128]
  }

  /** Right for the distances below d. */
  ghost predicate DistsSet(table: seq<nat>, limit: nat) {
    |table| == 512 && limit <= 32768 && forall d :: 0 <= d < limit ==> LookUp(table, d) == DistCode(d)
  }

  lemma NearDist(table: seq<nat>, d: nat, c: nat)
    requires d < 256 && c < 30 && DIST_BASE[c] <= d < DIST_BASE[c] + Pow2(EXTRA_DBITS[c])
    requires DistsSet(table, d)
    ensures DistsSet(table[d := c], d + 1)
  {
    hide Pow2, DistCode;
    DistIn(d, c);
  }

  lemma FarDist(table: seq<nat>, k: nat, c: nat)
    requires 2 <= k < 256 && c < 30 && DIST_BASE[c] <= 128 * k && 128 * k + 128 <= DIST_BASE[c] + Pow2(EXTRA_DBITS[c])
    requires DistsSet(table, 128 * k)
    ensures DistsSet(table[256 + k := c], 128 * (k + 1))
  {
    hide Pow2, DistCode;
    var next := table[256 + k := c];
    forall d | 0 <= d < 128 * (k + 1)
      ensures LookUp(next, d) == DistCode(d)
    {
      if d >= 128 * k {
        DistIn(d, c);
      } else {
        assert LookUp(table, d) == DistCode(d);
      }
    }
  }

  /** Far codes cover whole groups of 128 distances. */
  lemma FarStep(c: nat)
    requires 16 <= c < 30
    ensures 7 <= EXTRA_DBITS[c] && DIST_BASE[c] % 128 == 0 && 256 <= DIST_BASE[c]
    ensures Pow2(EXTRA_DBITS[c]) == 128 * Pow2(EXTRA_DBITS[c] - 7)
  {
    Pow2Add(7, EXTRA_DBITS[c] - 7);
    SmallPowers();
  }

  method FillNear(distCode: array<nat>, code: nat, from: nat) returns (dist: nat)
    requires code < 16 && from == DIST_BASE[code] && DistsSet(distCode[..], from)
    modifies distCode
    ensures dist == from + Pow2(EXTRA_DBITS[code]) && DistsSet(distCode[..], dist)
  {
    hide Pow2, DistsSet;
    NearBelow(code);
    SetShape(distCode[..], from);
    dist := from;
    for n := 0 to Pow2(EXTRA_DBITS[code])
      invariant dist == from + n && DistsSet(distCode[..], dist)
    {
      ghost var table := distCode[..];
      NearDist(table, dist, code);
      distCode[dist] := code;
      assert distCode[..] == table[dist := code];
      dist := dist + 1;
    }
  }

  lemma SetShape(table: seq<nat>, limit: nat)
    requires DistsSet(table, limit)
    ensures |table| == 512
  {
  }

  lemma NearBelow(c: nat)
    requires c < 16
    ensures DIST_BASE[c] + Pow2(EXTRA_DBITS[c]) <= 256
  {
    hide Pow2;
    SmallPowers();
  }

  method FillFar(distCode: array<nat>, code: nat, from: nat) returns (dist: nat)
    requires 16 <= code < 30 && 128 * from == DIST_BASE[code] && DistsSet(distCode[..], 128 * from)
    modifies distCode
    ensures 128 * dist == DIST_BASE[code] + Pow2(EXTRA_DBITS[code]) && DistsSet(distCode[..], 128 * dist)
  {
    hide Pow2, DistsSet;
    FarStep(code);
    FarBelow(code);
    SetShape(distCode[..], 128 * from);
    dist := from;
    for n := 0 to Pow2(EXTRA_DBITS[code] - 7)
      invariant dist == from + n && DistsSet(distCode[..], 128 * dist)
    {
      ghost var table := distCode[..];
      FarDist(table, dist, code);
      distCode[256 + dist] := code;
      assert distCode[..] == table[256 + dist := code];
      dist := dist + 1;
    }
  }

  lemma FarBelow(c: nat)
    requires c < 30
    ensures DIST_BASE[c] + Pow2(EXTRA_DBITS[c]) <= 32768
  {
    hide Pow2;
    DistStep(c);
    if c < 29 {
      DistsRise();
      BaseAbove(DIST_BASE, c + 1, 29);
    }
  }

  /** The table of distance codes, with the first distance of each code. */
  method InitDists(distCode: array<nat>, baseDist: array<nat>)
    requires distCode != baseDist && distCode.Length == 512 && baseDist.Length == D_CODES
    modifies distCode, baseDist
    ensures DistsSet(distCode[..], 32768)
    ensures forall c :: 0 <= c < D_CODES ==> baseDist[c] == DIST_BASE[c]
  {
    hide Pow2, DistsSet;
    var dist, code := 0, 0;
    NothingSet(distCode[..]);
    while code < 16
      invariant code <= 16 && dist == DIST_BASE[code] && DistsSet(distCode[..], dist)
      invariant forall c :: 0 <= c < code ==> baseDist[c] == DIST_BASE[c]
    {
      DistStep(code);
      baseDist[code] := dist;
      dist := FillNear(distCode, code, dist);
      code := code + 1;
    }
    dist := dist / 128;
    while code < D_CODES
      invariant 16 <= code <= 30 && 128 * dist == (if code == 30 then 32768 else DIST_BASE[code])
      invariant DistsSet(distCode[..], 128 * dist)
      invariant forall c :: 0 <= c < code ==> baseDist[c] == DIST_BASE[c]
    {
      DistStep(code);
      baseDist[code] := dist * 128;
      dist := FillFar(distCode, code, dist);
      code := code + 1;
    }
  }

  lemma NothingSet(table: seq<nat>)
    requires |table| == 512
    ensures DistsSet(table, 0)
  {
  }

  /** The tables of ct_init. */
  class CodeTables {
    const lengthCode: array<nat>
    const baseLength: array<nat>
    const distCode: array<nat>
    const baseDist: array<nat>

    constructor ()
      ensures Ready() && fresh(lengthCode) && fresh(baseLength) && fresh(distCode) && fresh(baseDist)
    {
      lengthCode, baseLength := new nat[256], new nat[LENGTH_CODES];
      distCode, baseDist := new nat[512], new nat[D_CODES];
      new;
      InitLengths(lengthCode, baseLength);
      InitDists(distCode, baseDist);
    }

    ghost predicate Ready()
      reads lengthCode, baseLength, distCode, baseDist
    {
      && lengthCode.Length == 256 && baseLength.Length == LENGTH_CODES && baseDist.Length == D_CODES
      && (forall lc :: 0 <= lc < 256 ==> lengthCode[lc] == LengthCode(lc))
      && (forall c :: 0 <= c < LENGTH_CODES - 1 ==> baseLength[c] == LENGTH_BASE[c])
      && DistsSet(distCode[..], 32768)
      && (forall c :: 0 <= c < D_CODES ==> baseDist[c] == DIST_BASE[c])
    }

    /** d_code. */
    method DCode(dist: nat) returns (c: nat)
      requires Ready() && dist < 32768
      ensures c == DistCode(dist)
    {
      hide DistCode;
      c := if dist < 256 then distCode[dist] else distCode[256 + dist / 128];
      assert c == LookUp(distCode[..], dist);
    }
  }
}
