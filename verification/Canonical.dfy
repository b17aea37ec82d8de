/**
 Canonical Huffman codes (section 3.2.2 of RFC 1951): the code of a symbol is fixed by the
 lengths alone, no code is a prefix of another, and a decoder needs only the lengths.
 */
module Canonical {
  import opened Words
  import opened CodeCounts
  import opened Bits
  import opened Options

  const MAX_BITS := 15

  /** How many of the first n symbols have a code of b bits. */
  function CountTo(lens: seq<nat>, n: nat, b: nat): nat
    requires n <= |lens|
  {
    if n == 0 then 0 else CountTo(lens, n - 1, b) + if lens[n - 1] == b then 1 else 0
  }

  /** The number of codes of each length; symbols of length 0 have no code. */
  function LenCounts(lens: seq<nat>): (bl: seq<nat>)
    ensures |bl| == MAX_BITS + 1 && bl[0] == 0
    ensures forall b :: 1 <= b <= MAX_BITS ==> bl[b] == CountTo(lens, |lens|, b)
  {
    seq(MAX_BITS + 1, b requires 0 <= b => if b == 0 then 0 else CountTo(lens, |lens|, b))
  }

  /** The first code of b bits. */
  function First(bl: seq<nat>, b: nat): nat
    requires b <= |bl|
  {
    if b == 0 then 0 else 2 * (First(bl, b - 1) + bl[b - 1])
  }

  /** Lengths of at most MAX_BITS bits that satisfy Kraft's inequality. */
  predicate IsCode(lens: seq<nat>) {
    && (forall n :: 0 <= n < |lens| ==> lens[n] <= MAX_BITS)
    && KraftCounts(LenCounts(lens), MAX_BITS + 1, MAX_BITS) <= Pow2(MAX_BITS)
  }

  /** No bits are left over: Kraft's inequality is an equality. */
  predicate IsFull(lens: seq<nat>) {
    KraftCounts(LenCounts(lens), MAX_BITS + 1, MAX_BITS) == Pow2(MAX_BITS)
  }

  predicate HasCode(lens: seq<nat>, n: nat) {
    n < |lens| && 1 <= lens[n] <= MAX_BITS
  }

  /** The code of symbol n: consecutive values for each length, in the order of the symbols. */
  function Canon(lens: seq<nat>, n: nat): nat
    requires HasCode(lens, n)
  {
    First(LenCounts(lens), lens[n]) + CountTo(lens, n, lens[n])
  }

  /** The code as it is sent, most significant bit first. */
  function CodeBits(lens: seq<nat>, n: nat): (r: seq<bool>)
    requires HasCode(lens, n)
    ensures |r| == lens[n]
  {
    Msb(Canon(lens, n), lens[n])
  }

  /** The first code of b bits starts where the shorter codes end. */
  lemma {:induction false} FirstIsKraft(bl: seq<nat>, b: nat, m: nat)
    requires b <= m < |bl|
    ensures First(bl, b) * Pow2(m - b) == KraftCounts(bl, b, m)
  {
    hide Pow2;
    if b > 0 {
      FirstIsKraft(bl, b - 1, m);
      ShiftStep(First(bl, b - 1) + bl[b - 1], m - (b - 1));
      Distribute(First(bl, b - 1), bl[b - 1], Pow2(m - (b - 1)));
      MulAssoc(2, First(bl, b - 1) + bl[b - 1], Pow2(m - b));
    }
  }

  lemma {:induction false} CountMonotone(lens: seq<nat>, n: nat, k: nat, b: nat)
    requires n <= k <= |lens|
    ensures CountTo(lens, n, b) <= CountTo(lens, k, b)
  {
    if n < k {
      CountMonotone(lens, n, k - 1, b);
    }
  }

  /** A symbol's code is one of those counted for its length. */
  lemma RankBelow(lens: seq<nat>, n: nat, k: nat)
    requires n < k <= |lens|
    ensures CountTo(lens, n, lens[n]) + 1 <= CountTo(lens, k, lens[n])
  {
    CountMonotone(lens, n + 1, k, lens[n]);
  }

  lemma {:induction false} KraftMonotone(bl: seq<nat>, b: nat, c: nat, m: nat)
    requires b <= c <= m + 1 <= |bl|
    ensures KraftCounts(bl, b, m) <= KraftCounts(bl, c, m)
  {
    if b < c {
      KraftMonotone(bl, b, c - 1, m);
    }
  }

  /** Where the codes that start with the code of n lie, in units of 2^-MAX_BITS. */
  lemma Interval(lens: seq<nat>, n: nat)
    requires HasCode(lens, n)
    ensures var bl, l, u := LenCounts(lens), lens[n], Pow2(MAX_BITS - lens[n]);
            KraftCounts(bl, l, MAX_BITS) <= Canon(lens, n) * u
            && (Canon(lens, n) + 1) * u <= KraftCounts(bl, l + 1, MAX_BITS)
  {
    hide Pow2, LenCounts, CountTo;
    var bl, l, u := LenCounts(lens), lens[n], Pow2(MAX_BITS - lens[n]);
    var r := CountTo(lens, n, l);
    FirstIsKraft(bl, l, MAX_BITS);
    RankBelow(lens, n, |lens|);
    Distribute(First(bl, l), r, u);
    Distribute(First(bl, l), r + 1, u);
    MulMonotone(r + 1, bl[l], u);
    MulMonotone(0, r, u);
  }

  lemma MulMonotone(a: nat, b: nat, u: nat)
    requires a <= b
    ensures a * u <= b * u
  {
  }

  /** Codes fit their length. */
  lemma CanonFits(lens: seq<nat>, n: nat)
    requires HasCode(lens, n) && IsCode(lens)
    ensures Canon(lens, n) < Pow2(lens[n])
  {
    hide LenCounts, Canon, KraftCounts;
    var l := lens[n];
    var u := Pow2(MAX_BITS - l);
    Interval(lens, n);
    KraftMonotone(LenCounts(lens), l + 1, MAX_BITS + 1, MAX_BITS);
    Pow2Add(l, MAX_BITS - l);
    if Pow2(l) < Canon(lens, n) + 1 {
      MulSpread(Pow2(l), Canon(lens, n) + 1, u);
    }
  }

  /** The code of k does not start with the code of n. */
  lemma CodesApart(lens: seq<nat>, n: nat, k: nat)
    requires HasCode(lens, n) && HasCode(lens, k) && n != k && lens[n] <= lens[k]
    ensures Shift(Canon(lens, k), lens[k] - lens[n]) != Canon(lens, n)
  {
    if lens[n] == lens[k] {
      if n < k { RankBelow(lens, n, k); } else { RankBelow(lens, k, n); }
    } else {
      LongerCode(lens, n, k);
      ShiftAtLeast(Canon(lens, k), lens[k] - lens[n], Canon(lens, n) + 1);
    }
  }

  /** A longer code comes after every extension of a shorter one. */
  lemma LongerCode(lens: seq<nat>, n: nat, k: nat)
    requires HasCode(lens, n) && HasCode(lens, k) && lens[n] < lens[k]
    ensures (Canon(lens, n) + 1) * Pow2(lens[k] - lens[n]) <= Canon(lens, k)
  {
    hide Canon, LenCounts, KraftCounts;
    Interval(lens, n);
    Interval(lens, k);
    KraftMonotone(LenCounts(lens), lens[n] + 1, lens[k], MAX_BITS);
    var d, u := Pow2(lens[k] - lens[n]), Pow2(MAX_BITS - lens[k]);
    Pow2Add(lens[k] - lens[n], MAX_BITS - lens[k]);
    MulAssoc(Canon(lens, n) + 1, d, u);
    CancelFactor((Canon(lens, n) + 1) * d, Canon(lens, k), u);
  }

  lemma CancelFactor(a: int, b: int, u: int)
    requires u > 0 && a * u <= b * u
    ensures a <= b
  {
    if b < a {
      MulSpread(b, a, u);
    }
  }

  /** No two codes are prefixes of the same bits. */
  lemma PrefixFree(lens: seq<nat>, n: nat, k: nat, bits: seq<bool>)
    requires IsCode(lens) && HasCode(lens, n) && HasCode(lens, k)
    requires CodeBits(lens, n) <= bits && CodeBits(lens, k) <= bits
    ensures n == k
  {
    hide Canon, Msb, Shift;
    if n != k && lens[n] <= lens[k] {
      ShorterDiffers(lens, n, k, bits);
    } else if n != k {
      ShorterDiffers(lens, k, n, bits);
    }
  }

  lemma ShorterDiffers(lens: seq<nat>, n: nat, k: nat, bits: seq<bool>)
    requires IsCode(lens) && HasCode(lens, n) && HasCode(lens, k) && n != k && lens[n] <= lens[k]
    ensures !(CodeBits(lens, n) <= bits && CodeBits(lens, k) <= bits)
  {
    hide Canon, Msb, Shift, IsCode;
    if CodeBits(lens, n) <= bits && CodeBits(lens, k) <= bits {
      var d := lens[k] - lens[n];
      MsbPrefix(Canon(lens, k), lens[k], lens[n]);
      assert CodeBits(lens, k)[..lens[n]] == bits[..lens[n]] == CodeBits(lens, n);
      CanonFits(lens, n);
      CanonFits(lens, k);
      ShiftBelow(Canon(lens, k), d, lens[n]);
      MsbInjective(Shift(Canon(lens, k), d), Canon(lens, n), lens[n]);
      CodesApart(lens, n, k);
    }
  }

  datatype Decoded = Decoded(symbol: nat, rest: seq<bool>)

  /** The first symbol from n on whose code starts the bits. */
  function DecodeFrom(lens: seq<nat>, bits: seq<bool>, n: nat): Option<Decoded>
    requires n <= |lens|
    decreases |lens| - n
  {
    if n == |lens| then None
    else if HasCode(lens, n) && CodeBits(lens, n) <= bits then Some(Decoded(n, bits[lens[n]..]))
    else DecodeFrom(lens, bits, n + 1)
  }

  /** Decoding a symbol, given only the lengths. */
  function DecodeSymbol(lens: seq<nat>, bits: seq<bool>): Option<Decoded> {
    DecodeFrom(lens, bits, 0)
  }

  lemma {:induction false} DecodeSkips(lens: seq<nat>, n: nat, k: nat, bits: seq<bool>)
    requires IsCode(lens) && HasCode(lens, n) && k <= n && CodeBits(lens, n) <= bits
    ensures DecodeFrom(lens, bits, k) == Some(Decoded(n, bits[lens[n]..]))
    decreases n - k
  {
    hide CodeBits, IsCode;
    if k < n {
      if HasCode(lens, k) && CodeBits(lens, k) <= bits {
        PrefixFree(lens, n, k, bits);
      }
      DecodeSkips(lens, n, k + 1, bits);
    }
  }

  /** Decoding undoes coding, whatever follows. */
  lemma DecodeCode(lens: seq<nat>, n: nat, rest: seq<bool>)
    requires IsCode(lens) && HasCode(lens, n)
    ensures DecodeSymbol(lens, CodeBits(lens, n) + rest) == Some(Decoded(n, rest))
  {
    hide CodeBits, IsCode;
    var bits := CodeBits(lens, n) + rest;
    DecodeSkips(lens, n, 0, bits);
    assert bits[lens[n]..] == rest;
  }
}
