/**
 What a deflate stream means (sections 3.2.3 to 3.2.7 of RFC 1951), read from its bits.
 */
module Inflate {
  import opened Words
  import opened Bits
  import opened RollingHash
  import opened Lz77
  import opened Options
  import opened Canonical
  import opened Tables

  datatype Parsed<+T> = Parsed(value: T, rest: seq<bool>)

  /** The next n bits as an integer. */
  function TakeBits(bits: seq<bool>, n: nat): (r: Option<Parsed<nat>>)
    ensures r.Some? ==> |r.value.rest| == |bits| - n
  {
    if |bits| < n then None else Some(Parsed(Value(bits[..n]), bits[n..]))
  }

  /** A code, then the extra bits that it calls for: the sum of its base and their value. */
  function TakeExtra(bits: seq<bool>, base: nat, extra: nat): (r: Option<Parsed<nat>>)
    ensures r.Some? ==> |r.value.rest| <= |bits|
  {
    match TakeBits(bits, extra)
    case None => None
    case Some(p) => Some(Parsed(base + p.value, p.rest))
  }

  datatype Item = Text(token: Token) | End

  /** One literal, match or end-of-block mark. */
  function DecodeItem(llens: seq<nat>, dlens: seq<nat>, bits: seq<bool>): Option<Parsed<Item>> {
    match DecodeSymbol(llens, bits)
    case None => None
    case Some(d) =>
      if d.symbol < LITERALS then Some(Parsed(Text(Literal(d.symbol as byte)), d.rest))
      else if d.symbol == END_BLOCK then Some(Parsed(End, d.rest))
      else if d.symbol < L_CODES then
        match TakeExtra(d.rest, LENGTH_BASE[d.symbol - 257], EXTRA_LBITS[d.symbol - 257]) {
          case None => None
          case Some(l) => DecodeDistance(dlens, l.value, l.rest)
        }
      else None
  }

  /** The distance of a match whose length is known. */
  function DecodeDistance(dlens: seq<nat>, lc: nat, bits: seq<bool>): Option<Parsed<Item>> {
    match DecodeSymbol(dlens, bits)
    case None => None
    case Some(d) =>
      if d.symbol < D_CODES then
        match TakeExtra(d.rest, DIST_BASE[d.symbol], EXTRA_DBITS[d.symbol]) {
          case None => None
          case Some(p) => Some(Parsed(Text(Match(lc + MIN_MATCH, p.value + 1)), p.rest))
        }
      else None
  }

  lemma {:induction false} SymbolShortens(lens: seq<nat>, bits: seq<bool>, n: nat)
    requires n <= |lens|
    ensures DecodeFrom(lens, bits, n).Some? ==> |DecodeFrom(lens, bits, n).value.rest| < |bits|
    decreases |lens| - n
  {
    if n < |lens| {
      SymbolShortens(lens, bits, n + 1);
    }
  }

  lemma ItemShortens(llens: seq<nat>, dlens: seq<nat>, bits: seq<bool>)
    ensures DecodeItem(llens, dlens, bits).Some? ==> |DecodeItem(llens, dlens, bits).value.rest| < |bits|
  {
    hide DecodeFrom, TakeExtra;
    SymbolShortens(llens, bits, 0);
    var s := DecodeSymbol(llens, bits);
    if s.Some? && END_BLOCK < s.value.symbol < L_CODES {
      var l := TakeExtra(s.value.rest, LENGTH_BASE[s.value.symbol - 257], EXTRA_LBITS[s.value.symbol - 257]);
      if l.Some? {
        SymbolShortens(dlens, l.value.rest, 0);
      }
    }
  }

  /** The tokens up to the end-of-block mark. */
  function DecodeTokens(llens: seq<nat>, dlens: seq<nat>, bits: seq<bool>): Option<Parsed<seq<Token>>>
    decreases |bits|
  {
    ItemShortens(llens, dlens, bits);
    match DecodeItem(llens, dlens, bits)
    case None => None
    case Some(Parsed(End, rest)) => Some(Parsed([], rest))
    case Some(Parsed(Text(t), rest)) =>
      match DecodeTokens(llens, dlens, rest)
      case None => None
      case Some(p) => Some(Parsed([t] + p.value, p.rest))
  }

  /** The fixed codes of section 3.2.6. */
  function FixedL(): (r: seq<nat>)
    ensures |r| == 288
  {
    seq(288, i requires 0 <= i => if i < 144 then 8 else if i < 256 then 9 else if i < 280 then 7 else 8)
  }

  /** Distance codes 30 and 31 never occur, so their code words stand for nothing. */
  function FixedD(): (r: seq<nat>)
    ensures |r| == D_CODES
  {
    seq(D_CODES, _ => 5)
  }

  const BL_ORDER: seq<nat> := [16, 17, 18, 0, 8, 7, 9, 6, 10, 5, 11, 4, 12, 3, 13, 2, 14, 1, 15]

  /** The lengths of the code length code, three bits each, in the order of BL_ORDER. */
  function ReadBl(bits: seq<bool>, rank: nat, n: nat, acc: seq<nat>): Option<Parsed<seq<nat>>>
    requires rank <= n <= BL_CODES && |acc| == BL_CODES
    decreases n - rank
  {
    if rank == n then Some(Parsed(acc, bits))
    else
      match TakeBits(bits, 3)
      case None => None
      case Some(p) => ReadBl(p.rest, rank + 1, n, acc[BL_ORDER[rank] := p.value])
  }

  function Copies(v: nat, n: nat): (r: seq<nat>)
    ensures |r| == n
  {
    seq(n, _ => v)
  }

  /** One symbol of the code length alphabet (section 3.2.7) appended to the lengths so far. */
  function DecodeRun(acc: seq<nat>, symbol: nat, bits: seq<bool>): (r: Option<Parsed<seq<nat>>>)
    ensures r.Some? ==> |r.value.rest| <= |bits|
  {
    if symbol < 16 then Some(Parsed(acc + [symbol], bits))
    else if symbol == 16 && acc != [] then
      match TakeBits(bits, 2) {
        case None => None
        case Some(p) => Some(Parsed(acc + Copies(acc[|acc| - 1], 3 + p.value), p.rest))
      }
    else if symbol == 17 then
      match TakeBits(bits, 3) {
        case None => None
        case Some(p) => Some(Parsed(acc + Copies(0, 3 + p.value), p.rest))
      }
    else if symbol == 18 then
      match TakeBits(bits, 7) {
        case None => None
        case Some(p) => Some(Parsed(acc + Copies(0, 11 + p.value), p.rest))
      }
    else None
  }

  /** Code lengths until there are n of them. */
  function DecodeLengths(bl: seq<nat>, bits: seq<bool>, n: nat, acc: seq<nat>): Option<Parsed<seq<nat>>>
    decreases |bits|
  {
    if |acc| == n then Some(Parsed(acc, bits))
    else if |acc| > n then None
    else
      SymbolShortens(bl, bits, 0);
      match DecodeSymbol(bl, bits)
      case None => None
      case Some(d) =>
        match DecodeRun(acc, d.symbol, d.rest)
        case None => None
        case Some(p) => DecodeLengths(bl, p.rest, n, p.value)
  }

  datatype CodeLens = CodeLens(llens: seq<nat>, dlens: seq<nat>)

  /** The header of a block with dynamic codes. */
  function DecodeTrees(bits: seq<bool>): Option<Parsed<CodeLens>> {
    match TakeBits(bits, 5)
    case None => None
    case Some(hlit) =>
      match TakeBits(hlit.rest, 5)
      case None => None
      case Some(hdist) =>
        match TakeBits(hdist.rest, 4)
        case None => None
        case Some(hclen) => DecodeTreeCodes(hlit.value + 257, hdist.value + 1, hclen.value + 4, hclen.rest)
  }

  function DecodeTreeCodes(lcodes: nat, dcodes: nat, blcodes: nat, bits: seq<bool>): Option<Parsed<CodeLens>> {
    if blcodes > BL_CODES then None
    else
      match ReadBl(bits, 0, blcodes, Copies(0, BL_CODES))
      case None => None
      case Some(bl) =>
        match DecodeLengths(bl.value, bl.rest, lcodes + dcodes, [])
        case None => None
        case Some(p) =>
          if |p.value| != lcodes + dcodes then None
          else Some(Parsed(CodeLens(p.value[..lcodes], p.value[lcodes..]), p.rest))
  }

  function ReadBytes(bits: seq<bool>, n: nat): (r: seq<byte>)
    requires 8 * n <= |bits|
    ensures |r| == n
  {
    if n == 0 then []
    else
      var v := Value(bits[8 * (n - 1)..8 * n]);
      assert Pow2(8) == 256 by { SmallPowers(); }
      ReadBytes(bits, n - 1) + [v as byte]
  }

  /** A stored block from a byte boundary on. */
  function DecodeStored(bits: seq<bool>): Option<Parsed<seq<byte>>> {
    match TakeBits(bits, 16)
    case None => None
    case Some(len) =>
      match TakeBits(len.rest, 16)
      case None => None
      case Some(nlen) =>
        if len.value + nlen.value != 0xffff || |nlen.rest| < 8 * len.value then None
        else Some(Parsed(ReadBytes(nlen.rest, len.value), nlen.rest[8 * len.value..]))
  }

  datatype Piece = Piece(block: Block, last: bool)

  function Coding(p: Option<Parsed<seq<Token>>>, last: bool): Option<Parsed<Piece>> {
    match p
    case None => None
    case Some(t) => Some(Parsed(Piece(Coded(t.value), last), t.rest))
  }

  /** One block; pos is the position of the bits in the stream, which matters for stored blocks. */
  function DecodeBlock(bits: seq<bool>, pos: nat): Option<Parsed<Piece>> {
    match TakeBits(bits, 1)
    case None => None
    case Some(final) =>
      match TakeBits(final.rest, 2)
      case None => None
      case Some(kind) => DecodeBody(kind.value, final.value == 1, kind.rest, pos + 3)
  }

  function DecodeBody(kind: nat, last: bool, bits: seq<bool>, pos: nat): Option<Parsed<Piece>> {
    if kind == 0 then
      match TakeBits(bits, (8 - pos % 8) % 8) {
        case None => None
        case Some(pad) =>
          match DecodeStored(pad.rest)
          case None => None
          case Some(s) => Some(Parsed(Piece(Stored(s.value), last), s.rest))
      }
    else if kind == 1 then Coding(DecodeTokens(FixedL(), FixedD(), bits), last)
    else if kind == 2 then
      match DecodeTrees(bits) {
        case None => None
        case Some(t) => Coding(DecodeTokens(t.value.llens, t.value.dlens, t.rest), last)
      }
    else None
  }
}
