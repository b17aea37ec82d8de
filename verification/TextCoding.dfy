/** The bits of a coded block, and that they decode to its tokens. */
module TextCoding {
  import opened Words
  import opened Bits
  import opened Lz77
  import opened Options
  import opened Canonical
  import opened Tables
  import opened Inflate

  lemma TakeLow(v: nat, n: nat, rest: seq<bool>)
    requires v < Pow2(n)
    ensures TakeBits(Low(v, n) + rest, n) == Some(Parsed(v, rest))
  {
    hide Low, Value;
    ValueOfLow(v, n);
    assert (Low(v, n) + rest)[..n] == Low(v, n) && (Low(v, n) + rest)[n..] == rest;
  }

  function LengthSymbol(t: Token): (s: nat)
    requires t.Match? && TokenOk(t)
    ensures LITERALS < s < L_CODES
  {
    LITERALS + 1 + LengthCode(t.length - MIN_MATCH)
  }

  function DistSymbol(t: Token): (s: nat)
    requires t.Match? && TokenOk(t)
    ensures s < D_CODES
  {
    DistCode(t.distance - 1)
  }

  /** The codes for the token exist. */
  predicate Codable(t: Token, llens: seq<nat>, dlens: seq<nat>) {
    && TokenOk(t)
    && match t
       case Literal(b) => HasCode(llens, b as nat)
       case Match(_, _) => HasCode(llens, LengthSymbol(t)) && HasCode(dlens, DistSymbol(t))
  }

  predicate AllCodable(ts: seq<Token>, llens: seq<nat>, dlens: seq<nat>) {
    forall i :: 0 <= i < |ts| ==> Codable(ts[i], llens, dlens)
  }

  function LengthExtra(t: Token): seq<bool>
    requires t.Match? && TokenOk(t)
  {
    var c := LengthCode(t.length - MIN_MATCH);
    LengthFits(t.length - MIN_MATCH);
    Low(t.length - MIN_MATCH - LENGTH_BASE[c], EXTRA_LBITS[c])
  }

  function DistExtra(t: Token): seq<bool>
    requires t.Match? && TokenOk(t)
  {
    var c := DistCode(t.distance - 1);
    DistFits(t.distance - 1);
    Low(t.distance - 1 - DIST_BASE[c], EXTRA_DBITS[c])
  }

  function TokenBits(t: Token, llens: seq<nat>, dlens: seq<nat>): seq<bool>
    requires Codable(t, llens, dlens)
  {
    match t
    case Literal(b) => CodeBits(llens, b as nat)
    case Match(_, _) =>
      CodeBits(llens, LengthSymbol(t)) + LengthExtra(t) + CodeBits(dlens, DistSymbol(t)) + DistExtra(t)
  }

  function TextBits(ts: seq<Token>, llens: seq<nat>, dlens: seq<nat>): seq<bool>
    requires AllCodable(ts, llens, dlens)
  {
    if ts == [] then [] else TokenBits(ts[0], llens, dlens) + TextBits(ts[1..], llens, dlens)
  }

  /** A coded block: its tokens and the end mark. */
  function CodedBits(ts: seq<Token>, llens: seq<nat>, dlens: seq<nat>): seq<bool>
    requires AllCodable(ts, llens, dlens) && HasCode(llens, END_BLOCK)
  {
    TextBits(ts, llens, dlens) + CodeBits(llens, END_BLOCK)
  }

  lemma {:induction false} TextAppend(a: seq<Token>, b: seq<Token>, llens: seq<nat>, dlens: seq<nat>)
    requires AllCodable(a, llens, dlens) && AllCodable(b, llens, dlens)
    ensures AllCodable(a + b, llens, dlens)
    ensures TextBits(a + b, llens, dlens) == TextBits(a, llens, dlens) + TextBits(b, llens, dlens)
  {
    hide TokenBits, Codable;
    if a == [] {
      assert a + b == b;
    } else {
      TextAppend(a[1..], b, llens, dlens);
      assert (a + b)[1..] == a[1..] + b;
    }
  }

  lemma TextSnoc(a: seq<Token>, t: Token, llens: seq<nat>, dlens: seq<nat>)
    requires AllCodable(a, llens, dlens) && Codable(t, llens, dlens)
    ensures AllCodable(a + [t], llens, dlens)
    ensures TextBits(a + [t], llens, dlens) == TextBits(a, llens, dlens) + TokenBits(t, llens, dlens)
  {
    hide TokenBits, Codable;
    TextAppend(a, [t], llens, dlens);
    assert TextBits([t], llens, dlens) == TokenBits(t, llens, dlens) + TextBits([], llens, dlens);
  }

  lemma TakeLengthExtra(t: Token, rest: seq<bool>)
    requires t.Match? && TokenOk(t)
    ensures var c := LengthCode(t.length - MIN_MATCH);
            TakeExtra(LengthExtra(t) + rest, LENGTH_BASE[c], EXTRA_LBITS[c]) ==
            Some(Parsed(t.length - MIN_MATCH, rest))
  {
    hide Low, Value, LengthCode, Pow2, TakeBits;
    var lc := t.length - MIN_MATCH;
    var c := LengthCode(lc);
    LengthFits(lc);
    TakeLow(lc - LENGTH_BASE[c], EXTRA_LBITS[c], rest);
  }

  lemma TakeDistExtra(t: Token, rest: seq<bool>)
    requires t.Match? && TokenOk(t)
    ensures var c := DistCode(t.distance - 1);
            TakeExtra(DistExtra(t) + rest, DIST_BASE[c], EXTRA_DBITS[c]) == Some(Parsed(t.distance - 1, rest))
  {
    hide Low, Value, DistCode, Pow2, TakeBits;
    var d := t.distance - 1;
    var c := DistCode(d);
    DistFits(d);
    TakeLow(d - DIST_BASE[c], EXTRA_DBITS[c], rest);
  }

  lemma DecodeDistancePart(t: Token, dlens: seq<nat>, rest: seq<bool>)
    requires t.Match? && TokenOk(t) && IsCode(dlens) && HasCode(dlens, DistSymbol(t))
    ensures DecodeDistance(dlens, t.length - MIN_MATCH, CodeBits(dlens, DistSymbol(t)) + (DistExtra(t) + rest)) ==
            Some(Parsed(Text(t), rest))
  {
    hide CodeBits, DistExtra, DistCode, IsCode, DecodeSymbol, TakeExtra;
    DecodeCode(dlens, DistSymbol(t), DistExtra(t) + rest);
    TakeDistExtra(t, rest);
  }

  lemma DecodeMatch(t: Token, llens: seq<nat>, dlens: seq<nat>, rest: seq<bool>)
    requires t.Match? && Codable(t, llens, dlens) && IsCode(llens) && IsCode(dlens)
    ensures DecodeItem(llens, dlens, TokenBits(t, llens, dlens) + rest) == Some(Parsed(Text(t), rest))
  {
    hide CodeBits, LengthExtra, DistExtra, LengthCode, DistCode, IsCode, DecodeSymbol, TakeExtra, DecodeDistance;
    var tail := CodeBits(dlens, DistSymbol(t)) + (DistExtra(t) + rest);
    assert TokenBits(t, llens, dlens) + rest == CodeBits(llens, LengthSymbol(t)) + (LengthExtra(t) + tail);
    DecodeCode(llens, LengthSymbol(t), LengthExtra(t) + tail);
    TakeLengthExtra(t, tail);
    DecodeDistancePart(t, dlens, rest);
  }

  lemma DecodeToken(t: Token, llens: seq<nat>, dlens: seq<nat>, rest: seq<bool>)
    requires Codable(t, llens, dlens) && IsCode(llens) && IsCode(dlens)
    ensures DecodeItem(llens, dlens, TokenBits(t, llens, dlens) + rest) == Some(Parsed(Text(t), rest))
  {
    hide CodeBits, LengthExtra, DistExtra, LengthCode, DistCode, IsCode, DecodeSymbol;
    match t
    case Literal(b) => DecodeCode(llens, b as nat, rest);
    case Match(_, _) => DecodeMatch(t, llens, dlens, rest);
  }

  /** Decoding a coded block, given only the lengths, yields its tokens and stops after the end mark. */
  lemma {:induction false} DecodeText(ts: seq<Token>, llens: seq<nat>, dlens: seq<nat>, rest: seq<bool>)
    requires AllCodable(ts, llens, dlens) && HasCode(llens, END_BLOCK) && IsCode(llens) && IsCode(dlens)
    ensures DecodeTokens(llens, dlens, CodedBits(ts, llens, dlens) + rest) == Some(Parsed(ts, rest))
    decreases |ts|
  {
    hide TokenBits, Codable, CodeBits, IsCode, DecodeItem;
    if ts == [] {
      DecodeEnd(llens, dlens, rest);
      assert CodedBits([], llens, dlens) == CodeBits(llens, END_BLOCK);
    } else {
      var tail := CodedBits(ts[1..], llens, dlens) + rest;
      DecodeText(ts[1..], llens, dlens, rest);
      DecodeToken(ts[0], llens, dlens, tail);
      assert CodedBits(ts, llens, dlens) + rest == TokenBits(ts[0], llens, dlens) + tail;
      assert ts == [ts[0]] + ts[1..];
    }
  }

  lemma DecodeEnd(llens: seq<nat>, dlens: seq<nat>, rest: seq<bool>)
    requires HasCode(llens, END_BLOCK) && IsCode(llens)
    ensures DecodeItem(llens, dlens, CodeBits(llens, END_BLOCK) + rest) == Some(Parsed(End, rest))
  {
    hide CodeBits, IsCode, DecodeSymbol;
    DecodeCode(llens, END_BLOCK, rest);
  }
}
