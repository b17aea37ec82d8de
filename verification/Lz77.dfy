/**
 What the compressed stream means: literal bytes and back references, and the blocks
 they are grouped into (sections 2 and 3.2 of RFC 1951).
 */
module Lz77 {
  import opened Options
  import opened RollingHash

  const MIN_MATCH := 3
  const MAX_MATCH := 258
  const MIN_LOOKAHEAD := MAX_MATCH + MIN_MATCH + 1
  const MAX_DIST := 32768 - MIN_LOOKAHEAD

  datatype Token = Literal(value: byte) | Match(length: nat, distance: nat)

  datatype Block = Stored(text: seq<byte>) | Coded(tokens: seq<Token>)

  /** How much text a token stands for. */
  function Width(t: Token): nat {
    if t.Literal? then 1 else t.length
  }

  /** A back reference that the compressor may make. */
  predicate TokenOk(t: Token) {
    t.Match? ==> MIN_MATCH <= t.length <= MAX_MATCH && 1 <= t.distance <= MAX_DIST
  }

  predicate TokensOk(ts: seq<Token>) {
    forall i :: 0 <= i < |ts| ==> TokenOk(ts[i])
  }

  /** All references in the blocks are of that kind. */
  ghost predicate BlocksOk(bs: seq<Block>) {
    forall i :: 0 <= i < |bs| && bs[i].Coded? ==> TokensOk(bs[i].tokens)
  }

  /** Copies one byte at a time, so that a reference may overlap what it produces. */
  function Copy(out: seq<byte>, length: nat, distance: nat): (r: seq<byte>)
    requires 1 <= distance <= |out|
    ensures |r| == |out| + length
    decreases length
  {
    if length == 0 then out
    else Copy(out + [out[|out| - distance]], length - 1, distance)
  }

  function ExpandToken(out: seq<byte>, t: Token): Option<seq<byte>> {
    match t
    case Literal(b) => Some(out + [b])
    case Match(length, distance) =>
      if 1 <= distance <= |out| then Some(Copy(out, length, distance)) else None
  }

  /** The text a token sequence stands for after `out`; None if it reaches before the start. */
  function Expand(out: seq<byte>, ts: seq<Token>): Option<seq<byte>> {
    if ts == [] then Some(out)
    else
      match Expand(out, ts[..|ts| - 1])
      case None => None
      case Some(o) => ExpandToken(o, ts[|ts| - 1])
  }

  function ExpandBlock(out: seq<byte>, b: Block): Option<seq<byte>> {
    match b
    case Stored(text) => Some(out + text)
    case Coded(ts) => Expand(out, ts)
  }

  function ExpandBlocks(bs: seq<Block>): Option<seq<byte>> {
    if bs == [] then Some([])
    else
      match ExpandBlocks(bs[..|bs| - 1])
      case None => None
      case Some(o) => ExpandBlock(o, bs[|bs| - 1])
  }

  lemma ExpandSnoc(out: seq<byte>, ts: seq<Token>, t: Token)
    requires Expand(out, ts).Some?
    ensures Expand(out, ts + [t]) == ExpandToken(Expand(out, ts).value, t)
  {
    assert (ts + [t])[..|ts|] == ts;
  }

  lemma ExpandBlocksSnoc(bs: seq<Block>, b: Block)
    requires ExpandBlocks(bs).Some?
    ensures ExpandBlocks(bs + [b]) == ExpandBlock(ExpandBlocks(bs).value, b)
  {
    assert (bs + [b])[..|bs|] == bs;
  }

  /** A reference to equal text extends a prefix of that text to a longer prefix. */
  lemma {:induction false} CopyReproduces(text: seq<byte>, n: nat, length: nat, distance: nat)
    requires 1 <= distance <= n && n + length <= |text|
    requires forall k :: n <= k < n + length ==> text[k] == text[k - distance]
    ensures Copy(text[..n], length, distance) == text[..n + length]
    decreases length
  {
    if length > 0 {
      assert text[..n] + [text[n - distance]] == text[..n + 1];
      CopyReproduces(text, n + 1, length - 1, distance);
    }
  }

  lemma LiteralExtends(from: seq<byte>, ts: seq<Token>, text: seq<byte>, n: nat)
    requires n < |text| && Expand(from, ts) == Some(text[..n])
    ensures Expand(from, ts + [Literal(text[n])]) == Some(text[..n + 1])
  {
    ExpandSnoc(from, ts, Literal(text[n]));
    assert text[..n] + [text[n]] == text[..n + 1];
  }

  lemma MatchExtends(from: seq<byte>, ts: seq<Token>, text: seq<byte>, n: nat, length: nat, distance: nat)
    requires 1 <= distance <= n && n + length <= |text| && Expand(from, ts) == Some(text[..n])
    requires forall k :: n <= k < n + length ==> text[k] == text[k - distance]
    ensures Expand(from, ts + [Match(length, distance)]) == Some(text[..n + length])
  {
    ExpandSnoc(from, ts, Match(length, distance));
    CopyReproduces(text, n, length, distance);
  }

  lemma {:induction false} ExpandAppend(out: seq<byte>, a: seq<Token>, b: seq<Token>)
    requires Expand(out, a).Some?
    ensures Expand(out, a + b) == Expand(Expand(out, a).value, b)
    decreases |b|
  {
    if b == [] {
      assert a + b == a;
    } else {
      ExpandAppend(out, a, b[..|b| - 1]);
      assert (a + b)[..|a + b| - 1] == a + b[..|b| - 1];
    }
  }
}
