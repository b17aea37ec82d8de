/**
 The string matcher and the lazy evaluation loop of the compressor (archival/gzip.c,
 lm_init, longest_match, fill_window and deflate).
 */
module Deflate {
  import opened RollingHash
  import opened Lz77
  import opened Options
  import opened HashChains
  import opened ChainSearch
  import opened LazyParse
  import opened WindowSearch
  import opened TokenBuffers
  import opened BlockForms
  import opened BlockEnds
  import opened Blocks

  const NICE_MATCH := 258

  /** The blocks and the pending tokens stand for the text up to p; the blocks alone up to b. */
  ghost predicate TextCovered(bs: seq<Block>, pending: seq<Token>, text: seq<byte>, b: int, p: int) {
    && 0 <= b <= p <= |text|
    && ExpandBlocks(bs) == Some(text[..b])
    && Expand(text[..b], pending) == Some(text[..p])
  }

  /** The text at s repeats what stands at m, for length bytes, near enough to refer to. */
  ghost predicate TextRepeated(text: seq<byte>, m: int, s: int, length: nat) {
    && 0 <= m < s && s - m <= MAX_DIST && s + length <= |text|
    && MatchAt(text, m, s, length)
  }

  lemma NothingYet(text: seq<byte>)
    ensures TextCovered([], [], text, 0, 0)
  {
  }

  lemma MoreText(bs: seq<Block>, pending: seq<Token>, text: seq<byte>, text': seq<byte>, b: int, p: int)
    requires TextCovered(bs, pending, text, b, p) && text <= text'
    ensures TextCovered(bs, pending, text', b, p)
  {
    assert text'[..b] == text[..b];
    assert text'[..p] == text[..p];
  }

  /** The tokens so far are chosen from the text up to p; the first ones are in the blocks, the others pending. */
  ghost predicate Trailed(bs: seq<Block>, pending: seq<Token>, text: seq<byte>, trail: seq<Choice>, flushed: nat, p: int) {
    && flushed <= |trail| && TokensOk(Tokens(trail)) && Tokens(trail)[flushed..] == pending && Lasts(pending)
    && Divided(bs, Tokens(trail)[..flushed], false) && Chosen(text, trail) && End(trail) == p
  }

  lemma NoTrail(text: seq<byte>)
    ensures Trailed([], [], text, [], 0, 0)
  {
  }

  /** The pending tokens do not fill a block. */
  predicate Roomy(pending: seq<Token>) {
    TokensOk(pending) && |pending| + 1 < LIT_BUFSIZE && (pending != [] ==> !Full(pending))
  }

  lemma TrailMore(bs: seq<Block>, pending: seq<Token>, text: seq<byte>, trail: seq<Choice>, flushed: nat, p: int, x: Choice)
    requires Trailed(bs, pending, text, trail, flushed, p) && Next(text, trail, x) && Roomy(pending) && TokenOk(x.token)
    ensures Trailed(bs, pending + [x.token], text, trail + [x], flushed, p + Width(x.token))
  {
    hide Divided, Chosen, Next, End, Lasts, Full, TokenOk;
    ChosenMore(text, trail, x);
    LastsMore(pending, x.token);
    var ts := Tokens(trail);
    assert (ts + [x.token])[..flushed] == ts[..flushed] && (ts + [x.token])[flushed..] == ts[flushed..] + [x.token];
  }

  /** A block with the pending tokens, or their text, takes them. */
  lemma TrailFlush(bs: seq<Block>, pending: seq<Token>, text: seq<byte>, trail: seq<Choice>, flushed: nat,
                   b: int, p: int, block: Block, final: bool)
    requires Trailed(bs, pending, text, trail, flushed, p) && TextCovered(bs, pending, text, b, p)
    requires block == Coded(pending) || block == Stored(text[b..p])
    requires final || (pending != [] && TokensOk(pending) && Full(pending))
    ensures TokensOk(Tokens(trail)) && Divided(bs + [block], Tokens(trail), final) && ExpandBlocks(bs + [block]) == Some(text[..p])
    ensures !final ==> Trailed(bs + [block], [], text, trail, |trail|, p)
  {
    hide Divided, Chosen, End, ExpandBlocks, Expand, Full, TokenOk;
    var ts := Tokens(trail);
    assert text[..b] + text[b..p] == text[..p];
    DividedMore(bs, ts[..flushed], pending, block, final);
    ExpandBlocksSnoc(bs, block);
    assert ts[..flushed] + ts[flushed..] == ts && ts[..|ts|] == ts && ts[|ts|..] == [];
  }

  lemma TrailGrown(bs: seq<Block>, pending: seq<Token>, text: seq<byte>, text': seq<byte>, trail: seq<Choice>, flushed: nat, p: int)
    requires Trailed(bs, pending, text, trail, flushed, p) && text <= text' && (text' == text || Settled(trail, |text|))
    ensures Trailed(bs, pending, text', trail, flushed, p)
  {
    hide Divided, Chosen, End, Settled, Lasts, TokenOk;
    if text' != text {
      ChosenGrown(text, text', trail);
    }
  }

  lemma TrailEnd(bs: seq<Block>, pending: seq<Token>, text: seq<byte>, trail: seq<Choice>, flushed: nat, p: int)
    requires Trailed(bs, pending, text, trail, flushed, p)
    ensures End(trail) == p && Chosen(text, trail)
  {
    hide Divided, Chosen, End, Lasts;
  }

  /** A block was added for the tokens: its text is offered for storing if it is available, and sent if that is chosen. */
  ghost predicate Added(was: seq<Block>, now: seq<Block>, sent: Sending, ts: seq<Token>, available: bool,
                        text: seq<byte>, b: int, p: int)
  {
    && 0 <= b <= p <= |text| && Accounted(sent, ts, available, p - b)
    && now == was + [if sent.form == StoredForm then Stored(text[b..p]) else Coded(ts)]
    && ExpandBlocks(now) == Some(text[..p])
  }

  lemma AddedText(was: seq<Block>, now: seq<Block>, sent: Sending, ts: seq<Token>, available: bool, text: seq<byte>, b: int, p: int)
    requires Added(was, now, sent, ts, available, text, b, p)
    ensures TextCovered(now, [], text, p, p)
  {
    hide Accounted;
  }

  /** What one turn at position s adds: the token for the position before, if that waits for one. */
  ghost predicate Turned(text: seq<byte>, s: nat, available: bool, pend: Hit, hit: Hit, was: seq<Choice>, now: seq<Choice>) {
    if available then 0 < s <= |text| && now == was + [Choice(Adopted(text, s - 1, pend, hit), pend, hit)] else now == was
  }

  class Deflater {
    const window: array<byte>
    const prev: array<nat>
    const head: array<nat>
    const blocks: BlockWriter

    var strStart: nat     // start of string to insert
    var lookahead: nat    // number of valid bytes ahead in window
    var insH: nat         // hash index of string to be inserted
    var matchStart: int   // start of matching string
    var prevLength: nat   // length of the best match at the previous step
    var blockStart: int   // window position at the start of the current block
    var eofile: bool      // set at end of input
    var unread: seq<byte> // input not yet delivered by read_buf
    var readError: bool   // read_buf has failed

    ghost var text: seq<byte>  // input delivered so far
    ghost var base: nat        // how far the window has slid over the input
    ghost var end: nat         // window positions below this hold input
    ghost var inserted: nat    // window positions below this are in the dictionary
    ghost var trail: seq<Choice>  // the tokens so far, with the searches behind them
    ghost var flushed: nat        // how many of them are in blocks
    ghost var pend: Hit           // what the search at the previous position found

    ghost predicate WindowOk()
      reads this`text, this`base, this`end, window
    {
      && window.Length == 2 * WSIZE + MAX_MATCH
      && end <= 2 * WSIZE && base + end == |text|
      && forall i :: 0 <= i < end ==> window[i] == text[base + i]
    }

    /** The start of the window is fixed by how often it moved, and moving left what matches can reach. */
    ghost predicate BaseOk()
      reads this`base, this`strStart
    {
      Based(base, base + strStart)
    }

    ghost predicate DictOk()
      reads this`inserted, window, prev, head
    {
      && prev != head
      && ChainsOk(window[..], prev[..], head[..], inserted)
    }

    ghost predicate KeyOk()
      reads this`insH, this`inserted, window
    {
      KeyReady(insH, window[..], inserted)
    }

    /** The buffers have their sizes and are apart from the block writer. */
    ghost predicate Separate()
      reads blocks
    {
      && window.Length == 2 * WSIZE + MAX_MATCH && prev.Length == WSIZE && head.Length == HASH_SIZE
      && prev != head
      && {this, window, prev, head} !! blocks.Repr
    }

    constructor (writer: BlockWriter, input: seq<byte>)
      requires writer.Valid()
      ensures blocks == writer && unread == input && !readError && text == [] && trail == [] && flushed == 0
      ensures fresh(window) && fresh(prev) && fresh(head) && Separate()
    {
      hide BlockWriter.Valid;
      window, prev, head := new byte[2 * WSIZE + MAX_MATCH], new nat[WSIZE], new nat[HASH_SIZE];
      blocks, unread, readError, eofile := writer, input, false, false;
      strStart, lookahead, insH, matchStart, prevLength, blockStart := 0, 0, 0, 0, 0, 0;
      text, base, end, inserted := [], 0, 0, 0;
      trail, flushed := [], 0;
    }

    /** INSERT_STRING at strStart: returns the previous head of the chain. */
    method InsertString() returns (hashHead: nat)
      requires DictOk() && KeyOk() && inserted == strStart && strStart + 2 < window.Length
      modifies this`insH, this`inserted, prev, head
      ensures DictOk() && KeyOk() && inserted == strStart + 1
      ensures LinkOk(window[..], hashHead, strStart, KeyAt(window[..], strStart))
    {
      hide UpdateHash, Hash3;
      ghost var w, p, h := window[..], prev[..], head[..];
      KeyStep(insH, w, strStart);
      InsertKeepsChains(w, p, h, strStart);
      insH := UpdateHash(insH, window[strStart + 2]);
      hashHead := head[insH];
      prev[strStart % WSIZE] := hashHead;
      head[insH] := strStart;
      inserted := inserted + 1;
      assert prev[..] == p[strStart % WSIZE := hashHead];
      assert head[..] == h[insH := strStart];
    }

    /** The comparison loop: eight bytes between checks of the end of the string. */
    method CompareRun(scan: nat, match_: nat) returns (len: nat)
      requires match_ < scan && scan + MAX_MATCH < window.Length
      ensures 3 <= len <= MAX_MATCH
      ensures Repeats(window[..], scan - match_, scan + 3, scan + len)
      ensures len < MAX_MATCH ==> window[match_ + len] != window[scan + len]
    {
      len := 2;
      var equal := true;
      while equal && len < MAX_MATCH
        invariant 2 <= len <= MAX_MATCH && (equal ==> len % 8 == 2)
        invariant len == 2 ==> equal
        invariant Repeats(window[..], scan - match_, scan + 3, scan + len)
        invariant equal && len > 2 ==> window[match_ + len] == window[scan + len]
        invariant !equal ==> window[match_ + len] != window[scan + len]
        decreases MAX_MATCH - len, equal
      {
        var i := 0;
        ghost var start := len;
        while i < 8 && equal
          invariant 0 <= i <= 8 && len == start + i
          invariant len == 2 ==> equal
          invariant Repeats(window[..], scan - match_, scan + 3, scan + len)
          invariant equal && len > 2 ==> window[match_ + len] == window[scan + len]
          invariant !equal ==> i > 0 && window[match_ + len] != window[scan + len]
        {
          len := len + 1;
          equal := window[scan + len] == window[match_ + len];
          i := i + 1;
        }
      }
    }

    /** A position on the chain of the string at strStart, near enough to be followed. */
    ghost predicate Candidate(c: nat)
      reads this`strStart, window
    {
      && 0 < c < strStart && strStart - c <= MAX_DIST && strStart + 2 < window.Length
      && HasKey(window[..], c, KeyAt(window[..], strStart))
    }

    /** The link of a candidate leads to another candidate, or to the end of the search. */
    lemma NextCandidate(c: nat)
      requires DictOk() && inserted == strStart + 1 && Candidate(c)
      ensures prev[c % WSIZE] > Limit(strStart) ==> Candidate(prev[c % WSIZE])
    {
      assert SlotOk(window[..], prev[..], c);
    }

    /** A match of the given length for the string at strStart. */
    ghost predicate At(m: int, length: nat)
      reads this`strStart, window
    {
      && 0 < m < strStart && strStart - m <= MAX_DIST && strStart + length <= window.Length
      && MatchAt(window[..], m, strStart, length)
    }

    /** The length of the match at c if it is longer than best, else something not above best. */
    method MatchLength(c: nat, best: nat) returns (len: nat)
      requires window.Length == 2 * WSIZE + MAX_MATCH && strStart < 2 * WSIZE
      requires Candidate(c) && 1 <= best < MAX_MATCH
      ensures len <= MAX_MATCH
      ensures len > best ==> MatchAt(window[..], c, strStart, len)
      ensures len > best && len < MAX_MATCH ==> !MatchAt(window[..], c, strStart, len + 1)
      ensures len <= best ==> !MatchAt(window[..], c, strStart, best + 1)
    {
      hide UpdateHash;
      var scan := strStart;
      ghost var w := window[..];
      ghost var d := scan - c;
      if window[c + best] != window[scan + best] || window[c + best - 1] != window[scan + best - 1] ||
         window[c] != window[scan] || window[c + 1] != window[scan + 1] {
        assert w[scan + best - d] != w[scan + best] || w[scan + best - 1 - d] != w[scan + best - 1] ||
               w[scan - d] != w[scan] || w[scan + 1 - d] != w[scan + 1];
        return 0;
      }
      ThirdByteForced(w[scan], w[scan + 1], w[scan + 2], w[c + 2]);
      len := CompareRun(scan, c);
      assert len < MAX_MATCH ==> w[scan + len - d] != w[scan + len];
    }

    /**
     The longest match for the string at strStart among the chain positions visited.
     A result equal to prevLength means that none of them is longer than that.
     */
    method LongestMatch(hashHead: nat) returns (bestLen: nat)
      requires WindowOk() && DictOk() && inserted == strStart + 1 && strStart < 2 * WSIZE
      requires 0 < hashHead < strStart && strStart - hashHead <= MAX_DIST
      requires HasKey(window[..], hashHead, KeyAt(window[..], strStart))
      requires 1 <= prevLength < MAX_MATCH
      modifies this`matchStart
      ensures prevLength <= bestLen <= MAX_MATCH
      ensures bestLen == prevLength ==> matchStart == old(matchStart)
      ensures bestLen > prevLength ==> At(matchStart, bestLen)
      ensures var chain := Chain(prev[..], hashHead, Limit(strStart), Budget(prevLength));
              && NoneLonger(window[..], strStart, bestLen, chain)
              && (bestLen > prevLength ==> matchStart in chain && Nearest(window[..], strStart, bestLen, chain, matchStart))
    {
      hide Chain, MatchAt, KeyAt, SlotOk, LinkOk, Nearest;
      var chainLength := MAX_CHAIN_LENGTH;
      if prevLength >= GOOD_MATCH {
        chainLength := chainLength / 4;
      }
      var limit := if strStart > MAX_DIST then strStart - MAX_DIST else NIL;
      var cur: nat := hashHead;
      bestLen := prevLength;
      ghost var w, chain := window[..], Chain(prev[..], hashHead, limit, chainLength);
      while true
        invariant Candidate(cur) && limit == Limit(strStart) && w == window[..]
        invariant 0 < chainLength && prevLength <= bestLen < MAX_MATCH
        invariant bestLen == prevLength ==> matchStart == old(matchStart)
        invariant bestLen > prevLength ==> At(matchStart, bestLen)
        invariant bestLen > prevLength ==> matchStart in chain && Nearest(w, strStart, bestLen, chain, matchStart)
        invariant forall x :: x in Chain(prev[..], cur, limit, chainLength) ==> x in chain
        invariant NoneLongerUpTo(w, strStart, bestLen, chain, Chain(prev[..], cur, limit, chainLength))
        decreases chainLength
      {
        var len := MatchLength(cur, bestLen);
        VisitCandidate(w, strStart, bestLen, if len > bestLen then len else bestLen,
                       prev[..], chain, cur, limit, chainLength);
        ChainSteps(prev[..], cur, limit, chainLength, chain);
        if len > bestLen {
          NearestAt(w, strStart, bestLen, len, prev[..], head[..], chain, cur, chainLength);
          matchStart := cur;
          bestLen := len;
          if len >= NICE_MATCH {
            break;
          }
        }
        NextCandidate(cur);
        cur := prev[cur % WSIZE];
        if !(cur > limit) || chainLength == 1 {
          break;
        }
        chainLength := chainLength - 1;
      }
    }

    /** All of the input: what has been delivered and what has not. */
    ghost function Input(): seq<byte>
      reads this`text, this`unread
    {
      text + unread
    }

    /** read_buf: delivers any non-empty part of the input that fits, or nothing at its end or on an error. */
    method ReadBuf(limit: nat) returns (chunk: seq<byte>)
      requires 0 < limit
      modifies this`unread, this`readError
      ensures |chunk| <= limit && chunk + unread == old(unread)
      ensures chunk == [] && !readError ==> unread == []
      ensures old(readError) ==> readError
    {
      var n: nat :| n <= limit && n <= |unread|;
      if n == 0 && unread != [] {
        readError := true;
      }
      chunk, unread := unread[..n], unread[n..];
    }

    method MoveWindow()
      requires window.Length == 2 * WSIZE + MAX_MATCH
      modifies window
      ensures SlidFrom(window[..], old(window[..]))
      ensures forall i :: 0 <= i < WSIZE ==> window[i] == old(window[i + WSIZE])
    {
      forall i | 0 <= i < WSIZE {
        window[i] := window[i + WSIZE];
      }
    }

    static method SlideTable(a: array<nat>)
      modifies a
      ensures forall i :: 0 <= i < a.Length ==> a[i] == Slid(old(a[i]))
    {
      for n := 0 to a.Length
        invariant forall i :: 0 <= i < n ==> a[i] == Slid(old(a[i]))
        invariant forall i :: n <= i < a.Length ==> a[i] == old(a[i])
      {
        var m := a[n];
        a[n] := if m >= WSIZE then m - WSIZE else NIL;
      }
    }

    /** memcpy of the upper half of the window onto the lower half, with the dictionary moved along. */
    method Slide()
      requires WindowOk() && DictOk() && prev.Length == WSIZE && head.Length == HASH_SIZE
      requires inserted == strStart && strStart + lookahead == end && WSIZE + MAX_DIST <= strStart && 2 <= lookahead
      modifies this`strStart, this`matchStart, this`blockStart
      modifies this`base, this`end, this`inserted, window, prev, head
      ensures WindowOk() && DictOk() && inserted == strStart && end == strStart + lookahead
      ensures (old(KeyOk()) ==> KeyOk()) && (old(BaseOk()) ==> BaseOk())
      ensures strStart == old(strStart) - WSIZE && matchStart == old(matchStart) - WSIZE
      ensures blockStart == old(blockStart) - WSIZE && base == old(base) + WSIZE
    {
      hide KeyAt, LinkOk, SlotOk, BlockWriter.Valid;
      ghost var w, p, h := window[..], prev[..], head[..];
      MoveWindow();
      SlideTable(head);
      SlideTable(prev);
      SlideKeepsChains(w, p, h, inserted, window[..], prev[..], head[..]);
      SlideKeepsKey(insH, w, window[..], inserted);
      matchStart, strStart, blockStart := matchStart - WSIZE, strStart - WSIZE, blockStart - WSIZE;
      base, end, inserted := base + WSIZE, end - WSIZE, inserted - WSIZE;
    }

    method CopyIn(chunk: seq<byte>, at: nat)
      requires at + |chunk| <= window.Length
      modifies window
      ensures forall i :: 0 <= i < at ==> window[i] == old(window[i])
      ensures forall i :: at <= i < at + |chunk| ==> window[i] == chunk[i - at]
    {
      forall i | at <= i < at + |chunk| {
        window[i] := chunk[i - at];
      }
    }

    /** An empty dictionary: no chain has a position, whatever the window and the links hold. */
    method ClearDictionary()
      requires window.Length == 2 * WSIZE + MAX_MATCH && prev.Length == WSIZE && head.Length == HASH_SIZE && prev != head
      modifies this`inserted, head
      ensures DictOk() && inserted == 0
    {
      for n := 0 to HASH_SIZE
        invariant forall h :: 0 <= h < n ==> head[h] == NIL
      {
        head[n] := NIL;
      }
      inserted := 0;
    }

    /** The key of the first MIN_MATCH - 1 bytes. */
    method InitHash()
      requires inserted == 0 && 2 < window.Length
      modifies this`insH
      ensures KeyOk()
    {
      insH := 0;
      for j := 0 to MIN_MATCH - 1
        invariant j == 0 ==> insH == 0
        invariant j == 1 ==> insH == UpdateHash(0, window[0])
        invariant j == 2 ==> insH == UpdateHash(UpdateHash(0, window[0]), window[1])
      {
        insH := UpdateHash(insH, window[j]);
      }
    }

    /** Puts a chunk of input behind the valid bytes of the window. */
    method Append(chunk: seq<byte>)
      requires WindowOk() && DictOk() && inserted == strStart && strStart + lookahead == end
      requires end + |chunk| <= 2 * WSIZE && (strStart == 0 || 2 <= lookahead)
      modifies this`text, this`end, this`lookahead, window
      ensures WindowOk() && DictOk() && strStart + lookahead == end
      ensures text == old(text) + chunk && lookahead == old(lookahead) + |chunk|
      ensures 2 <= old(lookahead) && old(KeyOk()) ==> KeyOk()
    {
      ghost var w := window[..];
      var at := strStart + lookahead;
      CopyIn(chunk, at);
      ReadKeepsChains(w, window[..], prev[..], head[..], inserted);
      lookahead := lookahead + |chunk|;
      text, end := text + chunk, end + |chunk|;
    }

    /** Makes room if the window is almost full, then reads; sets eofile if there is nothing to read. */
    method FillWindow()
      requires WindowOk() && DictOk() && prev.Length == WSIZE && head.Length == HASH_SIZE
      requires inserted == strStart && strStart + lookahead == end
      requires lookahead < MIN_LOOKAHEAD && !eofile && (strStart == 0 || 2 <= lookahead)
      modifies this`strStart, this`matchStart, this`blockStart, this`lookahead, this`eofile
      modifies this`unread, this`readError, this`text, this`base, this`end, this`inserted
      modifies window, prev, head
      ensures WindowOk() && DictOk() && inserted == strStart && strStart + lookahead == end
      ensures (2 <= old(lookahead) && old(KeyOk()) ==> KeyOk()) && (old(BaseOk()) ==> BaseOk())
      ensures base + strStart == old(base + strStart) && base + matchStart == old(base + matchStart)
      ensures base + blockStart == old(base + blockStart) && (old(strStart) == 0 <==> strStart == 0)
      ensures Input() == old(Input()) && old(text) <= text
      ensures lookahead >= old(lookahead) && lookahead + |unread| == old(lookahead + |unread|)
      ensures |unread| < old(|unread|) || (eofile && |unread| == old(|unread|))
      ensures eofile && !readError ==> unread == []
    {
      hide DictOk, KeyOk, ChainsOk, BlockWriter.Valid;
      var more := 2 * WSIZE - lookahead - strStart;
      if strStart >= WSIZE + MAX_DIST {
        Slide();
        more := more + WSIZE;
      }
      assert more >= 2;
      var chunk := ReadBuf(more);
      if chunk == [] {
        eofile := true;
      } else {
        Append(chunk);
      }
    }

    /** The state between the steps of deflate. */
    ghost predicate Ready()
      reads this, window, prev, head, blocks, blocks.Repr
    {
      && Separate() && blocks.Valid() && !blocks.done
      && WindowOk() && DictOk() && BaseOk() && strStart + lookahead == end
      && (eofile && !readError ==> unread == [])
    }

    /** The blocks and the pending tokens stand for the input up to the window position p. */
    ghost predicate Covers(p: int)
      reads this`base, this`blockStart, this`text, this`trail, this`flushed, blocks
    {
      && TextCovered(blocks.blocks, blocks.pending, text, base + blockStart, base + p)
      && Trailed(blocks.blocks, blocks.pending, text, trail, flushed, base + p)
    }

    /** As Covers, with room for another token. */
    ghost predicate Emitted(p: int)
      reads this`base, this`blockStart, this`text, this`trail, this`flushed, blocks
    {
      Covers(p) && Roomy(blocks.pending)
    }

    /** The input at window position s repeats what stands at window position m, for length bytes. */
    ghost predicate Reference(m: int, s: int, length: nat)
      reads this`base, this`text
    {
      TextRepeated(text, base + m, base + s, length)
    }

    /** The pending tokens fill a block. */
    ghost predicate Filled()
      reads blocks
    {
      blocks.pending != [] && TokensOk(blocks.pending) && Full(blocks.pending)
    }

    /** FLUSH_BLOCK: the text of the block is offered exactly if the window still holds it. */
    method Flush(eof: bool) returns (ghost sent: Sending)
      requires Separate() && WindowOk() && blocks.Valid() && !blocks.done && strStart <= end
      requires Covers(strStart) && (eof || Filled())
      modifies this`flushed, blocks.Repr
      ensures blocks.Valid() && blocks.Repr == old(blocks.Repr) && blocks.done == eof
      ensures blocks.pending == []
      ensures Added(old(blocks.blocks), blocks.blocks, sent, old(blocks.pending), blockStart >= 0,
                    text, base + blockStart, base + strStart)
      ensures !eof ==> Trailed(blocks.blocks, [], text, trail, flushed, base + strStart)
      ensures TokensOk(Tokens(trail)) && Divided(blocks.blocks, Tokens(trail), eof)
    {
      hide ExpandBlocks, Expand, ExpandToken, BlockWriter.Valid, Accounted, Divided, Chosen, End, Full, Lasts, TokenOk;
      var buf := if blockStart >= 0 then Some(window[blockStart..strStart]) else None;
      assert blockStart >= 0 ==> window[blockStart..strStart] == text[base + blockStart..base + strStart];
      ghost var bs, pending := blocks.blocks, blocks.pending;
      sent := blocks.FlushBlock(buf, strStart - blockStart, eof);
      TrailFlush(bs, pending, text, trail, flushed, base + blockStart, base + strStart, blocks.blocks[|bs|], eof);
      flushed := |trail|;
    }

    /** A match in the window, cut at the end of the input, is a repetition in the input. */
    lemma FoundInText(m: int, found: nat, length: nat)
      requires WindowOk() && strStart + lookahead == end && At(m, found)
      requires length <= found && length <= lookahead
      ensures Reference(m, strStart, length)
    {
      var d := strStart - m;
      forall p | base + strStart <= p < base + strStart + length
        ensures text[p] == text[p - d]
      {
        assert window[p - base] == window[..][p - base] == window[..][p - base - d];
      }
    }

    /** Finds a match for the string at strStart that is longer than the previous one, as the text says. */
    method FindMatch(hashHead: nat) returns (matchLength: nat, ghost hit: Hit)
      requires WindowOk() && DictOk() && BaseOk() && strStart + lookahead == end
      requires inserted == strStart + 1 && 0 < lookahead
      requires LinkOk(window[..], hashHead, strStart, KeyAt(window[..], strStart))
      requires 1 <= prevLength <= MAX_MATCH
      modifies this`matchStart
      ensures 1 <= matchLength <= MAX_MATCH
      ensures hit.len == matchLength && Searched(text, base + strStart, prevLength, hit)
      ensures matchLength >= MIN_MATCH && matchLength > prevLength ==>
                hit.at == base + matchStart && Reference(matchStart, strStart, matchLength)
    {
      hide ChainsOk, LinkOk, KeyAt, HasKey, Chain, MatchAt, NoneLonger, Nearest, Searched, Missed;
      matchLength := MIN_MATCH - 1;
      ghost var w, p, h := window[..], prev[..], head[..];
      WindowShows();
      if hashHead != NIL && prevLength < MAX_LAZY_MATCH && strStart - hashHead <= MAX_DIST {
        HeadIs(hashHead);
        matchLength := LongestMatch(hashHead);
        ghost var found := matchLength;
        if matchLength > lookahead {
          matchLength := lookahead;
        }
        if matchLength == MIN_MATCH && strStart - matchStart > TOO_FAR {
          matchLength := matchLength - 1;
        }
        if found > prevLength {
          FoundInText(matchStart, found, matchLength);
        }
        SearchShown(w, p, h, strStart, hashHead, text, base, end, prevLength, found, matchStart);
        hit := Hit(matchLength, if found > prevLength then base + matchStart else 0, base);
      } else {
        NoHead(w, strStart, hashHead, text, base, end, prevLength);
        hit := Hit(matchLength, 0, base);
        MissedIsSearched(text, base + strStart, prevLength, hit);
      }
    }

    lemma WindowShows()
      requires WindowOk()
      ensures Shows(window[..], text, base, end)
    {
    }

    lemma HeadIs(hashHead: nat)
      requires DictOk() && inserted == strStart + 1 && strStart + 2 < window.Length
      requires LinkOk(window[..], hashHead, strStart, KeyAt(window[..], strStart))
      requires hashHead != NIL && strStart - hashHead <= MAX_DIST
      ensures Heads(window[..], prev[..], head[..], strStart, hashHead)
      ensures 0 < hashHead < strStart && HasKey(window[..], hashHead, KeyAt(window[..], strStart))
    {
    }

    /** Inserts the rest of a match whose first two strings are in the dictionary already. */
    method InsertMatched(count: nat)
      requires 0 < count && DictOk() && KeyOk() && inserted == strStart + 1
      requires strStart + count + 2 < window.Length
      modifies this`strStart, this`insH, this`inserted, this`prevLength, prev, head
      ensures DictOk() && KeyOk() && strStart == old(strStart) + count + 1 && inserted == strStart
    {
      prevLength := count;
      while prevLength != 0
        invariant prevLength <= count && strStart == old(strStart) + (count - prevLength)
        invariant DictOk() && KeyOk() && inserted == strStart + 1
      {
        strStart := strStart + 1;
        var _ := InsertString();
        prevLength := prevLength - 1;
      }
      strStart := strStart + 1;
    }

    /** When the next token fills the block. */
    lemma TallyEnds(t: Token)
      requires Emitted(strStart - 1) && TokenOk(t)
      ensures TokensOk(blocks.pending + [t])
      ensures Full(blocks.pending + [t]) <==> BlockFull(blocks.pending + [t], strStart - blockStart)
      ensures |blocks.pending| + 1 == LIT_BUFSIZE - 1 ==> Full(blocks.pending + [t])
    {
      hide Trailed, Estimate, Matches, TokenOk;
      FullIs(blocks.pending, t);
      ExpandWidths(text[..base + blockStart], blocks.pending);
    }

    /** Tallies the reference from position s to position m. */
    method TallyMatch(m: int, s: nat, length: nat, ghost x: Choice) returns (flush: bool)
      requires Separate() && blocks.Valid() && !blocks.done && Emitted(s)
      requires MIN_MATCH <= length <= MAX_MATCH && Reference(m, s, length)
      requires Next(text, trail, x) && x.token == Match(length, s - m) && s == strStart - 1
      modifies this`trail, blocks.Repr
      ensures Separate() && blocks.Valid() && !blocks.done && blocks.Repr == old(blocks.Repr)
      ensures Covers(s + length) && (if flush then Filled() else Emitted(s + length)) && trail == old(trail) + [x]
    {
      hide BlockWriter.Valid, Trailed, Next, Full, BlockFull, Widths;
      TallyEnds(x.token);
      MatchExtends(text[..base + blockStart], blocks.pending, text, base + s, length, s - m);
      TrailMore(blocks.blocks, blocks.pending, text, trail, flushed, base + s, x);
      flush := blocks.Tally(s - m, length - MIN_MATCH, strStart - blockStart);
      trail := trail + [x];
    }

    /** Tallies the byte at position s as a literal. */
    method TallyLiteral(s: nat, ghost x: Choice) returns (flush: bool)
      requires Separate() && blocks.Valid() && !blocks.done && Emitted(s) && WindowOk() && s < end
      requires Next(text, trail, x) && x.token == Literal(window[s]) && s == strStart - 1
      modifies this`trail, blocks.Repr
      ensures Separate() && blocks.Valid() && !blocks.done && blocks.Repr == old(blocks.Repr)
      ensures Covers(s + 1) && (if flush then Filled() else Emitted(s + 1)) && trail == old(trail) + [x]
    {
      hide BlockWriter.Valid, Trailed, Next, Full, BlockFull, Widths;
      TallyEnds(x.token);
      LiteralExtends(text[..base + blockStart], blocks.pending, text, base + s);
      TrailMore(blocks.blocks, blocks.pending, text, trail, flushed, base + s, x);
      flush := blocks.Tally(0, window[s] as nat, strStart - blockStart);
      trail := trail + [x];
    }

    /** Flushes the block if ct_tally asked for it. */
    method FlushIf(flush: bool)
      requires Separate() && WindowOk() && blocks.Valid() && !blocks.done && strStart <= end
      requires Covers(strStart) && if flush then Filled() else Emitted(strStart)
      modifies this`blockStart, this`flushed, blocks.Repr
      ensures Separate() && blocks.Valid() && !blocks.done && blocks.Repr == old(blocks.Repr)
      ensures Emitted(strStart)
    {
      hide WindowOk, BlockWriter.Valid, Trailed, Added, ExpandBlocks, Divided, Full;
      if flush {
        ghost var bs, ts, b := blocks.blocks, blocks.pending, blockStart;
        ghost var sent := Flush(false);
        AddedText(bs, blocks.blocks, sent, ts, b >= 0, text, base + b, base + strStart);
        blockStart := strStart;
      }
    }

    /** Adopts the match at the previous position. */
    method EmitMatch(prevMatch: int, ghost x: Choice)
      requires Ready() && KeyOk() && inserted == strStart + 1 && Emitted(strStart - 1) && 0 < strStart
      requires MIN_MATCH <= prevLength <= MAX_MATCH && Reference(prevMatch, strStart - 1, prevLength)
      requires Next(text, trail, x) && x.token == Match(prevLength, strStart - 1 - prevMatch)
      modifies this`strStart, this`lookahead, this`insH, this`prevLength, this`blockStart
      modifies this`inserted, this`trail, this`flushed, prev, head, blocks.Repr
      ensures Ready() && KeyOk() && inserted == strStart && Emitted(strStart)
      ensures lookahead == old(lookahead) - (old(prevLength) - 1) && blocks.Repr == old(blocks.Repr)
      ensures trail == old(trail) + [x]
    {
      hide DictOk, KeyOk, TextCovered, MatchAt, ChainsOk, KeyReady, BlockWriter.Valid, Trailed, Next, Full, TokenOk, Roomy, Filled;
      var flush := TallyMatch(prevMatch, strStart - 1, prevLength, x);
      lookahead := lookahead - (prevLength - 1);
      InsertMatched(prevLength - 2);
      FlushIf(flush);
    }

    /** Emits the byte before strStart as a literal and moves on. */
    method EmitLiteral(ghost x: Choice)
      requires Ready() && KeyOk() && inserted == strStart + 1 && Emitted(strStart - 1) && 0 < strStart && 0 < lookahead
      requires Next(text, trail, x) && x.token == Literal(window[strStart - 1])
      modifies this`strStart, this`lookahead, this`blockStart, this`trail, this`flushed, blocks.Repr
      ensures Ready() && KeyOk() && inserted == strStart && Emitted(strStart - 1)
      ensures strStart == old(strStart) + 1 && lookahead == old(lookahead) - 1 && blocks.Repr == old(blocks.Repr)
      ensures trail == old(trail) + [x]
    {
      hide DictOk, KeyOk, TextCovered, TextRepeated, ChainsOk, KeyReady, BlockWriter.Valid, Trailed, Next,
           Full, TokenOk, Roomy, Filled;
      var flush := TallyLiteral(strStart - 1, x);
      FlushIf(flush);
      strStart, lookahead := strStart + 1, lookahead - 1;
    }

    /** The search at the previous position, if there was one, whose result waits for the next one. */
    ghost predicate Waiting(available: bool, length: nat)
      reads this`text, this`base, this`strStart, this`matchStart, this`trail, this`pend
    {
      if available then
        && 0 < strStart && pend.len == length && Waits(text, trail, base + strStart - 1, pend)
        && (length >= MIN_MATCH ==> pend.at == base + matchStart)
      else length == MIN_MATCH - 1 && !AfterLiteral(trail)
    }

    /**
     The state at the top of the lazy evaluation loop: if a match is pending, it is one for the
     string before strStart, and that string is all that the tokens do not cover yet.
     */
    ghost predicate Lazy(available: bool, length: nat)
      reads this, window, prev, head, blocks, blocks.Repr
    {
      && Ready() && KeyOk() && inserted == strStart
      && Emitted(strStart - if available then 1 else 0)
      && (available ==> 0 < strStart)
      && 1 <= length <= MAX_MATCH
      && (length >= MIN_MATCH ==> available && Reference(matchStart, strStart - 1, length))
      && Waiting(available, length)
      && (eofile || (Settled(trail, |text|) && (available ==> MAX_MATCH <= lookahead)))
    }

    method FillOnce(ghost available: bool, ghost length: nat)
      requires Lazy(available, length) && 2 <= lookahead < MIN_LOOKAHEAD && !eofile
      modifies this`strStart, this`matchStart, this`blockStart, this`lookahead, this`eofile
      modifies this`unread, this`readError, this`text, this`base, this`end, this`inserted
      modifies window, prev, head
      ensures Lazy(available, length) && 2 <= lookahead
      ensures |unread| < old(|unread|) || (eofile && |unread| == old(|unread|))
      ensures Input() == old(Input()) && lookahead + |unread| == old(lookahead + |unread|)
    {
      hide DictOk, KeyOk, ExpandBlocks, Expand, BlockWriter.Valid, Trailed, Searched, Settled, End;
      ghost var before := text;
      TextAhead();
      FillWindow();
      MoreText(blocks.blocks, blocks.pending, before, text, base + blockStart,
               base + (strStart - if available then 1 else 0));
      TrailGrown(blocks.blocks, blocks.pending, before, text, trail, flushed, base + (strStart - if available then 1 else 0));
      SettledMore(trail, |before|, |text|);
      if available {
        SearchedGrown(before, text, base + strStart - 1, Carry(trail), pend);
      }
    }

    /** Keeps enough lookahead, except at the end of the input. */
    method FillLookahead(ghost available: bool, ghost length: nat)
      requires Lazy(available, length) && (eofile || 2 <= lookahead)
      modifies this`strStart, this`matchStart, this`blockStart, this`lookahead, this`eofile
      modifies this`unread, this`readError, this`text, this`base, this`end, this`inserted
      modifies window, prev, head
      ensures Lazy(available, length) && (eofile || MIN_LOOKAHEAD <= lookahead)
      ensures Input() == old(Input()) && lookahead + |unread| == old(lookahead + |unread|)
    {
      hide Ready, DictOk, KeyOk, WindowOk, TextCovered, TextRepeated, BlockWriter.Valid, Trailed, Searched, Settled, Waiting;
      while lookahead < MIN_LOOKAHEAD && !eofile
        invariant Lazy(available, length) && (eofile || 2 <= lookahead)
        invariant Input() == old(Input()) && lookahead + |unread| == old(lookahead + |unread|)
        decreases |unread|, !eofile
      {
        FillOnce(available, length);
      }
    }

    /** The state after the search at strStart, which found hit: the previous position, if it waits, can be settled. */
    ghost predicate Probed(available: bool, length: nat, prevMatch: int, hit: Hit)
      reads this, window, prev, head, blocks, blocks.Repr
    {
      && Ready() && KeyOk() && inserted == strStart + 1 && 0 < lookahead
      && Emitted(strStart - if available then 1 else 0)
      && 1 <= length <= MAX_MATCH && prevLength == length && 1 <= hit.len <= MAX_MATCH
      && (length >= MIN_MATCH ==> available && pend.at == base + prevMatch && Reference(prevMatch, strStart - 1, length))
      && (if available then 0 < strStart && pend.len == length && Waits(text, trail, base + strStart - 1, pend)
          else length == MIN_MATCH - 1 && !AfterLiteral(trail))
      && (eofile || (Settled(trail, |text|) && MIN_LOOKAHEAD <= lookahead))
      && Searched(text, base + strStart, length, hit)
      && (hit.len >= MIN_MATCH && hit.len > length ==> hit.at == base + matchStart && Reference(matchStart, strStart, hit.len))
    }

    /** Inserts the string at strStart and looks for a match better than the pending one. */
    method Probe(ghost available: bool, length: nat) returns (prevMatch: int, length': nat, ghost hit: Hit)
      requires Lazy(available, length) && 0 < lookahead && (eofile || MIN_LOOKAHEAD <= lookahead)
      modifies this`insH, this`inserted, this`prevLength, this`matchStart, prev, head
      ensures Probed(available, length, prevMatch, hit) && hit.len == length'
    {
      hide TextCovered, TextRepeated, KeyReady, ChainsOk, BlockWriter.Valid, Trailed, Searched, Settled, LinkOk, Waits,
           Roomy, BaseOk, HasKey, KeyAt;
      var hashHead := InsertString();
      prevLength, prevMatch := length, matchStart;
      length', hit := FindMatch(hashHead);
    }

    /** The pending match is adopted, as the search at strStart found no longer one. */
    method Adopt(ghost length: nat, prevMatch: int, ghost hit: Hit)
      requires Probed(true, length, prevMatch, hit) && MIN_MATCH <= length && hit.len <= length
      modifies this`strStart, this`lookahead, this`insH, this`prevLength, this`blockStart
      modifies this`inserted, this`trail, this`flushed, prev, head, blocks.Repr
      ensures Lazy(false, MIN_MATCH - 1) && (eofile || 2 <= lookahead) && lookahead < old(lookahead)
      ensures blocks.Repr == old(blocks.Repr) && Turned(text, old(base + strStart), true, pend, hit, old(trail), trail)
    {
      hide DictOk, KeyOk, WindowOk, TextCovered, TextRepeated, BlockWriter.Valid, Trailed, Searched, Settled, Next, Waits, End;
      ghost var s, was := base + strStart - 1, trail;
      TextAhead();
      WaitsEnd(text, trail, s, pend);
      ReferenceRange(prevMatch, strStart - 1, length);
      ghost var x := Choice(Match(length, strStart - 1 - prevMatch), pend, hit);
      MatchNext(text, trail, s, pend, hit);
      EmitMatch(prevMatch, x);
      SettleNext(was, x);
    }

    /** The previous byte becomes a literal: there is no match, or the one at strStart is longer. */
    method Skip(ghost length: nat, ghost prevMatch: int, ghost hit: Hit)
      requires Probed(true, length, prevMatch, hit) && (length < MIN_MATCH || hit.len > length)
      modifies this`strStart, this`lookahead, this`blockStart, this`trail, this`flushed, this`pend, blocks.Repr
      ensures Lazy(true, hit.len) && (eofile || 2 <= lookahead) && lookahead < old(lookahead)
      ensures blocks.Repr == old(blocks.Repr) && Turned(text, old(base + strStart), true, old(pend), hit, old(trail), trail)
    {
      hide DictOk, KeyOk, WindowOk, TextCovered, TextRepeated, BlockWriter.Valid, Trailed, Searched, Settled, Next, Waits, End;
      ghost var s, was := base + strStart - 1, trail;
      TextAhead();
      WaitsEnd(text, trail, s, pend);
      ghost var x := Choice(Literal(window[strStart - 1]), pend, hit);
      LiteralNext(text, trail, s, pend, hit);
      EmitLiteral(x);
      SettleNext(was, x);
      TrailEnd(blocks.blocks, blocks.pending, text, trail, flushed, base + strStart - 1);
      WaitsAfter(text, was, x, s + 1);
      pend := hit;
    }

    /** There is no previous position to settle: the next step decides. */
    method Postpone(ghost length: nat, ghost prevMatch: int, ghost hit: Hit)
      requires Probed(false, length, prevMatch, hit)
      modifies this`strStart, this`lookahead, this`pend
      ensures Lazy(true, hit.len) && (eofile || 2 <= lookahead) && lookahead < old(lookahead)
    {
      hide DictOk, KeyOk, WindowOk, TextCovered, TextRepeated, BlockWriter.Valid, Trailed, Searched, Settled, Waits, End;
      TrailEnd(blocks.blocks, blocks.pending, text, trail, flushed, base + strStart);
      WaitsFor(text, trail, base + strStart, hit);
      pend := hit;
      strStart, lookahead := strStart + 1, lookahead - 1;
    }

    /**
     One turn of the loop: the string at strStart is inserted and the previous one is settled.  A match that was
     found there is adopted if the search at strStart finds no longer one; else its first byte is a literal.
     */
    method Step(available: bool, length: nat) returns (available': bool, length': nat, ghost hit: Hit)
      requires Lazy(available, length) && 0 < lookahead && (eofile || MIN_LOOKAHEAD <= lookahead)
      modifies this`strStart, this`lookahead, this`insH, this`matchStart, this`prevLength, this`blockStart
      modifies this`inserted, this`trail, this`flushed, this`pend, prev, head, blocks.Repr
      ensures Lazy(available', length') && (eofile || 2 <= lookahead) && lookahead < old(lookahead)
      ensures blocks.Repr == old(blocks.Repr)
      ensures Searched(text, old(base + strStart), length, hit)
      ensures Turned(text, old(base + strStart), available, old(pend), hit, old(trail), trail)
    {
      hide Ready, Emitted, KeyOk, Lazy, Reference, Turned, Searched, Settled, Waits;
      var prevMatch;
      ghost var s := base + strStart;
      NotShared(available, length);
      prevMatch, length', hit := Probe(available, length);
      assert Searched(text, s, length, hit);
      if prevLength >= MIN_MATCH && length' <= prevLength {
        Adopt(length, prevMatch, hit);
        available', length' := false, MIN_MATCH - 1;
      } else if available {
        Skip(length, prevMatch, hit);
        available' := true;
      } else {
        Postpone(length, prevMatch, hit);
        available' := true;
        NoTurn(old(trail), s, old(pend), hit);
      }
    }

    lemma NotShared(available: bool, length: nat)
      requires Lazy(available, length)
      ensures this !in blocks.Repr
    {
      hide DictOk, KeyOk, WindowOk, BlockWriter.Valid, Settled;
    }

    lemma NoTurn(was: seq<Choice>, s: nat, pending: Hit, hit: Hit)
      ensures Turned(text, s, false, pending, hit, was, was)
    {
    }

    lemma SettleNext(was: seq<Choice>, x: Choice)
      requires trail == was + [x] && (eofile || (Settled(was, |text|) && End(was) + MAX_MATCH + 1 < |text|))
      ensures eofile || Settled(trail, |text|)
    {
      if !eofile {
        SettledNext(was, x, |text|);
      }
    }

    lemma TextAhead()
      requires WindowOk() && strStart + lookahead == end
      ensures base + strStart + lookahead == |text|
      ensures 0 < strStart ==> strStart <= window.Length && window[strStart - 1] == text[base + strStart - 1]
    {
    }

    lemma ReferenceRange(m: int, s: int, length: nat)
      requires Reference(m, s, length)
      ensures 0 <= base + m < base + s && base + s + length <= |text|
    {
    }

    /** The first call of read_buf; an empty result is the end of the input. */
    method ReadFirst()
      requires Separate() && text == [] && !readError
      modifies this, window, head
      ensures Separate() && WindowOk() && DictOk() && strStart == inserted == 0 && lookahead == end
      ensures base == 0 && blockStart == 0 && Input() == old(Input()) && trail == old(trail) && flushed == old(flushed)
      ensures eofile == (lookahead == 0) && (eofile && !readError ==> unread == [])
    {
      hide ChainsOk;
      ClearDictionary();
      strStart, blockStart, lookahead, base, end := 0, 0, 0, 0, 0;
      var chunk := ReadBuf(2 * WSIZE);
      Append(chunk);
      eofile := chunk == [];
    }

    /** lm_init: an empty dictionary and the first bytes of the input. */
    method Init()
      requires Separate() && blocks.Valid() && !blocks.done && blocks.blocks == [] && blocks.pending == []
      requires text == [] && !readError && trail == [] && flushed == 0
      modifies this, window, prev, head
      ensures Ready() && Emitted(strStart) && strStart == 0 && Input() == old(Input()) && trail == []
      ensures 0 < lookahead ==> Lazy(false, MIN_MATCH - 1) && (eofile || MIN_LOOKAHEAD <= lookahead)
      ensures lookahead == 0 ==> eofile
    {
      hide ChainsOk, KeyReady, WindowOk, TextCovered, DictOk, BlockWriter.Valid;
      ReadFirst();
      if !eofile {
        while lookahead < MIN_LOOKAHEAD && !eofile
          invariant WindowOk() && DictOk() && strStart == inserted == 0 && lookahead == end
          invariant 0 < lookahead && base + blockStart == base == 0 && Input() == old(Input())
          invariant (eofile && !readError ==> unread == []) && trail == [] && flushed == 0
          decreases |unread|, !eofile
        {
          FillWindow();
        }
        InitHash();
      }
      NothingYet(text);
      NoTrail(text);
    }

    /** The end of deflate: the byte that waits is a literal, and the last block is flushed. */
    method Finish(available: bool, ghost length: nat)
      requires if available then Lazy(available, length) else Ready() && Emitted(strStart)
      requires lookahead == 0
      modifies this`trail, this`flushed, blocks.Repr
      ensures blocks.Valid() && blocks.done && blocks.Repr == old(blocks.Repr)
      ensures ExpandBlocks(blocks.blocks) == Some(text)
      ensures Chosen(text, trail) && End(trail) == |text|
      ensures TokensOk(Tokens(trail)) && Divided(blocks.blocks, Tokens(trail), true)
    {
      hide DictOk, KeyOk, TextRepeated, ExpandBlocks, Expand, BlockWriter.Valid, Trailed, Added, Searched,
           Settled, Waits, Next, Chosen, Divided, End;
      TextAhead();
      if available {
        ghost var x := Choice(Literal(window[strStart - 1]), pend, pend);
        if length >= MIN_MATCH {
          ReferenceRange(matchStart, strStart - 1, length);
        }
        LiteralNext(text, trail, base + strStart - 1, pend, pend);
        var _ := TallyLiteral(strStart - 1, x);
      }
      TrailEnd(blocks.blocks, blocks.pending, text, trail, flushed, base + strStart);
      ghost var bs, ts := blocks.blocks, blocks.pending;
      ghost var sent := Flush(true);
      AddedText(bs, blocks.blocks, sent, ts, blockStart >= 0, text, base + blockStart, base + strStart);
      assert text[..base + strStart] == text;
    }

    /**
     deflate: compresses the whole input.  The blocks expand to exactly the bytes that read_buf
     delivered, which are all of the input unless reading failed.  Their tokens are chosen by lazy evaluation.
     */
    method Run()
      requires Separate() && blocks.Valid() && !blocks.done && blocks.blocks == [] && blocks.pending == []
      requires text == [] && !readError && trail == [] && flushed == 0
      modifies this, window, prev, head, blocks.Repr
      ensures blocks.Valid() && blocks.done && blocks.Repr == old(blocks.Repr)
      ensures ExpandBlocks(blocks.blocks) == Some(text) && BlocksOk(blocks.blocks)
      ensures Input() == old(Input()) && (!readError ==> text == old(Input()))
      ensures Chosen(text, trail) && End(trail) == |text|
      ensures TokensOk(Tokens(trail)) && Divided(blocks.blocks, Tokens(trail), true)
    {
      hide ChainsOk, KeyReady, DictOk, KeyOk, TextRepeated, ExpandBlocks, Expand, BlockWriter.Valid, Trailed, Turned, Searched,
           Settled, Waits, Chosen, Divided, End, WindowOk, TextCovered;
      Init();
      var matchAvailable: bool, matchLength: nat := false, MIN_MATCH - 1;
      while lookahead != 0
        invariant if lookahead != 0 || matchAvailable then Lazy(matchAvailable, matchLength)
                  else Ready() && Emitted(strStart)
        invariant eofile || MIN_LOOKAHEAD <= lookahead
        invariant Input() == old(Input()) && blocks.Repr == old(blocks.Repr)
        decreases lookahead + |unread|
      {
        ghost var hit;
        matchAvailable, matchLength, hit := Step(matchAvailable, matchLength);
        FillLookahead(matchAvailable, matchLength);
      }
      Finish(matchAvailable, matchLength);
      blocks.KeptOk();
    }
  }
}
