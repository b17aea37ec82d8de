/**
 The positions that a search for a match visits (archival/gzip.c, longest_match): the chain of links from the
 head holds exactly the nearest earlier positions with the same key, as far as distance and budget allow.
 */
module ChainSearch {
  import opened RollingHash
  import opened Lz77
  import opened HashChains

  const MAX_CHAIN_LENGTH := 4096
  const GOOD_MATCH := 32

  /** The text from lo up to hi repeats what stands d bytes before it. */
  ghost predicate Repeats(w: seq<byte>, d: nat, lo: nat, hi: int)
    requires d <= lo && hi <= |w|
  {
    forall p :: lo <= p < hi ==> w[p] == w[p - d]
  }

  /** The strings of the given length at i and at j are equal. */
  ghost predicate MatchAt(w: seq<byte>, i: nat, j: nat, length: nat)
    requires i <= j && j + length <= |w|
  {
    Repeats(w, j - i, j, j + length)
  }

  /** How many positions from lo up to hi have the key. */
  function Count(w: seq<byte>, key: nat, lo: nat, hi: nat): nat
    decreases hi
  {
    if hi <= lo then 0 else Count(w, key, lo, hi - 1) + if HasKey(w, hi - 1, key) then 1 else 0
  }

  lemma {:induction false} CountSplit(w: seq<byte>, key: nat, lo: nat, mid: nat, hi: nat)
    requires lo <= mid <= hi
    ensures Count(w, key, lo, hi) == Count(w, key, lo, mid) + Count(w, key, mid, hi)
    decreases hi
  {
    hide HasKey;
    if mid < hi {
      CountSplit(w, key, lo, mid, hi - 1);
    }
  }

  /** A link passes over no position with the key. */
  lemma {:induction false} CountOne(w: seq<byte>, key: nat, q: nat, hi: nat)
    requires q < hi && HasKey(w, q, key) && forall x :: q < x < hi ==> !HasKey(w, x, key)
    ensures Count(w, key, q, hi) == 1
    decreases hi
  {
    hide HasKey;
    if q + 1 < hi {
      CountOne(w, key, q, hi - 1);
    }
  }

  /** The positions that a search visits: the chain from c while above limit, at most n of them. */
  ghost function Chain(prev: seq<nat>, c: nat, limit: nat, n: nat): seq<nat>
    requires |prev| == WSIZE
    decreases n
  {
    if n == 0 then []
    else
      var q := prev[c % WSIZE];
      [c] + (if q > limit then Chain(prev, q, limit, n - 1) else [])
  }

  /** Matches must start above this position. */
  function Limit(strStart: nat): nat {
    if strStart > MAX_DIST then strStart - MAX_DIST else NIL
  }

  /** How many chain positions a search may visit. */
  function Budget(prevLength: nat): (n: nat)
    ensures n > 0
  {
    if prevLength >= GOOD_MATCH then MAX_CHAIN_LENGTH / 4 else MAX_CHAIN_LENGTH
  }

  /** x is c, or one of the n - 1 positions with the key before c. */
  ghost predicate Follows(w: seq<byte>, key: nat, c: nat, limit: nat, n: nat, x: nat) {
    (x == c && n > 0) || (limit < x < c && HasKey(w, x, key) && Count(w, key, x, c) < n)
  }

  /** A link leads to the next of them. */
  lemma LinkFollows(w: seq<byte>, key: nat, c: nat, q: nat, limit: nat, n: nat, x: nat)
    requires LinkOk(w, q, c, key) && n > 0
    ensures Follows(w, key, c, limit, n, x) <==> x == c || (q > limit && Follows(w, key, q, limit, n - 1, x))
  {
    hide HasKey, Count;
    if q > limit {
      CountOne(w, key, q, c);
      if x < q {
        CountSplit(w, key, x, q, c);
      }
    }
  }

  lemma ChainStep(prev: seq<nat>, c: nat, limit: nat, n: nat, x: nat)
    requires |prev| == WSIZE && n > 0
    ensures var q := prev[c % WSIZE];
            x in Chain(prev, c, limit, n) <==> x == c || (q > limit && x in Chain(prev, q, limit, n - 1))
  {
    var q := prev[c % WSIZE];
    assert Chain(prev, c, limit, n) == [c] + if q > limit then Chain(prev, q, limit, n - 1) else [];
  }

  /** From c on, the chain has the next positions with the key, in order. */
  lemma {:induction false} ChainFrom(w: seq<byte>, prev: seq<nat>, head: seq<nat>, s: nat, c: nat, n: nat, x: nat)
    requires ChainsOk(w, prev, head, s + 1) && s + 2 < |w| && 0 < c < s && s - c <= MAX_DIST && HasKey(w, c, KeyAt(w, s))
    ensures x in Chain(prev, c, Limit(s), n) <==> Follows(w, KeyAt(w, s), c, Limit(s), n, x)
    decreases n
  {
    hide HasKey, KeyAt, Follows, SlotOk;
    if n > 0 {
      LinkAt(w, prev, head, s, c);
      LinkFollows(w, KeyAt(w, s), c, prev[c % WSIZE], Limit(s), n, x);
      hide Chain;
      ChainStep(prev, c, Limit(s), n, x);
      if prev[c % WSIZE] > Limit(s) {
        ChainFrom(w, prev, head, s, prev[c % WSIZE], n - 1, x);
      }
    } else {
      NoneFollow(w, KeyAt(w, s), c, Limit(s), x);
    }
  }

  lemma NoneFollow(w: seq<byte>, key: nat, c: nat, limit: nat, x: nat)
    ensures !Follows(w, key, c, limit, 0, x)
  {
  }

  lemma LinkAt(w: seq<byte>, prev: seq<nat>, head: seq<nat>, s: nat, c: nat)
    requires ChainsOk(w, prev, head, s + 1) && s + 2 < |w| && 0 < c < s && s - c <= MAX_DIST
    requires HasKey(w, c, KeyAt(w, s))
    ensures LinkOk(w, prev[c % WSIZE], c, KeyAt(w, s))
  {
    assert SlotOk(w, prev, c);
  }

  /** The search at s comes to c as one of its first n positions. */
  ghost predicate Visits(w: seq<byte>, s: nat, c: nat, n: nat) {
    && 0 < c < s && s + 2 < |w| && HasKey(w, c, KeyAt(w, s)) && Count(w, KeyAt(w, s), c, s) <= n
    && s - c <= MAX_DIST && (s - c == MAX_DIST ==> Count(w, KeyAt(w, s), c, s) == 1)
  }

  /** Visited are the nearest n positions with the key; at the greatest distance, only the very nearest. */
  lemma ChainExact(w: seq<byte>, prev: seq<nat>, head: seq<nat>, s: nat, hashHead: nat, n: nat, x: nat)
    requires ChainsOk(w, prev, head, s + 1) && s + 2 < |w| && n > 0
    requires LinkOk(w, hashHead, s, KeyAt(w, s)) && hashHead != NIL && s - hashHead <= MAX_DIST
    ensures x in Chain(prev, hashHead, Limit(s), n) <==> Visits(w, s, x, n)
  {
    hide HasKey, KeyAt, Chain;
    var key := KeyAt(w, s);
    ChainFrom(w, prev, head, s, hashHead, n, x);
    CountOne(w, key, hashHead, s);
    if x < hashHead {
      CountSplit(w, key, x, hashHead, s);
      if HasKey(w, x, key) {
        CountSplit(w, key, x, x + 1, hashHead);
        CountOne(w, key, x, x + 1);
      }
    }
  }

  /** Without a head in reach nothing is visited. */
  lemma NothingVisited(w: seq<byte>, s: nat, hashHead: nat, n: nat, x: nat)
    requires s + 2 < |w| && LinkOk(w, hashHead, s, KeyAt(w, s)) && (hashHead == NIL || s - hashHead > MAX_DIST)
    ensures !Visits(w, s, x, n)
  {
  }
}
