/**
 The dictionary of the string matcher: a window of text, heads of hash chains, and
 links from each position to an older one.  The predicates are on the contents of the
 arrays; the lemmas say that inserting a string, sliding the window and reading more
 text keep the chains truthful (archival/gzip.c, INSERT_STRING and fill_window).
 */
module HashChains {
  import opened RollingHash

  const WSIZE := 32768
  const NIL := 0

  /** The hash key of the three bytes at p. */
  function KeyAt(w: seq<byte>, p: nat): nat
    requires p + 2 < |w|
  {
    Hash3(w[p], w[p + 1], w[p + 2])
  }

  /** The string at p has the given key. */
  predicate HasKey(w: seq<byte>, p: nat, key: nat) {
    p + 2 < |w| && KeyAt(w, p) == key
  }

  /** q is the last position below `bound` whose string has the given key, or NIL if there is none. */
  ghost predicate LinkOk(w: seq<byte>, q: nat, bound: int, key: nat) {
    && (q == NIL || (q < bound && HasKey(w, q, key)))
    && forall x :: q < x < bound ==> !HasKey(w, x, key)
  }

  /** The link stored for position p is truthful. */
  ghost predicate SlotOk(w: seq<byte>, prev: seq<nat>, p: nat)
    requires p + 2 < |w| && |prev| == WSIZE
  {
    LinkOk(w, prev[p % WSIZE], p, KeyAt(w, p))
  }

  /** All positions below n have been inserted; links are kept for the last WSIZE of them. */
  ghost predicate ChainsOk(w: seq<byte>, prev: seq<nat>, head: seq<nat>, n: nat) {
    && |prev| == WSIZE && |head| == HASH_SIZE && n + 1 < |w|
    && (forall h :: 0 <= h < HASH_SIZE ==> LinkOk(w, head[h], n, h))
    && (forall p :: 1 <= p < n && n - WSIZE <= p ==> SlotOk(w, prev, p))
  }

  /** One more update with the byte at n + 2 turns h into the key of position n. */
  predicate KeyReady(h: nat, w: seq<byte>, n: nat) {
    n + 1 < |w| && h % 256 == UpdateHash(UpdateHash(0, w[n]), w[n + 1]) % 256
  }

  lemma SlotsDiffer(p: nat, n: nat)
    requires p < n < p + WSIZE
    ensures p % WSIZE != n % WSIZE
  {
  }

  /** UPDATE_HASH at position n yields its key and is ready for the next position. */
  lemma KeyStep(h: nat, w: seq<byte>, n: nat)
    requires n + 2 < |w| && KeyReady(h, w, n)
    ensures UpdateHash(h, w[n + 2]) == KeyAt(w, n)
    ensures KeyReady(UpdateHash(h, w[n + 2]), w, n + 1)
  {
    var g := UpdateHash(UpdateHash(0, w[n]), w[n + 1]);
    ForgetNewest(h, g, w[n + 2]);
    ForgetOldest(UpdateHash(0, w[n]), 0, w[n + 1]);
    ForgetMiddle(g, UpdateHash(0, w[n + 1]), w[n + 2]);
  }

  /** INSERT_STRING keeps the chains. */
  lemma InsertKeepsChains(w: seq<byte>, prev: seq<nat>, head: seq<nat>, n: nat)
    requires n + 2 < |w| && ChainsOk(w, prev, head, n)
    ensures var k := KeyAt(w, n);
            ChainsOk(w, prev[n % WSIZE := head[k]], head[k := n], n + 1)
  {
    hide Hash3;
    var k := KeyAt(w, n);
    var prev', head' := prev[n % WSIZE := head[k]], head[k := n];
    forall p | 1 <= p < n + 1 && n + 1 - WSIZE <= p
      ensures SlotOk(w, prev', p)
    {
      if p < n {
        SlotsDiffer(p, n);
        assert SlotOk(w, prev, p);
      }
    }
  }

  /** The entry that a slide of the window leaves for a position m. */
  function Slid(m: nat): nat {
    if m >= WSIZE then m - WSIZE else NIL
  }

  ghost predicate SlidFrom(w': seq<byte>, w: seq<byte>) {
    && |w'| == |w| && 2 * WSIZE <= |w|
    && forall i :: 0 <= i < WSIZE ==> w'[i] == w[i + WSIZE]
  }

  lemma SlideLink(w: seq<byte>, w': seq<byte>, q: nat, bound: nat, key: nat)
    requires SlidFrom(w', w) && LinkOk(w, q, bound, key)
    requires bound + 1 < 2 * WSIZE
    ensures LinkOk(w', Slid(q), bound - WSIZE, key)
  {
    forall x | Slid(q) < x < bound - WSIZE
      ensures !HasKey(w', x, key)
    {
      assert !HasKey(w, x + WSIZE, key);
    }
  }

  /** Sliding the window by WSIZE keeps the chains. */
  lemma SlideKeepsChains(w: seq<byte>, prev: seq<nat>, head: seq<nat>, n: nat,
                         w': seq<byte>, prev': seq<nat>, head': seq<nat>)
    requires ChainsOk(w, prev, head, n) && WSIZE <= n && n + 1 < 2 * WSIZE
    requires SlidFrom(w', w)
    requires |prev'| == WSIZE && forall i :: 0 <= i < WSIZE ==> prev'[i] == Slid(prev[i])
    requires |head'| == HASH_SIZE && forall i :: 0 <= i < HASH_SIZE ==> head'[i] == Slid(head[i])
    ensures ChainsOk(w', prev', head', n - WSIZE)
  {
    hide Hash3;
    forall h | 0 <= h < HASH_SIZE
      ensures LinkOk(w', head'[h], n - WSIZE, h)
    {
      SlideLink(w, w', head[h], n, h);
    }
    forall p | 1 <= p < n - WSIZE
      ensures SlotOk(w', prev', p)
    {
      assert SlotOk(w, prev, p + WSIZE);
      assert (p + WSIZE) % WSIZE == p % WSIZE;
      SlideLink(w, w', prev[p % WSIZE], p + WSIZE, KeyAt(w, p + WSIZE));
    }
  }

  lemma SlideKeepsKey(h: nat, w: seq<byte>, w': seq<byte>, n: nat)
    requires SlidFrom(w', w) && WSIZE <= n && n + 1 < 2 * WSIZE
    ensures KeyReady(h, w, n) ==> KeyReady(h, w', n - WSIZE)
  {
  }

  /** Text read behind the inserted strings does not disturb the chains. */
  lemma ReadKeepsChains(w: seq<byte>, w': seq<byte>, prev: seq<nat>, head: seq<nat>, n: nat)
    requires ChainsOk(w, prev, head, n) && |w'| == |w|
    requires n == 0 || forall i :: 0 <= i < n + 2 ==> w'[i] == w[i]
    ensures ChainsOk(w', prev, head, n)
  {
    hide Hash3, KeyAt, HasKey, LinkOk;
    forall h | 0 <= h < HASH_SIZE
      ensures LinkOk(w', head[h], n, h)
    {
      ReadKeepsLink(w, w', head[h], n, h);
    }
    forall p | 1 <= p < n && n - WSIZE <= p
      ensures SlotOk(w', prev, p)
    {
      assert SlotOk(w, prev, p);
      SameKey(w, w', p);
      ReadKeepsLink(w, w', prev[p % WSIZE], p, KeyAt(w, p));
    }
  }

  lemma SameKey(w: seq<byte>, w': seq<byte>, p: nat)
    requires p + 2 < |w| == |w'| && forall i :: p <= i < p + 3 ==> w'[i] == w[i]
    ensures KeyAt(w', p) == KeyAt(w, p)
  {
  }

  lemma ReadKeepsLink(w: seq<byte>, w': seq<byte>, q: nat, bound: nat, key: nat)
    requires LinkOk(w, q, bound, key) && |w'| == |w| && (bound == 0 || forall i :: 0 <= i < bound + 2 && i < |w| ==> w'[i] == w[i])
    ensures LinkOk(w', q, bound, key)
  {
    hide Hash3;
    forall x | q < x < bound
      ensures !HasKey(w', x, key)
    {
      assert !HasKey(w, x, key);
    }
  }
}
