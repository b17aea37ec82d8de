/**
 A search in the window, and what it means for the text (archival/gzip.c, longest_match and its call in deflate).
 Behind the end of the input the window holds arbitrary bytes, so the length that is found is cut there.
 */
module WindowSearch {
  import opened RollingHash
  import opened Lz77
  import opened HashChains
  import opened ChainSearch
  import opened LazyParse

  /** No position of the chain starts a match longer than best (which is capped at MAX_MATCH). */
  ghost predicate NoneLonger(w: seq<byte>, s: nat, best: nat, chain: seq<nat>)
  {
    s + best < |w| && best < MAX_MATCH ==>
      forall c :: c in chain && c < s ==> !MatchAt(w, c, s, best + 1)
  }

  /** As NoneLonger, for the part of the chain before rest. */
  ghost predicate NoneLongerUpTo(w: seq<byte>, s: nat, best: nat, chain: seq<nat>, rest: seq<nat>)
  {
    s + best < |w| && best < MAX_MATCH ==>
      forall c :: c in chain && c !in rest && c < s ==> !MatchAt(w, c, s, best + 1)
  }

  /** Visiting c settles it: what is left of the chain starts at its link. */
  lemma VisitCandidate(w: seq<byte>, s: nat, best: nat, best': nat, prev: seq<nat>, chain: seq<nat>,
                       c: nat, limit: nat, n: nat)
    requires |prev| == WSIZE && 0 < n && best <= best' && s + MAX_MATCH < |w| && c < s
    requires NoneLongerUpTo(w, s, best, chain, Chain(prev, c, limit, n))
    requires best' < MAX_MATCH ==> !MatchAt(w, c, s, best' + 1)
    ensures var q := prev[c % WSIZE];
            if q > limit && n > 1 then NoneLongerUpTo(w, s, best', chain, Chain(prev, q, limit, n - 1))
            else NoneLonger(w, s, best', chain)
  {
    if best' < MAX_MATCH {
      var q := prev[c % WSIZE];
      var rest := if q > limit then Chain(prev, q, limit, n - 1) else [];
      assert Chain(prev, c, limit, n) == [c] + rest;
      forall x | x in chain && x !in rest && x < s
        ensures !MatchAt(w, x, s, best' + 1)
      {
        if x != c {
          assert x !in [c] + rest;
          assert !MatchAt(w, x, s, best + 1);
        }
      }
    }
  }

  /** Of the chain, no position nearer than m starts a match of that length. */
  ghost predicate Nearest(w: seq<byte>, s: nat, best: nat, chain: seq<nat>, m: int) {
    s + best <= |w| && forall c :: c in chain && m < c < s ==> !MatchAt(w, c, s, best)
  }

  lemma ChainSteps(prev: seq<nat>, c: nat, limit: nat, n: nat, chain: seq<nat>)
    requires |prev| == WSIZE && n > 0 && forall x :: x in Chain(prev, c, limit, n) ==> x in chain
    ensures c in chain
    ensures prev[c % WSIZE] > limit ==> forall x :: x in Chain(prev, prev[c % WSIZE], limit, n - 1) ==> x in chain
  {
    hide Chain;
    ChainStep(prev, c, limit, n, c);
    forall x | prev[c % WSIZE] > limit && x in Chain(prev, prev[c % WSIZE], limit, n - 1)
      ensures x in chain
    {
      ChainStep(prev, c, limit, n, x);
    }
  }

  /** A longer match at c than those before it is the nearest so far. */
  lemma NearestAt(w: seq<byte>, s: nat, best: nat, len: nat, prev: seq<nat>, head: seq<nat>, chain: seq<nat>, c: nat, n: nat)
    requires ChainsOk(w, prev, head, s + 1) && s + MAX_MATCH < |w| && best < len <= MAX_MATCH
    requires 0 < c < s && s - c <= MAX_DIST && HasKey(w, c, KeyAt(w, s))
    requires NoneLongerUpTo(w, s, best, chain, Chain(prev, c, Limit(s), n))
    ensures Nearest(w, s, len, chain, c)
  {
    hide ChainsOk, HasKey, KeyAt, Chain;
    forall x | x in chain && c < x < s
      ensures !MatchAt(w, x, s, len)
    {
      ChainFrom(w, prev, head, s, c, n, x);
      assert !MatchAt(w, x, s, best + 1);
    }
  }

  /** The window holds the text from base on, up to its end. */
  ghost predicate Shows(w: seq<byte>, text: seq<byte>, base: nat, end: nat) {
    end <= |w| && base + end == |text| && forall i :: 0 <= i < end ==> w[i] == text[base + i]
  }

  lemma KeyShown(w: seq<byte>, text: seq<byte>, base: nat, end: nat, p: nat)
    requires Shows(w, text, base, end) && p + 2 < end
    ensures KeyAt(text, base + p) == KeyAt(w, p)
  {
  }

  lemma {:induction false} CountShown(w: seq<byte>, text: seq<byte>, base: nat, end: nat, key: nat, lo: nat, hi: nat)
    requires Shows(w, text, base, end) && hi + 1 < end
    ensures Count(text, key, base + lo, base + hi) == Count(w, key, lo, hi)
    decreases hi
  {
    hide KeyAt, Shows;
    if lo < hi {
      CountShown(w, text, base, end, key, lo, hi - 1);
      ShowsSize(w, text, base, end);
      KeyShown(w, text, base, end, hi - 1);
    }
  }

  lemma ShowsSize(w: seq<byte>, text: seq<byte>, base: nat, end: nat)
    requires Shows(w, text, base, end)
    ensures end <= |w| && base + end == |text|
  {
  }

  lemma VisitsShown(w: seq<byte>, text: seq<byte>, base: nat, end: nat, s: nat, c: nat, n: nat)
    requires Shows(w, text, base, end) && s + 2 < end && 0 < c
    ensures Visits(text, base + s, base + c, n) <==> Visits(w, s, c, n)
  {
    hide KeyAt, Shows, Count;
    ShowsSize(w, text, base, end);
    KeyShown(w, text, base, end, s);
    if c < s {
      KeyShown(w, text, base, end, c);
      CountShown(w, text, base, end, KeyAt(w, s), c, s);
    }
  }

  lemma MatchShown(w: seq<byte>, text: seq<byte>, base: nat, end: nat, s: nat, c: nat, l: nat)
    requires Shows(w, text, base, end) && c < s && s + l <= end
    ensures MatchAt(text, base + c, base + s, l) <==> MatchAt(w, c, s, l)
  {
    var d := s - c;
    if MatchAt(text, base + c, base + s, l) {
      forall p | s <= p < s + l
        ensures w[p] == w[p - d]
      {
        assert text[base + p] == text[base + p - d];
      }
    }
    if MatchAt(w, c, s, l) {
      forall p | base + s <= p < base + s + l
        ensures text[p] == text[p - d]
      {
        assert w[p - base] == w[p - base - d];
      }
    }
  }

  /** What the search offers is what the chain has. */
  lemma OffersShown(w: seq<byte>, text: seq<byte>, base: nat, end: nat, s: nat, x: nat, n: nat, l: nat)
    requires Shows(w, text, base, end) && s + 2 < end
    ensures Offers(text, base, base + s, x, n, l) <==>
            base < x < base + s && Visits(w, s, x - base, n) && s + l <= end && MatchAt(w, x - base, s, l)
  {
    hide Shows, MatchAt;
    ShowsSize(w, text, base, end);
    if base < x < base + s {
      VisitsShown(w, text, base, end, s, x - base, n);
      if s + l <= end {
        MatchShown(w, text, base, end, s, x - base, l);
      }
    }
  }

  /** The length found, cut at the end of the input; three bytes too far away do not count. */
  function Outcome(top: nat, lookahead: nat, distance: int): nat {
    var l := if top > lookahead then lookahead else top;
    if l == MIN_MATCH && distance > TOO_FAR then l - 1 else l
  }

  /** What a search leaves: the longest match in the chain if it is longer than p, and the nearest of that length. */
  ghost predicate Best(w: seq<byte>, s: nat, p: nat, top: nat, m: int, chain: seq<nat>) {
    && p <= top <= MAX_MATCH && s + MAX_MATCH < |w| && NoneLonger(w, s, top, chain)
    && (top > p ==> 0 < m < s && m in chain && MatchAt(w, m, s, top) && Nearest(w, s, top, chain, m))
  }

  /** The head starts the chain of the string at s. */
  ghost predicate Heads(w: seq<byte>, prev: seq<nat>, head: seq<nat>, s: nat, hashHead: nat) {
    && ChainsOk(w, prev, head, s + 1) && s + 2 < |w|
    && LinkOk(w, hashHead, s, KeyAt(w, s)) && hashHead != NIL && s - hashHead <= MAX_DIST
  }

  /** A match offered in the text is one in the chain. */
  lemma OffersChained(w: seq<byte>, prev: seq<nat>, head: seq<nat>, s: nat, hashHead: nat,
                      text: seq<byte>, base: nat, end: nat, x: nat, n: nat, l: nat)
    requires Heads(w, prev, head, s, hashHead) && Shows(w, text, base, end) && s + 2 < end && n > 0
    ensures |prev| == WSIZE
    ensures Offers(text, base, base + s, x, n, l) <==>
            base < x < base + s && x - base in Chain(prev, hashHead, Limit(s), n) && s + l <= end && MatchAt(w, x - base, s, l)
  {
    hide ChainsOk, LinkOk, Shows, Visits, Offers, MatchAt, Chain;
    ChainsSize(w, prev, head, s + 1);
    OffersShown(w, text, base, end, s, x, n, l);
    ShowsSize(w, text, base, end);
    if base < x < base + s {
      ChainExact(w, prev, head, s, hashHead, n, x - base);
    }
  }

  lemma ChainsSize(w: seq<byte>, prev: seq<nat>, head: seq<nat>, n: nat)
    requires ChainsOk(w, prev, head, n)
    ensures |prev| == WSIZE
  {
  }

  lemma LongerMatch(w: seq<byte>, c: nat, s: nat, k: nat, l: nat)
    requires c < s && k <= l && s + l <= |w| && MatchAt(w, c, s, l)
    ensures MatchAt(w, c, s, k)
  {
  }

  /** The search in the window is the search in the text. */
  lemma SearchShown(w: seq<byte>, prev: seq<nat>, head: seq<nat>, s: nat, hashHead: nat,
                    text: seq<byte>, base: nat, end: nat, p: nat, top: nat, m: int)
    requires Heads(w, prev, head, s, hashHead) && Shows(w, text, base, end) && s < end && 1 <= p < MAX_LAZY_MATCH
    requires Best(w, s, p, top, m, Chain(prev, hashHead, Limit(s), Budget(p))) && Based(base, base + s)
    ensures Searched(text, base + s, p, Hit(Outcome(top, end - s, s - m), if top > p then base + m else 0, base))
  {
    hide Heads, Shows, Offers, MatchAt, Chain;
    var len, n := Outcome(top, end - s, s - m), Budget(p);
    ShowsSize(w, text, base, end);
    if s + 2 >= end {
      NothingAtEnd(text, base, base + s, p);
    } else if len >= MIN_MATCH && len > p {
      SearchFound(w, prev, head, s, hashHead, text, base, end, p, top, m);
    } else {
      SearchMissed(w, prev, head, s, hashHead, text, base, end, p, top, m);
    }
  }

  lemma NothingAtEnd(text: seq<byte>, base: nat, s: nat, p: nat)
    requires s + 2 >= |text|
    ensures Missed(text, s, p, base)
  {
  }

  lemma SearchFound(w: seq<byte>, prev: seq<nat>, head: seq<nat>, s: nat, hashHead: nat,
                    text: seq<byte>, base: nat, end: nat, p: nat, top: nat, m: int)
    requires Heads(w, prev, head, s, hashHead) && Shows(w, text, base, end) && s + 2 < end && 1 <= p < MAX_LAZY_MATCH
    requires Best(w, s, p, top, m, Chain(prev, hashHead, Limit(s), Budget(p)))
    requires var len := Outcome(top, end - s, s - m); len >= MIN_MATCH && len > p
    ensures Found(text, base + s, p, Hit(Outcome(top, end - s, s - m), base + m, base))
  {
    hide Heads, Shows, Offers, MatchAt, Chain;
    var len, n, t := Outcome(top, end - s, s - m), Budget(p), base + s;
    ShowsSize(w, text, base, end);
    var more := len + 1;
    LongerMatch(w, m, s, len, top);
    OffersChained(w, prev, head, s, hashHead, text, base, end, base + m, n, len);
    forall x: nat
      ensures len < MAX_MATCH ==> !Offers(text, base, t, x, n, more)
      ensures len < end - s && base + m < x ==> !Offers(text, base, t, x, n, len)
    {
      OffersChained(w, prev, head, s, hashHead, text, base, end, x, n, len);
      OffersChained(w, prev, head, s, hashHead, text, base, end, x, n, more);
    }
    assert len < MAX_MATCH ==> NoneOffers(text, base, t, n, more);
  }

  lemma SearchMissed(w: seq<byte>, prev: seq<nat>, head: seq<nat>, s: nat, hashHead: nat,
                     text: seq<byte>, base: nat, end: nat, p: nat, top: nat, m: int)
    requires Heads(w, prev, head, s, hashHead) && Shows(w, text, base, end) && s + 2 < end && 1 <= p < MAX_LAZY_MATCH
    requires Best(w, s, p, top, m, Chain(prev, hashHead, Limit(s), Budget(p)))
    requires var len := Outcome(top, end - s, s - m); len < MIN_MATCH || len <= p
    ensures Missed(text, base + s, p, base)
  {
    hide Heads, Shows, Offers, MatchAt, Chain;
    var n, t := Budget(p), base + s;
    var more := Max(p, MIN_MATCH) + 1;
    ShowsSize(w, text, base, end);
    forall x: nat
      ensures !Offers(text, base, t, x, n, more)
    {
      OffersChained(w, prev, head, s, hashHead, text, base, end, x, n, more);
      if Offers(text, base, t, x, n, more) {
        LongerMatch(w, x - base, s, top + 1, more);
      }
    }
    if p < MIN_MATCH {
      SearchTooFar(w, prev, head, s, hashHead, text, base, end, p, top, m);
    }
  }

  lemma SearchTooFar(w: seq<byte>, prev: seq<nat>, head: seq<nat>, s: nat, hashHead: nat,
                     text: seq<byte>, base: nat, end: nat, p: nat, top: nat, m: int)
    requires Heads(w, prev, head, s, hashHead) && Shows(w, text, base, end) && s + 2 < end && 1 <= p < MIN_MATCH
    requires Best(w, s, p, top, m, Chain(prev, hashHead, Limit(s), Budget(p)))
    requires Outcome(top, end - s, s - m) < MIN_MATCH
    ensures TooFar(text, base, base + s, Budget(p))
  {
    hide Heads, Shows, Offers, MatchAt, Chain;
    var n, t := Budget(p), base + s;
    ShowsSize(w, text, base, end);
    if s + MIN_MATCH == end && top >= MIN_MATCH {
      LongerMatch(w, m, s, MIN_MATCH, top);
      OffersChained(w, prev, head, s, hashHead, text, base, end, base + m, n, MIN_MATCH);
    } else {
      forall x: nat | Offers(text, base, t, x, n, MIN_MATCH)
        ensures t - x > TOO_FAR
      {
        OffersChained(w, prev, head, s, hashHead, text, base, end, x, n, MIN_MATCH);
        if top < MIN_MATCH {
          LongerMatch(w, x - base, s, top + 1, MIN_MATCH);
        }
      }
    }
  }

  /** Without a head in reach there is nothing to find. */
  lemma NoHead(w: seq<byte>, s: nat, hashHead: nat, text: seq<byte>, base: nat, end: nat, p: nat)
    requires Shows(w, text, base, end) && s < end && s + 2 < |w| && LinkOk(w, hashHead, s, KeyAt(w, s))
    requires p >= MAX_LAZY_MATCH || hashHead == NIL || s - hashHead > MAX_DIST
    ensures Missed(text, base + s, p, base)
  {
    hide Shows, Offers, MatchAt, Visits, LinkOk;
    var n, t := Budget(p), base + s;
    ShowsSize(w, text, base, end);
    if s + 2 >= end {
      NothingAtEnd(text, base, base + s, p);
    } else if p < MAX_LAZY_MATCH {
      forall x: nat, l: nat
        ensures !Offers(text, base, t, x, n, l)
      {
        OffersShown(w, text, base, end, s, x, n, l);
        if base < x {
          NothingVisited(w, s, hashHead, n, x - base);
        }
      }
    }
  }
}
