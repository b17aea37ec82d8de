/**
 Which tokens a text becomes (archival/gzip.c, longest_match and deflate), in terms of the text alone: a search
 at a position takes the longest match among the positions in reach, and a match is adopted only if the
 search at the next position finds no longer one.
 */
module LazyParse {
  import opened RollingHash
  import opened Lz77
  import opened HashChains
  import opened ChainSearch

  const TOO_FAR := 4096
  const MAX_LAZY_MATCH := 258

  /** The result of a search: a length, where the match starts, and where the window started. */
  datatype Hit = Hit(len: nat, at: nat, base: nat)

  /** A search at s comes to c within n positions, and c starts a match of length l that ends within the text. */
  ghost predicate Offers(text: seq<byte>, base: nat, s: nat, c: nat, n: nat, l: nat) {
    base < c && Visits(text, s, c, n) && s + l <= |text| && MatchAt(text, c, s, l)
  }

  /** The search has no match of that length. */
  ghost predicate NoneOffers(text: seq<byte>, base: nat, s: nat, n: nat, l: nat) {
    forall c :: !Offers(text, base, s, c, n, l)
  }

  /** The search that is to beat length p has found the longest match, and of several the nearest. */
  ghost predicate Found(text: seq<byte>, s: nat, p: nat, hit: Hit) {
    var n := Budget(p);
    && p < MAX_LAZY_MATCH && MIN_MATCH <= hit.len <= MAX_MATCH
    && Offers(text, hit.base, s, hit.at, n, hit.len) && !(hit.len == MIN_MATCH && s - hit.at > TOO_FAR)
    && (hit.len < MAX_MATCH ==> NoneOffers(text, hit.base, s, n, hit.len + 1))
    && (s + hit.len < |text| ==> forall c :: hit.at < c ==> !Offers(text, hit.base, s, c, n, hit.len))
  }

  /** Matches of three bytes are too far away; at the end of the text, one of them is. */
  ghost predicate TooFar(text: seq<byte>, base: nat, s: nat, n: nat) {
    || (forall c :: Offers(text, base, s, c, n, MIN_MATCH) ==> s - c > TOO_FAR)
    || (s + MIN_MATCH == |text| && exists c :: Offers(text, base, s, c, n, MIN_MATCH) && s - c > TOO_FAR)
  }

  function Max(a: nat, b: nat): nat {
    if a > b then a else b
  }

  /** There is nothing better to be found: no match is longer than p, except one of three bytes that is too far away. */
  ghost predicate Missed(text: seq<byte>, s: nat, p: nat, base: nat) {
    p < MAX_LAZY_MATCH ==>
      && NoneOffers(text, base, s, Budget(p), Max(p, MIN_MATCH) + 1)
      && (p < MIN_MATCH ==> TooFar(text, base, s, Budget(p)))
  }

  /** The window starts with the text, or a multiple of WSIZE later, as far before s as matches reach. */
  predicate Based(base: nat, s: nat) {
    base % WSIZE == 0 && (base == 0 || base + MAX_DIST <= s)
  }

  ghost predicate Searched(text: seq<byte>, s: nat, p: nat, hit: Hit) {
    && Based(hit.base, s)
    && if hit.len >= MIN_MATCH && hit.len > p then Found(text, s, p, hit) else Missed(text, s, p, hit.base)
  }

  /** A token, with the results of the searches where it starts and one position later. */
  datatype Choice = Choice(token: Token, here: Hit, next: Hit)

  /** How much of the text the tokens cover. */
  function End(trail: seq<Choice>): nat {
    if trail == [] then 0 else End(trail[..|trail| - 1]) + Width(trail[|trail| - 1].token)
  }

  predicate AfterLiteral(trail: seq<Choice>) {
    trail != [] && trail[|trail| - 1].token.Literal?
  }

  /** The length that the next search has to beat. */
  function Carry(trail: seq<Choice>): nat {
    if AfterLiteral(trail) then trail[|trail| - 1].here.len else MIN_MATCH - 1
  }

  /** The match found is adopted unless the next position has a longer one; then its first byte is a literal. */
  ghost predicate Decided(text: seq<byte>, s: nat, x: Choice) {
    && s < |text|
    && match x.token
       case Literal(b) =>
         && b == text[s]
         && (x.here.len >= MIN_MATCH ==> x.next.len > x.here.len && Searched(text, s + 1, x.here.len, x.next))
       case Match(l, d) =>
         && l == x.here.len >= MIN_MATCH && x.here.at < s && d == s - x.here.at
         && x.next.len <= l && Searched(text, s + 1, l, x.next)
  }

  /** The token after those before it, with its searches; a literal is followed by what the next search found. */
  ghost predicate Next(text: seq<byte>, before: seq<Choice>, x: Choice) {
    && Searched(text, End(before), Carry(before), x.here) && Decided(text, End(before), x)
    && (AfterLiteral(before) ==> before[|before| - 1].next == x.here)
  }

  /** All tokens are chosen like that. */
  ghost predicate Chosen(text: seq<byte>, trail: seq<Choice>) {
    forall i :: 0 <= i < |trail| ==> Next(text, trail[..i], trail[i])
  }

  function Tokens(trail: seq<Choice>): (ts: seq<Token>)
    ensures |ts| == |trail| && forall i :: 0 <= i < |trail| ==> ts[i] == trail[i].token
  {
    seq(|trail|, i requires 0 <= i < |trail| => trail[i].token)
  }

  lemma ChosenMore(text: seq<byte>, trail: seq<Choice>, x: Choice)
    requires Chosen(text, trail) && Next(text, trail, x)
    ensures Chosen(text, trail + [x]) && End(trail + [x]) == End(trail) + Width(x.token)
    ensures Tokens(trail + [x]) == Tokens(trail) + [x.token]
  {
    hide Next;
    var more := trail + [x];
    assert more[..|trail|] == trail;
    forall i | 0 <= i < |more|
      ensures Next(text, more[..i], more[i])
    {
      if i < |trail| {
        assert more[..i] == trail[..i];
      }
    }
  }

  lemma MissedIsSearched(text: seq<byte>, s: nat, p: nat, hit: Hit)
    requires Missed(text, s, p, hit.base) && hit.len < MIN_MATCH && Based(hit.base, s)
    ensures Searched(text, s, p, hit)
  {
  }

  /** What was found at s waits for the search at the next position. */
  ghost predicate Waits(text: seq<byte>, trail: seq<Choice>, s: nat, pend: Hit) {
    && End(trail) == s && Searched(text, s, Carry(trail), pend)
    && (AfterLiteral(trail) ==> trail[|trail| - 1].next == pend)
  }

  lemma WaitsFor(text: seq<byte>, trail: seq<Choice>, s: nat, hit: Hit)
    requires End(trail) == s && Searched(text, s, Carry(trail), hit) && (AfterLiteral(trail) ==> trail[|trail| - 1].next == hit)
    ensures Waits(text, trail, s, hit)
  {
  }

  lemma WaitsAfter(text: seq<byte>, trail: seq<Choice>, x: Choice, s: nat)
    requires End(trail + [x]) == s && x.token.Literal? && Searched(text, s, x.here.len, x.next)
    ensures Waits(text, trail + [x], s, x.next)
  {
    hide Searched, End;
  }

  lemma WaitsEnd(text: seq<byte>, trail: seq<Choice>, s: nat, hit: Hit)
    requires Waits(text, trail, s, hit)
    ensures End(trail) == s
  {
  }

  /** The token for position s, given what the searches there and at the next position found. */
  function Adopted(text: seq<byte>, s: nat, pend: Hit, hit: Hit): Token
    requires s < |text|
  {
    if MIN_MATCH <= pend.len && hit.len <= pend.len && pend.at < s then Match(pend.len, s - pend.at) else Literal(text[s])
  }

  lemma MatchNext(text: seq<byte>, trail: seq<Choice>, s: nat, pend: Hit, hit: Hit)
    requires Waits(text, trail, s, pend) && s < |text| && pend.len >= MIN_MATCH && pend.at < s
    requires hit.len <= pend.len && Searched(text, s + 1, pend.len, hit)
    ensures Next(text, trail, Choice(Match(pend.len, s - pend.at), pend, hit))
  {
    hide Searched, End;
  }

  lemma LiteralNext(text: seq<byte>, trail: seq<Choice>, s: nat, pend: Hit, hit: Hit)
    requires Waits(text, trail, s, pend) && s < |text|
    requires pend.len >= MIN_MATCH ==> hit.len > pend.len && Searched(text, s + 1, pend.len, hit)
    ensures Next(text, trail, Choice(Literal(text[s]), pend, hit))
  {
    hide Searched, End;
  }

  /** The searches looked at text that is there: one at s at most at MAX_MATCH + 1 bytes. */
  predicate Settled(trail: seq<Choice>, n: nat) {
    forall i :: 0 <= i < |trail| ==> End(trail[..i]) + MAX_MATCH + 1 < n
  }

  lemma SettledMore(trail: seq<Choice>, n: nat, n': nat)
    requires Settled(trail, n) && n <= n'
    ensures Settled(trail, n')
  {
    hide End;
  }

  lemma SettledNext(trail: seq<Choice>, x: Choice, n: nat)
    requires Settled(trail, n) && End(trail) + MAX_MATCH + 1 < n
    ensures Settled(trail + [x], n)
  {
    hide End;
    var more := trail + [x];
    forall i | 0 <= i < |more|
      ensures End(more[..i]) + MAX_MATCH + 1 < n
    {
      assert more[..i] == trail[..i] && trail[..|trail|] == trail;
    }
  }

  lemma {:induction false} CountGrown(text: seq<byte>, text': seq<byte>, key: nat, lo: nat, hi: nat)
    requires text <= text' && hi + 1 < |text|
    ensures Count(text', key, lo, hi) == Count(text, key, lo, hi)
    decreases hi
  {
    if lo < hi {
      CountGrown(text, text', key, lo, hi - 1);
    }
  }

  lemma OffersGrown(text: seq<byte>, text': seq<byte>, base: nat, s: nat, c: nat, n: nat, l: nat)
    requires text <= text' && s + MAX_MATCH < |text| && l <= MAX_MATCH
    ensures Offers(text', base, s, c, n, l) <==> Offers(text, base, s, c, n, l)
  {
    if c < s {
      CountGrown(text, text', KeyAt(text, s), c, s);
    }
  }

  /** Text that is added behind does not change what a search finds. */
  lemma SearchedGrown(text: seq<byte>, text': seq<byte>, s: nat, p: nat, hit: Hit)
    requires text <= text' && s + MAX_MATCH < |text| && Searched(text, s, p, hit)
    ensures Searched(text', s, p, hit)
  {
    hide Offers;
    forall c, l | 0 <= l <= MAX_MATCH
      ensures Offers(text', hit.base, s, c, Budget(p), l) <==> Offers(text, hit.base, s, c, Budget(p), l)
    {
      OffersGrown(text, text', hit.base, s, c, Budget(p), l);
    }
  }

  lemma ChosenGrown(text: seq<byte>, text': seq<byte>, trail: seq<Choice>)
    requires text <= text' && Chosen(text, trail) && Settled(trail, |text|)
    ensures Chosen(text', trail) && Settled(trail, |text'|)
  {
    hide Searched, End;
    forall i | 0 <= i < |trail|
      ensures Next(text', trail[..i], trail[i])
    {
      var s, x := End(trail[..i]), trail[i];
      assert Next(text, trail[..i], x);
      SearchedGrown(text, text', s, Carry(trail[..i]), x.here);
      if x.here.len >= MIN_MATCH {
        SearchedGrown(text, text', s + 1, x.here.len, x.next);
      }
    }
  }

  /** A match of length l with c is in reach of a search at s that visits n positions, wherever the window starts. */
  ghost predicate Reaches(text: seq<byte>, s: nat, c: nat, n: nat, l: nat) {
    0 < c && s - c < MAX_DIST && Visits(text, s, c, n) && s + l <= |text| && MatchAt(text, c, s, l)
  }

  /** The search has it, and the shorter ones in it. */
  lemma ReachesOffers(text: seq<byte>, base: nat, s: nat, c: nat, n: nat, l: nat, k: nat)
    requires Based(base, s) && Reaches(text, s, c, n, l) && k <= l
    ensures Offers(text, base, s, c, n, k)
  {
  }

  /** What is found where a token starts beats what the literal before it gave up. */
  lemma BetterThanCarry(text: seq<byte>, trail: seq<Choice>, i: nat)
    requires Chosen(text, trail) && i < |trail|
    ensures trail[i].here.len > Carry(trail[..i]) || Carry(trail[..i]) < MIN_MATCH
  {
    hide Searched, End;
    if i > 0 {
      assert Next(text, trail[..i], trail[i]) && Next(text, trail[..i - 1], trail[i - 1]);
    }
  }

  /**
   No match is missed: a literal that stands where a match of four bytes is in reach, or one of three that is
   not too far away, is followed by a longer match.
   */
  lemma LiteralMissesNothing(text: seq<byte>, trail: seq<Choice>, i: nat, c: nat, l: nat)
    requires Chosen(text, trail) && i < |trail| && trail[i].token.Literal? && l <= MAX_MATCH
    requires Reaches(text, End(trail[..i]), c, Budget(Carry(trail[..i])), l)
    requires l > MIN_MATCH || (l == MIN_MATCH && End(trail[..i]) - c <= TOO_FAR && End(trail[..i]) + l < |text|)
    ensures var x := trail[i]; x.next.len > x.here.len >= l && Found(text, End(trail[..i]) + 1, x.here.len, x.next)
  {
    hide Offers, End, Reaches;
    var s, p, x := End(trail[..i]), Carry(trail[..i]), trail[i];
    assert Next(text, trail[..i], x);
    BetterThanCarry(text, trail, i);
    if x.here.len >= MIN_MATCH && x.here.len > p {
      if x.here.len < l {
        ReachesOffers(text, x.here.base, s, c, Budget(p), l, x.here.len + 1);
      }
    } else {
      ReachesOffers(text, x.here.base, s, c, Budget(p), l, MIN_MATCH);
      if l > MIN_MATCH {
        ReachesOffers(text, x.here.base, s, c, Budget(p), l, MIN_MATCH + 1);
      }
      assert false;
    }
  }

  /** Nothing in reach of a search is longer than the length l that it could not beat. */
  lemma NothingLonger(text: seq<byte>, s: nat, c: nat, p: nat, l: nat, base: nat)
    requires Based(base, s) && NoneOffers(text, base, s, Budget(p), l + 1)
    ensures !Reaches(text, s, c, Budget(p), l + 1)
  {
    hide Offers, Reaches;
    if Reaches(text, s, c, Budget(p), l + 1) {
      ReachesOffers(text, base, s, c, Budget(p), l + 1, l + 1);
    }
  }

  /** A match is a longest one in reach, and the next position has no longer one. */
  lemma MatchIsLongest(text: seq<byte>, trail: seq<Choice>, i: nat, c: nat)
    requires Chosen(text, trail) && i < |trail| && trail[i].token.Match?
    ensures var x, s, p := trail[i], End(trail[..i]), Carry(trail[..i]);
            && x.token.distance < s && Visits(text, s, s - x.token.distance, Budget(p))
            && MatchAt(text, s - x.token.distance, s, x.token.length) && s + x.token.length <= |text|
            && !(x.token.length == MIN_MATCH && x.token.distance > TOO_FAR)
            && (x.token.length < MAX_MATCH ==> !Reaches(text, s, c, Budget(p), x.token.length + 1))
            && (x.token.length < MAX_MATCH ==> !Reaches(text, s + 1, c, Budget(x.token.length), x.token.length + 1))
  {
    hide Visits, MatchAt, NoneOffers, End, Reaches;
    var x, s, p := trail[i], End(trail[..i]), Carry(trail[..i]);
    assert Next(text, trail[..i], x);
    BetterThanCarry(text, trail, i);
    VisitsBack(text, s, x.here.at, Budget(p));
    if x.token.length < MAX_MATCH {
      NothingLonger(text, s, c, p, x.token.length, x.here.base);
      NothingLonger(text, s + 1, c, x.token.length, x.token.length, x.next.base);
    }
  }

  lemma VisitsBack(text: seq<byte>, s: nat, c: nat, n: nat)
    ensures Visits(text, s, c, n) ==> c < s
  {
  }
}
