/**
 What an operator tree must look like (editors/awk.c, parse_expr and the priorities of the
 operators): the tree that the priorities fix, and a parser that keeps its right spine.
 */
module AwkPrecedence {
  import opened Options

  /** A small priority binds tightly; even ones group to the right, odd ones to the left. */
  datatype Token =
    | Operand(name: nat)
    | Binary(prio: nat, op: nat)
    | Prefix(prio: nat, op: nat)
    | Postfix(prio: nat, op: nat)

  /** PRIMASK: the priority of the node above the expression. */
  const ROOT: nat := 127

  function Prio(t: Token): nat {
    if t.Operand? then 0 else t.prio
  }

  /** An operator of priority p jumps back over one of priority q (PRIMASK against PRIMASK2). */
  predicate Over(p: nat, q: nat) {
    p > q - q % 2
  }

  /** A tree over a sequence of tokens; every node is the place of its token. */
  datatype Tree =
    | Leaf(at: nat)
    | Bin(at: nat, left: Tree, right: Tree)
    | Pre(at: nat, right: Tree)
    | Post(at: nat, right: Tree)

  /** The tree has the tokens from lo to hi, in order, and each at a node of its kind. */
  ghost predicate Spans(ts: seq<Token>, t: Tree, lo: int, hi: int) {
    && 0 <= lo <= t.at < hi <= |ts|
    && match t
       case Leaf(at) => ts[at].Operand? && lo == at && hi == at + 1
       case Bin(at, l, r) => ts[at].Binary? && Spans(ts, l, lo, at) && Spans(ts, r, at + 1, hi)
       case Pre(at, r) => ts[at].Prefix? && lo == at && Spans(ts, r, at + 1, hi)
       case Post(at, r) => ts[at].Postfix? && hi == at + 1 && Spans(ts, r, lo, at)
  }

  /** The traversal of the tree in order. */
  ghost function InOrder(ts: seq<Token>, t: Tree): seq<Token> {
    var here := if t.at < |ts| then [ts[t.at]] else [];
    match t
    case Leaf(_) => here
    case Bin(_, l, r) => InOrder(ts, l) + here + InOrder(ts, r)
    case Pre(_, r) => here + InOrder(ts, r)
    case Post(_, r) => InOrder(ts, r) + here
  }

  lemma {:induction false} SpansInOrder(ts: seq<Token>, t: Tree, lo: int, hi: int)
    requires Spans(ts, t, lo, hi)
    ensures InOrder(ts, t) == ts[lo..hi]
  {
    assert ts[lo..hi] == ts[lo..t.at] + [ts[t.at]] + ts[t.at + 1..hi];
    match t
    case Leaf(_) =>
    case Bin(at, l, r) =>
      SpansInOrder(ts, l, lo, at);
      SpansInOrder(ts, r, at + 1, hi);
    case Pre(at, r) =>
      SpansInOrder(ts, r, at + 1, hi);
    case Post(at, r) =>
      SpansInOrder(ts, r, lo, at);
  }

  function PrioAt(ts: seq<Token>, at: nat): nat {
    if at < |ts| then Prio(ts[at]) else 0
  }

  /** No operator that begins to the left of everything else in the tree jumps over priority q. */
  ghost predicate LeftUnder(ts: seq<Token>, t: Tree, q: nat) {
    match t
    case Leaf(_) => true
    case Bin(at, l, _) => !Over(PrioAt(ts, at), q) && LeftUnder(ts, l, q)
    case Pre(_, _) => true
    case Post(at, r) => !Over(PrioAt(ts, at), q) && LeftUnder(ts, r, q)
  }

  /** An operator of priority p jumps over every operator that is open to the right. */
  ghost predicate RightOver(ts: seq<Token>, t: Tree, p: nat) {
    match t
    case Leaf(_) => true
    case Bin(at, _, r) => Over(p, PrioAt(ts, at)) && RightOver(ts, r, p)
    case Pre(at, r) => Over(p, PrioAt(ts, at)) && RightOver(ts, r, p)
    case Post(_, _) => true
  }

  /** Every operator takes on its left what it jumps over, and on its right what does not jump over it. */
  ghost predicate Grouped(ts: seq<Token>, t: Tree) {
    match t
    case Leaf(_) => true
    case Bin(at, l, r) =>
      && Grouped(ts, l) && Grouped(ts, r)
      && RightOver(ts, l, PrioAt(ts, at)) && LeftUnder(ts, r, PrioAt(ts, at))
    case Pre(at, r) => Grouped(ts, r) && LeftUnder(ts, r, PrioAt(ts, at))
    case Post(at, r) => Grouped(ts, r) && RightOver(ts, r, PrioAt(ts, at))
  }

  /** Every operator of the tree. */
  ghost predicate Within(t: Tree, at: nat) {
    match t
    case Leaf(_) => false
    case Bin(a, l, r) => at == a || Within(l, at) || Within(r, at)
    case Pre(a, r) => at == a || Within(r, at)
    case Post(a, r) => at == a || Within(r, at)
  }

  ghost predicate NoPostfix(t: Tree) {
    match t
    case Leaf(_) => true
    case Bin(_, l, r) => NoPostfix(l) && NoPostfix(r)
    case Pre(_, r) => NoPostfix(r)
    case Post(_, _) => false
  }

  ghost predicate BinaryOnly(t: Tree) {
    match t
    case Leaf(_) => true
    case Bin(_, l, r) => BinaryOnly(l) && BinaryOnly(r)
    case Pre(_, _) => false
    case Post(_, _) => false
  }

  /** Without postfix operators, the whole left side binds tighter than p, or as tight and p is odd. */
  lemma {:induction false} LeftBindsTighter(ts: seq<Token>, t: Tree, lo: int, hi: int, p: nat, d: nat)
    requires Spans(ts, t, lo, hi) && NoPostfix(t) && Grouped(ts, t) && RightOver(ts, t, p) && Within(t, d)
    ensures d < |ts| && !ts[d].Operand? && (ts[d].prio < p || (ts[d].prio == p && p % 2 == 1))
    decreases t
  {
    if d != t.at {
      match t
      case Bin(at, l, r) =>
        if Within(r, d) {
          LeftBindsTighter(ts, r, at + 1, hi, p, d);
        } else {
          LeftBindsTighter(ts, l, lo, at, ts[at].prio, d);
        }
      case Pre(at, r) =>
        LeftBindsTighter(ts, r, at + 1, hi, p, d);
    }
  }

  /** With binary operators only, the whole right side binds tighter than q, or as tight and q is even. */
  lemma {:induction false} RightBindsTighter(ts: seq<Token>, t: Tree, lo: int, hi: int, q: nat, d: nat)
    requires Spans(ts, t, lo, hi) && BinaryOnly(t) && Grouped(ts, t) && LeftUnder(ts, t, q) && Within(t, d)
    ensures d < |ts| && !ts[d].Operand? && (ts[d].prio < q || (ts[d].prio == q && q % 2 == 0))
    decreases t
  {
    if d != t.at {
      if Within(t.left, d) {
        RightBindsTighter(ts, t.left, lo, t.at, q, d);
      } else {
        RightBindsTighter(ts, t.right, t.at + 1, hi, ts[t.at].prio, d);
      }
    }
  }

  /** A node of the right spine with what it has on its left. */
  datatype Frame = BinF(at: nat, left: Tree) | PreF(at: nat)

  /** The right spine from the top, and what hangs below it if an operand has come. */
  datatype Spine = Spine(frames: seq<Frame>, focus: Option<Tree>)

  function Plug(f: Frame, t: Tree): Tree {
    match f
    case BinF(at, l) => Bin(at, l, t)
    case PreF(at) => Pre(at, t)
  }

  function PlugAll(frames: seq<Frame>, t: Tree): Tree
    decreases |frames|
  {
    if frames == [] then t else PlugAll(Init(frames), Plug(Last(frames), t))
  }

  function Init(frames: seq<Frame>): seq<Frame>
    requires frames != []
  {
    frames[..|frames| - 1]
  }

  function Last(frames: seq<Frame>): Frame
    requires frames != []
  {
    frames[|frames| - 1]
  }

  /** The priority of the last node of the spine. */
  function Limit(ts: seq<Token>, frames: seq<Frame>): nat {
    if frames == [] then ROOT else PrioAt(ts, Last(frames).at)
  }

  /** Jump back over the operators of the spine that priority p jumps over. */
  function Climb(ts: seq<Token>, frames: seq<Frame>, t: Tree, p: nat): (seq<Frame>, Tree)
    decreases |frames|
  {
    if frames == [] || !Over(p, Limit(ts, frames)) then (frames, t)
    else Climb(ts, Init(frames), Plug(Last(frames), t), p)
  }

  /** An operand is complete just before token i. */
  predicate AfterValue(ts: seq<Token>, i: nat)
    requires i <= |ts|
  {
    i > 0 && (ts[i - 1].Operand? || ts[i - 1].Postfix?)
  }

  /** Operators that need an operand on their left have one, and nothing else has. */
  predicate Alternating(ts: seq<Token>, n: nat)
    requires n <= |ts|
  {
    forall i :: 0 <= i < n ==> (AfterValue(ts, i) <==> ts[i].Binary? || ts[i].Postfix?)
  }

  function Step(ts: seq<Token>, s: Spine, i: nat): Spine
    requires i < |ts| && (s.focus.Some? <==> ts[i].Binary? || ts[i].Postfix?)
  {
    match ts[i]
    case Operand(_) => Spine(s.frames, Some(Leaf(i)))
    case Prefix(_, _) => Spine(s.frames + [PreF(i)], None)
    case Binary(p, _) => var c := Climb(ts, s.frames, s.focus.value, p); Spine(c.0 + [BinF(i, c.1)], None)
    case Postfix(p, _) => var c := Climb(ts, s.frames, s.focus.value, p); Spine(c.0, Some(Post(i, c.1)))
  }

  /** The spine after n tokens. */
  function Run(ts: seq<Token>, n: nat): (s: Spine)
    requires n <= |ts| && Alternating(ts, n)
    ensures s.focus.Some? <==> AfterValue(ts, n)
  {
    if n == 0 then Spine([], None) else Step(ts, Run(ts, n - 1), n - 1)
  }

  /** The tree is open to the right: something that follows can go below its top. */
  predicate Open(t: Tree) {
    t.Bin? || t.Pre?
  }

  function Top(t: Tree): Frame
    requires Open(t)
  {
    if t.Bin? then BinF(t.at, t.left) else PreF(t.at)
  }

  /** The right spine of a tree, and what hangs below it. */
  function SpineOf(t: Tree): seq<Frame> {
    if Open(t) then [Top(t)] + SpineOf(t.right) else []
  }

  function Bottom(t: Tree): Tree {
    if Open(t) then Bottom(t.right) else t
  }

  lemma SpineGrows(frames: seq<Frame>, t: Tree)
    ensures Open(t) ==> frames + SpineOf(t) == frames + [Top(t)] + SpineOf(t.right)
    ensures Open(t) ==> Init(frames + [Top(t)]) == frames && Plug(Top(t), t.right) == t
    ensures !Open(t) ==> frames + SpineOf(t) == frames
  {
  }

  lemma {:induction false} PlugSpine(frames: seq<Frame>, t: Tree)
    ensures PlugAll(frames + SpineOf(t), Bottom(t)) == PlugAll(frames, t)
    decreases t
  {
    hide SpineOf;
    SpineGrows(frames, t);
    if Open(t) {
      PlugSpine(frames + [Top(t)], t.right);
    }
  }

  /** An operator that jumps over what is open in a tree climbs to the top of it. */
  lemma {:induction false} ClimbSpine(ts: seq<Token>, frames: seq<Frame>, t: Tree, p: nat)
    requires RightOver(ts, t, p)
    ensures Climb(ts, frames + SpineOf(t), Bottom(t), p) == Climb(ts, frames, t, p)
    decreases t
  {
    hide SpineOf, Over;
    SpineGrows(frames, t);
    if Open(t) {
      ClimbSpine(ts, frames + [Top(t)], t.right, p);
    }
  }

  /** An operator of a grouped tree takes its left side when the tokens of that have been read. */
  lemma TakesLeft(ts: seq<Token>, frames: seq<Frame>, l: Tree, at: nat)
    requires at < |ts| && Alternating(ts, at) && Alternating(ts, at + 1) && (ts[at].Binary? || ts[at].Postfix?)
    requires Run(ts, at) == Spine(frames + SpineOf(l), Some(Bottom(l)))
    requires RightOver(ts, l, PrioAt(ts, at)) && !Over(PrioAt(ts, at), Limit(ts, frames))
    ensures Run(ts, at + 1) == if ts[at].Binary? then Spine(frames + [BinF(at, l)], None) else Spine(frames, Some(Post(at, l)))
  {
    hide SpineOf, Bottom, Over;
    ClimbSpine(ts, frames, l, PrioAt(ts, at));
  }

  lemma TakesFirst(ts: seq<Token>, frames: seq<Frame>, at: nat)
    requires at < |ts| && Alternating(ts, at) && Alternating(ts, at + 1) && (ts[at].Operand? || ts[at].Prefix?)
    requires Run(ts, at) == Spine(frames, None)
    ensures Run(ts, at + 1) == if ts[at].Operand? then Spine(frames, Some(Leaf(at))) else Spine(frames + [PreF(at)], None)
  {
  }

  lemma Shorter(ts: seq<Token>, hi: nat, at: nat)
    requires at <= hi <= |ts| && Alternating(ts, hi)
    ensures Alternating(ts, at)
  {
  }

  /** Reading the tokens of a grouped tree appends the right spine of that tree. */
  lemma {:induction false} Replay(ts: seq<Token>, t: Tree, lo: nat, hi: nat, frames: seq<Frame>)
    requires Spans(ts, t, lo, hi) && Grouped(ts, t)
    requires Alternating(ts, hi) && Run(ts, lo) == Spine(frames, None) && LeftUnder(ts, t, Limit(ts, frames))
    ensures Run(ts, hi) == Spine(frames + SpineOf(t), Some(Bottom(t)))
    decreases t
  {
    hide SpineOf, Over, RightOver, Run, Alternating;
    SpineGrows(frames, t);
    Shorter(ts, hi, lo);
    Shorter(ts, hi, t.at);
    Shorter(ts, hi, t.at + 1);
    match t
    case Leaf(at) =>
      TakesFirst(ts, frames, at);
    case Pre(at, r) =>
      TakesFirst(ts, frames, at);
      Replay(ts, r, at + 1, hi, frames + [PreF(at)]);
    case Post(at, r) =>
      Replay(ts, r, lo, at, frames);
      TakesLeft(ts, frames, r, at);
    case Bin(at, l, r) =>
      Replay(ts, l, lo, at, frames);
      TakesLeft(ts, frames, l, at);
      Replay(ts, r, at + 1, hi, frames + [BinF(at, l)]);
  }

  /** Nothing of these tokens jumps over the node above the expression. */
  predicate Ranked(ts: seq<Token>) {
    forall i :: 0 <= i < |ts| && !ts[i].Operand? ==> ts[i].prio < ROOT
  }

  lemma {:induction false} UnderRoot(ts: seq<Token>, t: Tree)
    requires Ranked(ts)
    ensures LeftUnder(ts, t, ROOT)
  {
    match t
    case Leaf(_) =>
    case Bin(_, l, _) => UnderRoot(ts, l);
    case Pre(_, _) =>
    case Post(_, r) => UnderRoot(ts, r);
  }

  /** A grouped tree over all the tokens is the one that the parser builds. */
  lemma GroupedIsParsed(ts: seq<Token>, t: Tree)
    requires Ranked(ts) && Alternating(ts, |ts|) && Spans(ts, t, 0, |ts|) && Grouped(ts, t)
    ensures Run(ts, |ts|).focus.Some? && t == PlugAll(Run(ts, |ts|).frames, Run(ts, |ts|).focus.value)
  {
    UnderRoot(ts, t);
    Replay(ts, t, 0, |ts|, []);
    PlugSpine([], t);
    assert [] + SpineOf(t) == SpineOf(t);
  }

  /** The place after a spine: the next token, and the number of its last node. */
  function End(frames: seq<Frame>): nat {
    if frames == [] then 0 else Last(frames).at + 1
  }

  /** The left side of every node of the spine is grouped, and nothing in it belongs to the node above. */
  ghost predicate SpineOk(ts: seq<Token>, frames: seq<Frame>)
    decreases |frames|
  {
    frames == [] || (
      && SpineOk(ts, Init(frames))
      && match Last(frames)
         case PreF(at) => at < |ts| && ts[at].Prefix? && at == End(Init(frames))
         case BinF(at, l) =>
           && at < |ts| && ts[at].Binary? && Spans(ts, l, End(Init(frames)), at)
           && Grouped(ts, l) && RightOver(ts, l, PrioAt(ts, at))
           && LeftUnder(ts, l, Limit(ts, Init(frames))) && !Over(PrioAt(ts, at), Limit(ts, Init(frames))))
  }

  /** A tree below the spine that ends before token i. */
  ghost predicate FocusOk(ts: seq<Token>, frames: seq<Frame>, t: Tree, i: nat) {
    && SpineOk(ts, frames) && Spans(ts, t, End(frames), i)
    && Grouped(ts, t) && LeftUnder(ts, t, Limit(ts, frames))
  }

  lemma PlugOk(ts: seq<Token>, frames: seq<Frame>, t: Tree, i: nat)
    requires frames != [] && FocusOk(ts, frames, t, i)
    ensures FocusOk(ts, Init(frames), Plug(Last(frames), t), i)
  {
  }

  lemma {:induction false} ClimbOk(ts: seq<Token>, frames: seq<Frame>, t: Tree, i: nat, p: nat)
    requires FocusOk(ts, frames, t, i) && RightOver(ts, t, p) && p < ROOT
    ensures var c := Climb(ts, frames, t, p);
            FocusOk(ts, c.0, c.1, i) && RightOver(ts, c.1, p) && !Over(p, Limit(ts, c.0))
    decreases |frames|
  {
    if frames != [] && Over(p, Limit(ts, frames)) {
      PlugOk(ts, frames, t, i);
      ClimbOk(ts, Init(frames), Plug(Last(frames), t), i, p);
    }
  }

  lemma {:induction false} PlugAllOk(ts: seq<Token>, frames: seq<Frame>, t: Tree, i: nat)
    requires FocusOk(ts, frames, t, i)
    ensures FocusOk(ts, [], PlugAll(frames, t), i)
    decreases |frames|
  {
    if frames != [] {
      PlugOk(ts, frames, t, i);
      PlugAllOk(ts, Init(frames), Plug(Last(frames), t), i);
    }
  }

  /** What holds of the spine after n tokens. */
  ghost predicate RunOk(ts: seq<Token>, s: Spine, n: nat) {
    match s.focus
    case None => SpineOk(ts, s.frames) && End(s.frames) == n
    case Some(t) => FocusOk(ts, s.frames, t, n) && (t.Leaf? || t.Post?)
  }

  lemma StepOk(ts: seq<Token>, s: Spine, n: nat)
    requires n < |ts| && Ranked(ts) && (s.focus.Some? <==> ts[n].Binary? || ts[n].Postfix?) && RunOk(ts, s, n)
    ensures RunOk(ts, Step(ts, s, n), n + 1)
  {
    if s.focus.Some? {
      ClimbOk(ts, s.frames, s.focus.value, n, ts[n].prio);
      var c := Climb(ts, s.frames, s.focus.value, ts[n].prio);
      assert Init(c.0 + [BinF(n, c.1)]) == c.0;
    } else {
      assert Init(s.frames + [PreF(n)]) == s.frames;
    }
  }

  lemma {:induction false} RunIsOk(ts: seq<Token>, n: nat)
    requires n <= |ts| && Ranked(ts) && Alternating(ts, n)
    ensures RunOk(ts, Run(ts, n), n)
  {
    if n > 0 {
      RunIsOk(ts, n - 1);
      StepOk(ts, Run(ts, n - 1), n - 1);
    }
  }

  /** The parser builds a grouped tree with all the tokens in order. */
  lemma ParsedIsGrouped(ts: seq<Token>)
    requires Ranked(ts) && Alternating(ts, |ts|) && AfterValue(ts, |ts|)
    ensures var s := Run(ts, |ts|); var t := PlugAll(s.frames, s.focus.value);
            Spans(ts, t, 0, |ts|) && Grouped(ts, t) && InOrder(ts, t) == ts
  {
    var s := Run(ts, |ts|);
    RunIsOk(ts, |ts|);
    PlugAllOk(ts, s.frames, s.focus.value, |ts|);
    SpansInOrder(ts, PlugAll(s.frames, s.focus.value), 0, |ts|);
    assert ts[0..|ts|] == ts;
  }

  /** The priorities fix the tree. */
  lemma OneGroupedTree(ts: seq<Token>, t: Tree, u: Tree)
    requires Ranked(ts) && Alternating(ts, |ts|)
    requires Spans(ts, t, 0, |ts|) && Grouped(ts, t) && Spans(ts, u, 0, |ts|) && Grouped(ts, u)
    ensures t == u
  {
    GroupedIsParsed(ts, t);
    GroupedIsParsed(ts, u);
  }
}
