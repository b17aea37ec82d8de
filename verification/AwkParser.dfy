/**
 The parser of awk expressions on linked nodes (editors/awk.c, parse_expr).

 Pointers to nodes are numbers: node 0 is the one above the expression, and token i makes node
 i + 1. An operand in parentheses, an array element or a call is one token here, and the tokens
 are those that next_token delivers, with the operator of a concatenation between two operands.
 */
module AwkParser {
  import opened AwkPrecedence
  import opened AwkBinding

  /** A node with the numbers of its left and right child and of its parent. */
  datatype Node = Node(tok: Token, l: nat, r: nat, a: nat)

  /** The nodes hold the tree. */
  ghost predicate Holds(nodes: seq<Node>, ts: seq<Token>, t: Tree) {
    && t.at < |ts| && t.at + 1 < |nodes| && nodes[t.at + 1].tok == ts[t.at]
    && (t.Bin? ==> nodes[t.at + 1].l == t.left.at + 1 && Holds(nodes, ts, t.left))
    && (!t.Leaf? ==> nodes[t.at + 1].r == t.right.at + 1 && Holds(nodes, ts, t.right))
  }

  /** The nodes hold the spine: every node of it is the right child of the one before. */
  ghost predicate Linked(nodes: seq<Node>, ts: seq<Token>, frames: seq<Frame>)
    decreases |frames|
  {
    if frames == [] then |nodes| > 0 && nodes[0].tok == Prefix(ROOT, 0)
    else
      var n, above := End(frames), End(Init(frames));
      && Linked(nodes, ts, Init(frames)) && above < n < |nodes| && n <= |ts|
      && nodes[n].tok == ts[n - 1] && nodes[n].a == above && nodes[above].r == n
      && (Last(frames).BinF? ==> nodes[n].l == Last(frames).left.at + 1 && Holds(nodes, ts, Last(frames).left))
  }

  /** The nodes hold a tree below the spine. */
  ghost predicate Hangs(nodes: seq<Node>, ts: seq<Token>, frames: seq<Frame>, t: Tree) {
    && Linked(nodes, ts, frames) && Holds(nodes, ts, t) && End(frames) < |nodes|
    && nodes[End(frames)].r == t.at + 1 && nodes[t.at + 1].a == End(frames)
  }

  /** The nodes hold the state of the parser, and cn is the node made last. */
  ghost predicate Parsing(nodes: seq<Node>, ts: seq<Token>, s: Spine, cn: nat) {
    match s.focus
    case None => Linked(nodes, ts, s.frames) && cn == End(s.frames)
    case Some(t) => Hangs(nodes, ts, s.frames, t) && cn == t.at + 1
  }

  /** The same token and children. */
  predicate SameBelow(m: Node, n: Node) {
    m.tok == n.tok && m.l == n.l && m.r == n.r
  }

  lemma {:induction false} HoldsKept(nodes: seq<Node>, more: seq<Node>, ts: seq<Token>, t: Tree, lo: int, hi: int)
    requires Holds(nodes, ts, t) && Spans(ts, t, lo, hi) && |nodes| <= |more|
    requires forall k :: lo < k <= hi && k < |nodes| ==> SameBelow(nodes[k], more[k])
    ensures Holds(more, ts, t)
  {
    if t.Bin? {
      HoldsKept(nodes, more, ts, t.left, lo, t.at);
      HoldsKept(nodes, more, ts, t.right, t.at + 1, hi);
    } else if t.Pre? {
      HoldsKept(nodes, more, ts, t.right, t.at + 1, hi);
    } else if t.Post? {
      HoldsKept(nodes, more, ts, t.right, lo, t.at);
    }
  }

  /** A spine stays linked when only the right child of its last node changes, and what comes after. */
  lemma {:induction false} LinkedKept(nodes: seq<Node>, more: seq<Node>, ts: seq<Token>, frames: seq<Frame>)
    requires Linked(nodes, ts, frames) && SpineOk(ts, frames) && |nodes| <= |more| && End(frames) < |nodes|
    requires forall k :: 0 <= k < End(frames) ==> nodes[k] == more[k]
    requires nodes[End(frames)].(r := more[End(frames)].r) == more[End(frames)]
    ensures Linked(more, ts, frames)
    decreases |frames|
  {
    if frames != [] {
      LinkedKept(nodes, more, ts, Init(frames));
      if Last(frames).BinF? {
        HoldsKept(nodes, more, ts, Last(frames).left, End(Init(frames)), Last(frames).at);
      }
    }
  }

  lemma HangsUp(nodes: seq<Node>, ts: seq<Token>, frames: seq<Frame>, t: Tree)
    requires frames != [] && Hangs(nodes, ts, frames, t)
    ensures Hangs(nodes, ts, Init(frames), Plug(Last(frames), t))
  {
  }

  lemma {:induction false} HangsFromTop(nodes: seq<Node>, ts: seq<Token>, frames: seq<Frame>, t: Tree)
    requires Hangs(nodes, ts, frames, t)
    ensures Hangs(nodes, ts, [], PlugAll(frames, t))
    decreases |frames|
  {
    if frames != [] {
      HangsUp(nodes, ts, frames, t);
      HangsFromTop(nodes, ts, Init(frames), Plug(Last(frames), t));
    }
  }

  /** An operand or a prefix operator becomes the right child of the last node. */
  function Attach(nodes: seq<Node>, cn: nat, tok: Token): seq<Node>
    requires cn < |nodes|
  {
    nodes[cn := nodes[cn].(r := |nodes|)] + [Node(tok, 0, 0, cn)]
  }

  /** An operator takes the place of a node and has that node below it. */
  function Insert(nodes: seq<Node>, vn: nat, tok: Token): seq<Node>
    requires vn < |nodes| && nodes[vn].a < |nodes|
  {
    var above := nodes[vn].a;
    var up := nodes[above := nodes[above].(r := |nodes|)];
    up[vn := up[vn].(a := |nodes|)] + [if tok.Binary? then Node(tok, vn, 0, above) else Node(tok, 0, vn, above)]
  }

  lemma AttachOk(nodes: seq<Node>, ts: seq<Token>, frames: seq<Frame>, i: nat)
    requires |nodes| == i + 1 <= |ts| && Linked(nodes, ts, frames) && SpineOk(ts, frames) && End(frames) == i
    ensures Hangs(Attach(nodes, i, ts[i]), ts, frames, Leaf(i))
    ensures Linked(Attach(nodes, i, ts[i]), ts, frames + [PreF(i)])
  {
    hide SpineOk;
    LinkedKept(nodes, Attach(nodes, i, ts[i]), ts, frames);
    assert Init(frames + [PreF(i)]) == frames;
  }

  lemma InsertOk(nodes: seq<Node>, ts: seq<Token>, frames: seq<Frame>, t: Tree, i: nat)
    requires |nodes| == i + 1 <= |ts| && Hangs(nodes, ts, frames, t) && FocusOk(ts, frames, t, i)
    requires ts[i].Binary? || ts[i].Postfix?
    ensures ts[i].Binary? ==> Linked(Insert(nodes, t.at + 1, ts[i]), ts, frames + [BinF(i, t)])
    ensures ts[i].Postfix? ==> Hangs(Insert(nodes, t.at + 1, ts[i]), ts, frames, Post(i, t))
  {
    hide SpineOk, Grouped, LeftUnder;
    var more := Insert(nodes, t.at + 1, ts[i]);
    assert forall k :: 0 <= k < End(frames) ==> nodes[k] == more[k];
    LinkedKept(nodes, more, ts, frames);
    HoldsKept(nodes, more, ts, t, End(frames), i);
    assert Init(frames + [BinF(i, t)]) == frames;
  }

  datatype Parsed = Unexpected(at: nat) | Empty | Root(node: nat)

  /** What next_token delivers: an operand after an operand comes with an operator between them. */
  predicate Delivered(ts: seq<Token>) {
    Ranked(ts) && forall i :: 0 <= i < |ts| && AfterValue(ts, i) ==> ts[i].Binary? || ts[i].Postfix?
  }

  /** An expression, or nothing. */
  predicate Complete(ts: seq<Token>) {
    Alternating(ts, |ts|) && (ts == [] || AfterValue(ts, |ts|))
  }

  class Parser {
    var nodes: seq<Node>

    constructor ()
      ensures nodes == []
    {
      nodes := [];
    }

    /** The loop that jumps back over the operators of higher priority. */
    method JumpBack(cn: nat, p: nat, ghost ts: seq<Token>, ghost s: Spine) returns (vn: nat)
      requires p < ROOT && s.focus.Some? && Parsing(nodes, ts, s, cn)
      ensures var c := Climb(ts, s.frames, s.focus.value, p); Hangs(nodes, ts, c.0, c.1) && vn == c.1.at + 1 < |nodes|
    {
      ghost var frames, t := s.frames, s.focus.value;
      vn := cn;
      while Over(p, Prio(nodes[nodes[vn].a].tok))
        invariant Hangs(nodes, ts, frames, t) && vn == t.at + 1
        invariant Climb(ts, frames, t, p) == Climb(ts, s.frames, s.focus.value, p)
        decreases |frames|
      {
        HangsUp(nodes, ts, frames, t);
        vn := nodes[vn].a;
        frames, t := Init(frames), Plug(Last(frames), t);
      }
    }

    /** One turn of the loop over the tokens. */
    method Take(tok: Token, cn: nat, ghost ts: seq<Token>, ghost i: nat, ghost s: Spine) returns (next: nat)
      requires |nodes| == i + 1 <= |ts| && tok == ts[i] && Ranked(ts)
      requires (s.focus.Some? <==> tok.Binary? || tok.Postfix?) && RunOk(ts, s, i) && Parsing(nodes, ts, s, cn)
      modifies this
      ensures |nodes| == i + 2 && Parsing(nodes, ts, Step(ts, s, i), next)
    {
      hide SpineOk, Climb, Over, FocusOk, Linked, Holds;
      next := |nodes|;
      if tok.Binary? || tok.Postfix? {
        var vn := JumpBack(cn, tok.prio, ts, s);
        ghost var c := Climb(ts, s.frames, s.focus.value, tok.prio);
        Climbed(ts, s, i, tok.prio);
        InsertOk(nodes, ts, c.0, c.1, i);
        ghost var was := nodes;
        var above := nodes[vn].a;
        nodes := nodes[above := nodes[above].(r := next)];
        if tok.Binary? {
          nodes := nodes + [Node(tok, vn, 0, above)];
        } else {
          nodes := nodes + [Node(tok, 0, vn, above)];
        }
        nodes := nodes[vn := nodes[vn].(a := next)];
        assert nodes == Insert(was, vn, tok);
      } else {
        AttachOk(nodes, ts, s.frames, i);
        ghost var was := nodes;
        nodes := nodes[cn := nodes[cn].(r := next)];
        nodes := nodes + [Node(tok, 0, 0, cn)];
        assert nodes == Attach(was, cn, tok);
      }
    }

    /** parse_expr: the tree that the priorities fix, or where an operand is missing. */
    method ParseExpr(ts: seq<Token>) returns (r: Parsed, ghost t: Tree)
      requires Delivered(ts)
      modifies this
      ensures r.Unexpected? <==> !Complete(ts)
      ensures r.Unexpected? ==> r.at <= |ts| && Alternating(ts, r.at) && !AfterValue(ts, r.at)
      ensures r.Empty? <==> ts == []
      ensures r.Root? ==>
                && Holds(nodes, ts, t) && r.node == t.at + 1
                && Spans(ts, t, 0, |ts|) && Grouped(ts, t) && InOrder(ts, t) == ts && Bound(ts, t)
    {
      hide Bound, RunOk, Parsing, Run, Step;
      nodes := [Node(Prefix(ROOT, 0), 0, 0, 0)];
      var cn, i, value := 0, 0, false;
      t := Leaf(0);
      Started(nodes, ts);
      while i < |ts|
        invariant 0 <= i <= |ts| && |nodes| == i + 1 && Alternating(ts, i) && (value <==> AfterValue(ts, i))
        invariant Parsing(nodes, ts, Run(ts, i), cn)
      {
        var tok := ts[i];
        if (tok.Binary? || tok.Postfix?) && !value {
          return Unexpected(i), t;
        }
        RunIsOk(ts, i);
        ghost var s := Run(ts, i);
        cn := Take(tok, cn, ts, i, s);
        RunNext(ts, i);
        value := tok.Operand? || tok.Postfix?;
        i := i + 1;
      }
      if ts == [] {
        return Empty, t;
      }
      if !value {
        return Unexpected(|ts|), t;
      }
      ParsedIsGrouped(ts);
      ghost var s := Run(ts, |ts|);
      t := PlugAll(s.frames, s.focus.value);
      GroupedIsBound(ts, t);
      Finished(nodes, ts, cn);
      return Root(nodes[0].r), t;
    }
  }

  lemma Started(nodes: seq<Node>, ts: seq<Token>)
    requires nodes == [Node(Prefix(ROOT, 0), 0, 0, 0)]
    ensures Parsing(nodes, ts, Run(ts, 0), 0)
  {
  }

  lemma Climbed(ts: seq<Token>, s: Spine, i: nat, p: nat)
    requires s.focus.Some? && RunOk(ts, s, i) && p < ROOT
    ensures FocusOk(ts, Climb(ts, s.frames, s.focus.value, p).0, Climb(ts, s.frames, s.focus.value, p).1, i)
  {
    ClimbOk(ts, s.frames, s.focus.value, i, p);
  }

  lemma RunNext(ts: seq<Token>, i: nat)
    requires i < |ts| && Alternating(ts, i) && Alternating(ts, i + 1)
    ensures (Run(ts, i).focus.Some? <==> ts[i].Binary? || ts[i].Postfix?) && Run(ts, i + 1) == Step(ts, Run(ts, i), i)
  {
  }

  lemma Finished(nodes: seq<Node>, ts: seq<Token>, cn: nat)
    requires Alternating(ts, |ts|) && AfterValue(ts, |ts|) && Parsing(nodes, ts, Run(ts, |ts|), cn)
    ensures var s := Run(ts, |ts|); Hangs(nodes, ts, [], PlugAll(s.frames, s.focus.value))
  {
    var s := Run(ts, |ts|);
    HangsFromTop(nodes, ts, s.frames, s.focus.value);
  }
}
