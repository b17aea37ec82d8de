/**
 What the order of version numbers means (archival/dpkg.c, version_compare_part): a version is a list of texts
 and numbers in turn, and the first part that differs decides.
 */
module VersionParts {

  predicate IsDigit(c: char) {
    '0' <= c <= '9'
  }

  predicate AllDigits(s: string) {
    forall i :: 0 <= i < |s| ==> IsDigit(s[i])
  }

  predicate NoDigits(s: string) {
    forall i :: 0 <= i < |s| ==> !IsDigit(s[i])
  }

  /** a comes before b in the order of strcmp: it ends first, or has the smaller character where they differ first. */
  ghost predicate StrBefore(a: string, b: string) {
    exists k :: 0 <= k <= |a| && k < |b| && a[..k] == b[..k] && (k == |a| || a[k] < b[k])
  }

  /** A text without digits and the digits that follow it. */
  datatype Part = Part(text: string, digits: string)

  function Joined(ps: seq<Part>): string {
    if ps == [] then [] else ps[0].text + ps[0].digits + Joined(ps[1..])
  }

  /** Texts and digits take turns: only the first text and the last digits may be empty. */
  ghost predicate Alternate(ps: seq<Part>) {
    forall i :: 0 <= i < |ps| ==>
      && NoDigits(ps[i].text) && AllDigits(ps[i].digits)
      && (i > 0 ==> ps[i].text != []) && (i + 1 < |ps| ==> ps[i].digits != [])
      && (ps[i].text != [] || ps[i].digits != [])
  }

  /** The parts of s. */
  ghost predicate Splits(s: string, ps: seq<Part>) {
    Joined(ps) == s && Alternate(ps)
  }

  /** Behind the last part the parts are empty. */
  function PartAt(ps: seq<Part>, i: nat): Part {
    if i < |ps| then ps[i] else Part([], [])
  }

  /** Equal texts and numbers. */
  predicate Same(p: Part, q: Part, num: string -> int) {
    p.text == q.text && num(p.digits) == num(q.digits)
  }

  ghost predicate Less(p: Part, q: Part, num: string -> int) {
    StrBefore(p.text, q.text) || (p.text == q.text && num(p.digits) < num(q.digits))
  }

  /** The parts are equal up to k. */
  ghost predicate SameTo(ps: seq<Part>, qs: seq<Part>, k: nat, num: string -> int) {
    forall i :: 0 <= i < k ==> Same(PartAt(ps, i), PartAt(qs, i), num)
  }

  function Longer(ps: seq<Part>, qs: seq<Part>): nat {
    if |ps| > |qs| then |ps| else |qs|
  }

  ghost predicate Equal(ps: seq<Part>, qs: seq<Part>, num: string -> int) {
    SameTo(ps, qs, Longer(ps, qs), num)
  }

  /** The first parts that are not equal are in order. */
  ghost predicate Before(ps: seq<Part>, qs: seq<Part>, num: string -> int) {
    exists k :: 0 <= k < Longer(ps, qs) && SameTo(ps, qs, k, num) && Less(PartAt(ps, k), PartAt(qs, k), num)
  }

  function Tail(ps: seq<Part>): seq<Part> {
    if ps == [] then [] else ps[1..]
  }

  lemma TailAt(ps: seq<Part>, i: nat)
    ensures PartAt(Tail(ps), i) == PartAt(ps, i + 1)
  {
  }

  lemma SameStep(ps: seq<Part>, qs: seq<Part>, k: nat, num: string -> int)
    ensures SameTo(ps, qs, k + 1, num) <==> Same(PartAt(ps, 0), PartAt(qs, 0), num) && SameTo(Tail(ps), Tail(qs), k, num)
  {
    hide Same, PartAt, Tail;
    if SameTo(ps, qs, k + 1, num) {
      forall i | 0 <= i < k
        ensures Same(PartAt(Tail(ps), i), PartAt(Tail(qs), i), num)
      {
        TailAt(ps, i);
        TailAt(qs, i);
      }
    }
    if Same(PartAt(ps, 0), PartAt(qs, 0), num) && SameTo(Tail(ps), Tail(qs), k, num) {
      forall i | 0 <= i < k + 1
        ensures Same(PartAt(ps, i), PartAt(qs, i), num)
      {
        if i > 0 {
          TailAt(ps, i - 1);
          TailAt(qs, i - 1);
        }
      }
    }
  }

  lemma LongerStep(ps: seq<Part>, qs: seq<Part>)
    requires ps != [] || qs != []
    ensures Longer(ps, qs) == Longer(Tail(ps), Tail(qs)) + 1
  {
  }

  lemma EqualStep(ps: seq<Part>, qs: seq<Part>, num: string -> int)
    requires ps != [] || qs != []
    ensures Equal(ps, qs, num) <==> Same(PartAt(ps, 0), PartAt(qs, 0), num) && Equal(Tail(ps), Tail(qs), num)
  {
    hide Same, PartAt, Tail, SameTo, Longer;
    LongerStep(ps, qs);
    SameStep(ps, qs, Longer(Tail(ps), Tail(qs)), num);
  }

  /** The first parts decide, or those after them. */
  lemma BeforeStep(ps: seq<Part>, qs: seq<Part>, num: string -> int)
    requires ps != [] || qs != []
    ensures Before(ps, qs, num) <==>
            Less(PartAt(ps, 0), PartAt(qs, 0), num) || (Same(PartAt(ps, 0), PartAt(qs, 0), num) && Before(Tail(ps), Tail(qs), num))
  {
    hide Same, Less, PartAt, Tail, Longer;
    LongerStep(ps, qs);
    if Before(ps, qs, num) {
      var k :| 0 <= k < Longer(ps, qs) && SameTo(ps, qs, k, num) && Less(PartAt(ps, k), PartAt(qs, k), num);
      if k > 0 {
        SameStep(ps, qs, k - 1, num);
        TailAt(ps, k - 1);
        TailAt(qs, k - 1);
      }
    }
    if Less(PartAt(ps, 0), PartAt(qs, 0), num) {
      assert SameTo(ps, qs, 0, num);
    }
    if Same(PartAt(ps, 0), PartAt(qs, 0), num) && Before(Tail(ps), Tail(qs), num) {
      var k :| 0 <= k < Longer(Tail(ps), Tail(qs)) && SameTo(Tail(ps), Tail(qs), k, num)
               && Less(PartAt(Tail(ps), k), PartAt(Tail(qs), k), num);
      SameStep(ps, qs, k, num);
      TailAt(ps, k);
      TailAt(qs, k);
    }
  }
}
