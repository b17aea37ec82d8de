/**
 Version numbers (archival/dpkg.c, version_compare_part, version_compare and test_version): texts and
 numbers alternate, and the comparison is a total preorder on strings.
 */
module Versions {
  import opened VersionParts

  /** How many characters come before the first digit (strcspn), or the first that is none (strspn). */
  function Span(s: string, digits: bool): (n: nat)
    ensures n <= |s| && forall i :: 0 <= i < n ==> IsDigit(s[i]) == digits
    ensures n < |s| ==> IsDigit(s[n]) != digits
  {
    if s == [] || IsDigit(s[0]) != digits then 0 else 1 + Span(s[1..], digits)
  }

  /** strcmp, as a sign. */
  function StrCmp(a: string, b: string): (r: int)
    ensures -1 <= r <= 1
  {
    if a == [] then if b == [] then 0 else -1
    else if b == [] then 1
    else if a[0] < b[0] then -1
    else if a[0] > b[0] then 1
    else StrCmp(a[1..], b[1..])
  }

  function Sign(m: int, n: int): (r: int)
    ensures -1 <= r <= 1
  {
    if m < n then -1 else if m > n then 1 else 0
  }

  lemma {:induction false} StrCmpOrder(a: string, b: string, c: string)
    ensures StrCmp(a, b) == 0 <==> a == b
    ensures StrCmp(b, a) == -StrCmp(a, b)
    ensures StrCmp(a, b) <= 0 && StrCmp(b, c) <= 0 ==> StrCmp(a, c) <= 0
  {
    if a != [] && b != [] {
      if a[0] == b[0] {
        assert a == b <==> a[1..] == b[1..];
      }
      StrCmpOrder(a[1..], b[1..], if c == [] then [] else c[1..]);
    }
  }

  /** The text up to the first digit, and what follows it. */
  function Text(s: string): string {
    s[..Span(s, false)]
  }

  function AfterText(s: string): string {
    s[Span(s, false)..]
  }

  function Digits(s: string): string {
    AfterText(s)[..Span(AfterText(s), true)]
  }

  /** What is left after the first text and the first number. */
  function Rest(s: string): (r: string)
    ensures |r| <= |s| && (s != [] ==> |r| < |s|)
  {
    AfterText(s)[Span(AfterText(s), true)..]
  }

  /** Texts and numbers are compared in turn until one side differs; an exhausted side counts as empty. */
  function Compare(s: string, t: string, num: string -> int): (r: int)
    ensures -1 <= r <= 1
    decreases |s| + |t|
  {
    if s == [] && t == [] then 0
    else if StrCmp(Text(s), Text(t)) != 0 then StrCmp(Text(s), Text(t))
    else if num(Digits(s)) != num(Digits(t)) then Sign(num(Digits(s)), num(Digits(t)))
    else Compare(Rest(s), Rest(t), num)
  }

  lemma {:induction false} CompareSelf(s: string, num: string -> int)
    ensures Compare(s, s, num) == 0
    decreases |s|
  {
    if s != [] {
      StrCmpOrder(Text(s), Text(s), []);
      CompareSelf(Rest(s), num);
    }
  }

  lemma {:induction false} CompareOpposite(s: string, t: string, num: string -> int)
    ensures Compare(t, s, num) == -Compare(s, t, num)
    decreases |s| + |t|
  {
    if s != [] || t != [] {
      StrCmpOrder(Text(s), Text(t), []);
      CompareOpposite(Rest(s), Rest(t), num);
    }
  }

  lemma {:induction false} CompareTransitive(s: string, t: string, u: string, num: string -> int)
    requires Compare(s, t, num) <= 0 && Compare(t, u, num) <= 0
    ensures Compare(s, u, num) <= 0
    decreases |s| + |t| + |u|
  {
    hide StrCmp, Text, Digits;
    if s == t || t == u {
    } else if s == [] && u == [] {
    } else {
      StrCmpOrder(Text(s), Text(t), Text(u));
      StrCmpOrder(Text(t), Text(u), Text(s));
      StrCmpOrder(Text(u), Text(s), Text(t));
      if Text(s) == Text(t) == Text(u) && num(Digits(s)) == num(Digits(t)) == num(Digits(u)) {
        CompareTransitive(Rest(s), Rest(t), Rest(u), num);
      }
    }
  }

  /** strcmp is the order of the first difference. */
  lemma {:induction false} StrCmpMeans(a: string, b: string)
    ensures StrCmp(a, b) < 0 <==> StrBefore(a, b)
  {
    if a != [] && b != [] && a[0] == b[0] {
      StrCmpMeans(a[1..], b[1..]);
      if StrBefore(a[1..], b[1..]) {
        var k :| 0 <= k <= |a[1..]| && k < |b[1..]| && a[1..][..k] == b[1..][..k] && (k == |a[1..]| || a[1..][k] < b[1..][k]);
        assert a[..k + 1] == [a[0]] + a[1..][..k] && b[..k + 1] == [b[0]] + b[1..][..k];
      }
      if StrBefore(a, b) {
        var k :| 0 <= k <= |a| && k < |b| && a[..k] == b[..k] && (k == |a| || a[k] < b[k]);
        assert k > 0 && a[1..][..k - 1] == a[..k][1..] && b[1..][..k - 1] == b[..k][1..];
      }
    } else if b != [] && (a == [] || a[0] < b[0]) {
      assert a[..0] == b[..0];
    } else if StrBefore(a, b) {
      var k :| 0 <= k <= |a| && k < |b| && a[..k] == b[..k] && (k == |a| || a[k] < b[k]);
      assert k > 0 ==> a[..k][0] == b[..k][0];
    }
  }

  /** The parts of a version, as the comparison takes them. */
  function Parts(s: string): seq<Part> {
    if s == [] then [] else [Part(Text(s), Digits(s))] + Parts(Rest(s))
  }

  lemma PartsOf(s: string)
    requires s != []
    ensures s == Text(s) + Digits(s) + Rest(s) && NoDigits(Text(s)) && AllDigits(Digits(s))
    ensures (Text(s) != [] || Digits(s) != []) && (!IsDigit(s[0]) ==> Text(s) != [])
    ensures Rest(s) != [] ==> Digits(s) != [] && !IsDigit(Rest(s)[0])
  {
    hide Span;
  }

  lemma {:induction false} PartsSplit(s: string)
    ensures Splits(s, Parts(s)) && (s != [] <==> Parts(s) != [])
    ensures s != [] && !IsDigit(s[0]) ==> Parts(s)[0].text != []
  {
    hide Text, Digits, NoDigits, AllDigits;
    if s != [] {
      hide Rest;
      PartsOf(s);
      PartsSplit(Rest(s));
      AlternateMore(Part(Text(s), Digits(s)), Parts(Rest(s)));
    }
  }

  lemma AlternateMore(p: Part, ps: seq<Part>)
    requires Alternate(ps) && NoDigits(p.text) && AllDigits(p.digits) && (p.text != [] || p.digits != [])
    requires ps != [] ==> p.digits != [] && ps[0].text != []
    ensures Alternate([p] + ps) && Joined([p] + ps) == p.text + p.digits + Joined(ps)
  {
    var more := [p] + ps;
    assert more[1..] == ps;
    assert forall i :: 1 <= i < |more| ==> more[i] == ps[i - 1];
  }

  /** However a version is split, its first part is what the comparison takes first. */
  lemma FirstPart(s: string, ps: seq<Part>)
    requires Splits(s, ps) && ps != []
    ensures s != [] && Text(s) == ps[0].text && Digits(s) == ps[0].digits && Rest(s) == Joined(ps[1..]) && Splits(Rest(s), ps[1..])
  {
    var p, rest := ps[0], Joined(ps[1..]);
    assert s == p.text + (p.digits + rest);
    if |ps| > 1 {
      assert ps[1..][0] == ps[1] && rest[0] == ps[1].text[0];
    }
    SpanIs(p.text, p.digits + rest, false);
    SpanIs(p.digits, rest, true);
    assert s[|p.text|..] == p.digits + rest && (p.digits + rest)[|p.digits|..] == rest;
  }

  lemma {:induction false} SpanIs(a: string, b: string, digits: bool)
    requires (if digits then AllDigits(a) else NoDigits(a)) && (b != [] ==> IsDigit(b[0]) != digits)
    ensures Span(a + b, digits) == |a|
  {
    if a == [] {
      assert a + b == b;
    } else {
      SpanIs(a[1..], b, digits);
      assert (a + b)[1..] == a[1..] + b;
    }
  }

  /** The comparison is the order of the parts. */
  lemma {:induction false} CompareMeans(s: string, t: string, ps: seq<Part>, qs: seq<Part>, num: string -> int)
    requires Splits(s, ps) && Splits(t, qs)
    ensures Compare(s, t, num) < 0 <==> Before(ps, qs, num)
    ensures Compare(s, t, num) == 0 <==> Equal(ps, qs, num)
    decreases |ps| + |qs|
  {
    hide Splits, Before, Equal, StrCmp, Text, Digits, Rest, StrBefore, Joined;
    SplitEmpty(s, ps);
    SplitEmpty(t, qs);
    if ps != [] || qs != [] {
      FirstOrNone(s, ps);
      FirstOrNone(t, qs);
      StrCmpMeans(Text(s), Text(t));
      StrCmpOrder(Text(s), Text(t), []);
      BeforeStep(ps, qs, num);
      EqualStep(ps, qs, num);
      CompareMeans(Rest(s), Rest(t), Tail(ps), Tail(qs), num);
      NotBoth(Text(s), Text(t));
    } else {
      NothingBefore(num);
    }
  }

  lemma NotBoth(a: string, b: string)
    ensures !(StrBefore(a, b) && a == b)
  {
  }

  lemma NothingBefore(num: string -> int)
    ensures !Before([], [], num) && Equal([], [], num)
  {
  }

  lemma SplitEmpty(s: string, ps: seq<Part>)
    requires Splits(s, ps)
    ensures s == [] <==> ps == []
  {
  }

  lemma FirstOrNone(s: string, ps: seq<Part>)
    requires Splits(s, ps)
    ensures Text(s) == PartAt(ps, 0).text && Digits(s) == PartAt(ps, 0).digits && Splits(Rest(s), Tail(ps))
  {
    hide Splits;
    SplitEmpty(s, ps);
    if ps != [] {
      FirstPart(s, ps);
    }
  }

  /** version_compare_part: the first part that differs decides. */
  method ComparePart(version1: string, version2: string, num: string -> int) returns (ret: int)
    ensures ret == Compare(version1, version2, num)
    ensures ret < 0 <==> Before(Parts(version1), Parts(version2), num)
    ensures ret == 0 <==> Equal(Parts(version1), Parts(version2), num)
  {
    hide StrCmp, Span, Before, Equal, Parts, Splits, Compare;
    PartsSplit(version1);
    PartsSplit(version2);
    CompareMeans(version1, version2, Parts(version1), Parts(version2), num);
    var len1: nat, len2: nat := 0, 0;
    while len1 < |version1| || len2 < |version2|
      invariant len1 <= |version1| && len2 <= |version2|
      invariant Compare(version1[len1..], version2[len2..], num) == Compare(version1, version2, num)
      decreases |version1| - len1 + |version2| - len2
    {
      ghost var s, t := version1[len1..], version2[len2..];
      CompareStep(s, t, num);
      var name1, name2, digits1, digits2;
      name1, len1 := NextPart(version1, len1, false);
      name2, len2 := NextPart(version2, len2, false);
      var c := StrCmp(name1, name2);
      if c != 0 {
        return c;
      }
      digits1, len1 := NextPart(version1, len1, true);
      digits2, len2 := NextPart(version2, len2, true);
      var num1, num2 := num(digits1), num(digits2);
      if num1 < num2 {
        return -1;
      } else if num1 > num2 {
        return 1;
      }
    }
    assert version1[len1..] == [] && version2[len2..] == [];
    CompareSelf([], num);
    ret := 0;
  }

  lemma CompareStep(s: string, t: string, num: string -> int)
    requires s != [] || t != []
    ensures Compare(s, t, num) ==
            if StrCmp(Text(s), Text(t)) != 0 then StrCmp(Text(s), Text(t))
            else if num(Digits(s)) != num(Digits(t)) then Sign(num(Digits(s)), num(Digits(t)))
            else Compare(Rest(s), Rest(t), num)
  {
  }

  /** The digits, or other characters, of a version from a place on, and the place after them. */
  method NextPart(version: string, len: nat, digits: bool) returns (part: string, next: nat)
    requires len <= |version|
    ensures len <= next <= |version|
    ensures part == version[len..][..Span(version[len..], digits)]
    ensures version[next..] == version[len..][Span(version[len..], digits)..]
  {
    var n := Span(version[len..], digits);
    part, next := version[len..len + n], len + n;
  }

  predicate HasEpoch(v: string) {
    |v| >= 2 && v[1] == ':'
  }

  function Epoch(v: string): char {
    if HasEpoch(v) then v[0] else '0'
  }

  /** What follows the first colon, if the version has an epoch. */
  function Body(v: string): string {
    if HasEpoch(v) then if v[0] == ':' then v[1..] else v[2..] else v
  }

  /** The place of the last dash, or the length of the string. */
  function LastDash(v: string): (n: nat)
    ensures n <= |v| && (n < |v| ==> v[n] == '-')
  {
    if v == [] then 0
    else if v[|v| - 1] == '-' then |v| - 1
    else
      var n := LastDash(v[..|v| - 1]);
      if n == |v| - 1 then |v| else n
  }

  function Upstream(v: string): string {
    v[..LastDash(v)]
  }

  function Debian(v: string): string {
    if LastDash(v) < |v| then v[LastDash(v) + 1..] else []
  }

  /** version_compare: epochs, then upstream versions, then Debian revisions. */
  function VersionCompare(v: string, w: string, num: string -> int): (r: int)
    ensures -1 <= r <= 1
  {
    if Epoch(v) < Epoch(w) then -1
    else if Epoch(v) > Epoch(w) then 1
    else if Compare(Upstream(Body(v)), Upstream(Body(w)), num) != 0 then
      Compare(Upstream(Body(v)), Upstream(Body(w)), num)
    else Compare(Debian(Body(v)), Debian(Body(w)), num)
  }

  /** version_compare is a total preorder: reflexive, opposite in the opposite direction, transitive. */
  lemma VersionPreorder(v: string, w: string, x: string, num: string -> int)
    ensures VersionCompare(v, v, num) == 0
    ensures VersionCompare(w, v, num) == -VersionCompare(v, w, num)
    ensures VersionCompare(v, w, num) <= 0 && VersionCompare(w, x, num) <= 0 ==> VersionCompare(v, x, num) <= 0
  {
    hide Compare, LastDash, Body, Epoch, Upstream, Debian;
    CompareOrder(Upstream(Body(v)), Upstream(Body(w)), Upstream(Body(x)), num);
    CompareOrder(Debian(Body(v)), Debian(Body(w)), Debian(Body(x)), num);
  }

  lemma CompareOrder(s: string, t: string, u: string, num: string -> int)
    ensures Compare(s, s, num) == 0 && Compare(t, s, num) == -Compare(s, t, num)
    ensures Compare(s, t, num) <= 0 && Compare(t, u, num) <= 0 ==> Compare(s, u, num) <= 0
    ensures Compare(s, t, num) <= 0 && Compare(t, u, num) <= 0 && Compare(s, u, num) == 0 ==>
              Compare(s, t, num) == 0 && Compare(t, u, num) == 0
  {
    hide Compare;
    CompareSelf(s, num);
    CompareOpposite(s, t, num);
    CompareOpposite(t, u, num);
    CompareOpposite(s, u, num);
    if Compare(s, t, num) <= 0 && Compare(t, u, num) <= 0 {
      CompareTransitive(s, t, u, num);
      if Compare(s, u, num) == 0 {
        CompareTransitive(u, s, t, num);
        CompareTransitive(t, u, s, num);
      }
    }
  }

  datatype Operator = VerEqual | VerLess | VerLessEqual | VerMore | VerMoreEqual | VerAny

  /** test_version. */
  predicate TestVersion(v: string, w: string, op: Operator, num: string -> int) {
    match op
    case VerAny => true
    case VerEqual => VersionCompare(v, w, num) == 0
    case VerLess => VersionCompare(v, w, num) < 0
    case VerLessEqual => VersionCompare(v, w, num) <= 0
    case VerMore => VersionCompare(v, w, num) > 0
    case VerMoreEqual => VersionCompare(v, w, num) >= 0
  }

  /** A bound met by one version is met by every version beyond it. */
  lemma BoundsCarry(v: string, w: string, bound: string, num: string -> int)
    requires VersionCompare(v, w, num) <= 0
    ensures TestVersion(v, bound, VerMore, num) ==> TestVersion(w, bound, VerMore, num)
    ensures TestVersion(v, bound, VerMoreEqual, num) ==> TestVersion(w, bound, VerMoreEqual, num)
    ensures TestVersion(w, bound, VerLess, num) ==> TestVersion(v, bound, VerLess, num)
    ensures TestVersion(w, bound, VerLessEqual, num) ==> TestVersion(v, bound, VerLessEqual, num)
  {
    hide VersionCompare;
    VersionPreorder(v, w, bound, num);
    VersionPreorder(w, bound, v, num);
    VersionPreorder(bound, v, w, num);
  }

  /** What a version string says. */
  datatype Version = Version(epoch: char, upstream: string, revision: string)

  /** One character in front of a colon is the epoch, and what follows the first colon is the version. */
  ghost predicate Dated(v: string, epoch: char, body: string) {
    if |v| >= 2 && v[1] == ':' then epoch == v[0] && exists pre: string :: v == pre + ":" + body && ':' !in pre
    else epoch == '0' && body == v
  }

  /** What follows the last dash is the revision. */
  ghost predicate Revised(body: string, upstream: string, revision: string) {
    if '-' in body then body == upstream + "-" + revision && '-' !in revision else upstream == body && revision == []
  }

  ghost predicate Written(v: string, x: Version) {
    exists body: string :: Dated(v, x.epoch, body) && Revised(body, x.upstream, x.revision)
  }

  /** s comes before t: the first parts that differ are in order. */
  ghost predicate PartBefore(s: string, t: string, num: string -> int) {
    exists ps, qs :: Splits(s, ps) && Splits(t, qs) && Before(ps, qs, num)
  }

  ghost predicate PartEqual(s: string, t: string, num: string -> int) {
    exists ps, qs :: Splits(s, ps) && Splits(t, qs) && Equal(ps, qs, num)
  }

  /** A smaller epoch is earlier; then the upstream version decides, then the revision. */
  ghost predicate Earlier(x: Version, y: Version, num: string -> int) {
    || x.epoch < y.epoch
    || (x.epoch == y.epoch &&
        (PartBefore(x.upstream, y.upstream, num) ||
         (PartEqual(x.upstream, y.upstream, num) && PartBefore(x.revision, y.revision, num))))
  }

  ghost predicate VersionBefore(v: string, w: string, num: string -> int) {
    exists x, y :: Written(v, x) && Written(w, y) && Earlier(x, y, num)
  }

  lemma PartOrder(s: string, t: string, num: string -> int)
    ensures PartBefore(s, t, num) <==> Compare(s, t, num) < 0
    ensures PartEqual(s, t, num) <==> Compare(s, t, num) == 0
  {
    hide Splits, Before, Equal, Compare, Parts;
    PartsSplit(s);
    PartsSplit(t);
    CompareMeans(s, t, Parts(s), Parts(t), num);
    if PartBefore(s, t, num) {
      var ps, qs :| Splits(s, ps) && Splits(t, qs) && Before(ps, qs, num);
      CompareMeans(s, t, ps, qs, num);
    }
    if PartEqual(s, t, num) {
      var ps, qs :| Splits(s, ps) && Splits(t, qs) && Equal(ps, qs, num);
      CompareMeans(s, t, ps, qs, num);
    }
  }

  lemma {:induction false} LastDashIs(v: string)
    ensures (LastDash(v) == |v| <==> '-' !in v) && forall i :: LastDash(v) < i < |v| ==> v[i] != '-'
  {
    if v != [] {
      LastDashIs(v[..|v| - 1]);
      assert v == v[..|v| - 1] + [v[|v| - 1]];
    }
  }

  lemma RevisedIs(body: string, u: string, r: string)
    ensures Revised(body, u, r) <==> u == Upstream(body) && r == Debian(body)
  {
    LastDashIs(body);
    var n := LastDash(body);
    if '-' in body {
      assert body == body[..n] + "-" + body[n + 1..];
      if Revised(body, u, r) {
        assert body[|u|] == '-' && body[|u| + 1..] == r && body[..|u|] == u;
        assert n == |u|;
      }
    }
  }

  lemma DatedIs(v: string, e: char, body: string)
    ensures Dated(v, e, body) <==> e == Epoch(v) && body == Body(v)
  {
    if HasEpoch(v) {
      var pre := if v[0] == ':' then "" else [v[0]];
      assert v == pre + ":" + Body(v) && ':' !in pre;
      if Dated(v, e, body) {
        var other: string :| v == other + ":" + body && ':' !in other;
        assert v[|other|] == ':' && v[|other| + 1..] == body && v[..|other|] == other;
        assert |other| > 0 ==> other[0] == v[0];
      }
    }
  }

  lemma WrittenIs(v: string, x: Version)
    ensures Written(v, x) <==> x == Version(Epoch(v), Upstream(Body(v)), Debian(Body(v)))
  {
    hide Dated, Revised, Epoch, Upstream, Debian, Body;
    DatedIs(v, Epoch(v), Body(v));
    RevisedIs(Body(v), Upstream(Body(v)), Debian(Body(v)));
    if Written(v, x) {
      var body: string :| Dated(v, x.epoch, body) && Revised(body, x.upstream, x.revision);
      DatedIs(v, x.epoch, body);
      RevisedIs(body, x.upstream, x.revision);
    }
  }

  /** version_compare is that order. */
  lemma VersionMeans(v: string, w: string, num: string -> int)
    ensures VersionCompare(v, w, num) < 0 <==> VersionBefore(v, w, num)
    ensures VersionCompare(v, w, num) > 0 <==> VersionBefore(w, v, num)
  {
    VersionOneWay(v, w, num);
    VersionOneWay(w, v, num);
    VersionPreorder(v, w, v, num);
  }

  lemma VersionOneWay(v: string, w: string, num: string -> int)
    ensures VersionCompare(v, w, num) < 0 <==> VersionBefore(v, w, num)
  {
    hide Written, Epoch, Upstream, Debian, Body, Compare, PartBefore, PartEqual;
    var x, y := Version(Epoch(v), Upstream(Body(v)), Debian(Body(v))), Version(Epoch(w), Upstream(Body(w)), Debian(Body(w)));
    WrittenIs(v, x);
    WrittenIs(w, y);
    PartOrder(x.upstream, y.upstream, num);
    PartOrder(x.revision, y.revision, num);
    if VersionBefore(v, w, num) {
      var x', y' :| Written(v, x') && Written(w, y') && Earlier(x', y', num);
      WrittenIs(v, x');
      WrittenIs(w, y');
    }
  }

  /** What the operators of a dependency ask for. */
  lemma OperatorsMean(v: string, w: string, num: string -> int)
    ensures TestVersion(v, w, VerLess, num) <==> VersionBefore(v, w, num)
    ensures TestVersion(v, w, VerMore, num) <==> VersionBefore(w, v, num)
    ensures TestVersion(v, w, VerLessEqual, num) <==> !VersionBefore(w, v, num)
    ensures TestVersion(v, w, VerMoreEqual, num) <==> !VersionBefore(v, w, num)
    ensures TestVersion(v, w, VerEqual, num) <==> !VersionBefore(v, w, num) && !VersionBefore(w, v, num)
    ensures TestVersion(v, w, VerAny, num)
  {
    hide VersionCompare, VersionBefore;
    VersionMeans(v, w, num);
  }
}
