/**
 Equivalence classes of equal lines (coreutils/diff.c, equiv and unsort): every line of the first
 file is led to the list of the equal lines of the second.
 */
module DiffClasses {
  import opened DiffSort

  /** s[1..n] are the lines of file a, in some order. */
  ghost predicate Filed(s: seq<Line>, a: seq<int>) {
    && |a| < |s|
    && (forall p :: 1 <= p <= |a| ==> 1 <= s[p].serial <= |a| && s[p].value == a[s[p].serial - 1])
    && (forall p, q :: 1 <= p < q <= |a| ==> s[p].serial != s[q].serial)
    && (forall i :: 1 <= i <= |a| ==> Holds(s, |a|, i))
  }

  ghost predicate Holds(s: seq<Line>, n: nat, i: nat)
    requires n < |s|
  {
    exists p :: 1 <= p <= n && s[p].serial == i
  }

  /** The lines numbered in order, as prune leaves them. */
  ghost predicate Numbered(s: seq<Line>, a: seq<int>) {
    |a| < |s| && forall p :: 1 <= p <= |a| ==> s[p] == Line(a[p - 1], p)
  }

  lemma MiddleKept(s: seq<Line>, r: seq<Line>, n: nat)
    requires Rearranged(s, r, n)
    ensures multiset(r[1..n + 1]) == multiset(s[1..n + 1])
  {
    assert s == [s[0]] + s[1..n + 1] + s[n + 1..];
    assert r == [r[0]] + r[1..n + 1] + r[n + 1..];
    assert s[n + 1..] == r[n + 1..];
    CancelEnds([s[0]], s[1..n + 1], r[1..n + 1], s[n + 1..]);
  }

  lemma CancelEnds(x: seq<Line>, a: seq<Line>, b: seq<Line>, y: seq<Line>)
    requires multiset(x + a + y) == multiset(x + b + y)
    ensures multiset(a) == multiset(b)
  {
    forall e: Line
      ensures multiset(a)[e] == multiset(b)[e]
    {
      assert multiset(x + a + y)[e] == multiset(x)[e] + multiset(a)[e] + multiset(y)[e];
      assert multiset(x + b + y)[e] == multiset(x)[e] + multiset(b)[e] + multiset(y)[e];
    }
  }

  lemma TwoPlaces(r: seq<Line>, p: nat, q: nat)
    requires p < q < |r| && r[p] == r[q]
    ensures multiset(r)[r[p]] >= 2
  {
    assert r == r[..p] + [r[p]] + r[p + 1..q] + [r[q]] + r[q + 1..];
  }

  lemma {:induction false} OncePlaced(s: seq<Line>, a: seq<int>, k: nat, x: Line)
    requires Numbered(s, a) && k <= |a|
    ensures multiset(s[1..k + 1])[x] <= 1 && (x in s[1..k + 1] ==> 1 <= x.serial <= k)
  {
    if k > 0 {
      OncePlaced(s, a, k - 1, x);
      assert s[1..k + 1] == s[1..k] + [s[k]];
    } else {
      assert s[1..1] == [];
    }
  }

  /** Sorting keeps the lines. */
  lemma StillFiled(s: seq<Line>, r: seq<Line>, a: seq<int>)
    requires Numbered(s, a) && Rearranged(s, r, |a|)
    ensures Filed(r, a)
  {
    var n := |a|;
    var sm, rm := s[1..n + 1], r[1..n + 1];
    MiddleKept(s, r, n);
    forall p | 1 <= p <= n
      ensures 1 <= r[p].serial <= n && r[p].value == a[r[p].serial - 1]
    {
      assert r[p] == rm[p - 1];
      assert r[p] in multiset(sm);
    }
    forall p, q | 1 <= p < q <= n
      ensures r[p].serial != r[q].serial
    {
      if r[p].serial == r[q].serial {
        assert rm[p - 1] == r[p] == r[q] == rm[q - 1];
        TwoPlaces(rm, p - 1, q - 1);
        OncePlaced(s, a, n, r[p]);
      }
    }
    forall i | 1 <= i <= n
      ensures Holds(r, n, i)
    {
      assert sm[i - 1] == Line(a[i - 1], i);
      assert sm[i - 1] in multiset(rm);
      var p :| 0 <= p < n && rm[p] == sm[i - 1];
      assert r[p + 1].serial == i;
    }
  }

  function Abs(x: int): nat {
    if x < 0 then -x else x
  }

  /** mem[j..e] lists the lines of b with value v in order, the first one negative. */
  ghost predicate Class(mem: seq<int>, j: nat, e: nat, b: seq<int>, v: int) {
    && 1 <= j < e < |mem| && mem[j] < 0 && mem[e] <= 0
    && (forall t :: j < t < e ==> mem[t] > 0)
    && (forall t, u :: j <= t < u < e ==> Abs(mem[t]) < Abs(mem[u]))
    && (forall t :: j <= t < e ==> 1 <= Abs(mem[t]) <= |b| && b[Abs(mem[t]) - 1] == v)
    && (forall y :: 1 <= y <= |b| && b[y - 1] == v ==> Lists(mem, j, e, y))
  }

  ghost predicate Lists(mem: seq<int>, j: nat, e: nat, y: nat)
    requires e <= |mem|
  {
    exists t :: j <= t < e && Abs(mem[t]) == y
  }

  ghost predicate HasClass(mem: seq<int>, j: int, b: seq<int>, v: int) {
    j > 0 && exists e :: Class(mem, j, e, b, v)
  }

  /** cls leads line i of a to its class in mem, or is 0 if b has no equal line. */
  ghost predicate Classed(a: seq<int>, b: seq<int>, cls: seq<int>, mem: seq<int>) {
    && |a| < |cls|
    && forall i :: 1 <= i <= |a| ==>
         if cls[i] == 0 then a[i - 1] !in b else HasClass(mem, cls[i], b, a[i - 1])
  }

  /** j is the first index in the sorted lines s with value v, or 0 if there is none. */
  ghost predicate FirstAt(s: seq<Line>, m: nat, v: int, j: int)
    requires m < |s|
  {
    if j == 0 then forall q :: 1 <= q <= m ==> s[q].value != v
    else 1 <= j <= m && s[j].value == v && forall q :: 1 <= q < j ==> s[q].value < v
  }

  /** The squeezed list of b: serials in sorted order, the first of each value negative. */
  ghost predicate Squeezed(s: seq<Line>, m: nat, mem: seq<int>, k: nat)
    requires m < |s|
  {
    k <= m && m + 1 < |mem| && forall j :: 1 <= j <= k ==> mem[j] == MemOf(s, j)
  }

  function MemOf(s: seq<Line>, j: nat): int
    requires 1 <= j < |s|
  {
    if 1 < j && s[j - 1].value == s[j].value then s[j].serial else -(s[j].serial as int)
  }

  ghost predicate ValuesRise(s: seq<Line>, n: nat)
    requires n < |s|
  {
    forall p, q :: 1 <= p < q <= n ==> s[p].value <= s[q].value
  }

  lemma SortedRise(s: seq<Line>, n: nat)
    requires n < |s| && Sorted(s, 1, n + 1)
    ensures ValuesRise(s, n)
  {
  }

  /** The first i lines have been led to their classes, the others are as they were. */
  ghost predicate LookedUp(s: seq<Line>, r: seq<Line>, i: nat, n: nat, b: seq<Line>, m: nat)
    requires n < |s| == |r| && m < |b|
  {
    && i <= n + 1
    && (forall p :: 1 <= p < i ==> r[p].serial == s[p].serial && FirstAt(b, m, s[p].value, r[p].value))
    && (forall p :: i <= p <= n ==> r[p] == s[p])
  }

  /** The first loops of equiv: values are replaced by class indices. */
  method Lookup(a: array<Line>, n: nat, b: array<Line>, m: nat)
    requires a != b && n < a.Length && m < b.Length && ValuesRise(a[..], n) && ValuesRise(b[..], m)
    modifies a
    ensures LookedUp(old(a[..]), a[..], n + 1, n, b[..], m)
  {
    hide FirstAt;
    ghost var s, bs := a[..], b[..];
    var i, j := 1, 1;
    while i <= n && j <= m
      invariant 1 <= i <= n + 1 && 1 <= j <= m + 1 && LookedUp(s, a[..], i, n, bs, m)
      invariant i <= n ==> forall q :: 1 <= q < j ==> bs[q].value < s[i].value
      decreases n - i + m - j
    {
      assert a[i] == a[..][i];
      if a[i].value < b[j].value {
        NoClass(bs, m, s[i].value, j);
        a[i] := a[i].(value := 0);
        i := i + 1;
      } else if a[i].value == b[j].value {
        FirstIs(bs, m, s[i].value, j);
        a[i] := a[i].(value := j);
        i := i + 1;
      } else {
        j := j + 1;
      }
    }
    while i <= n
      invariant 1 <= i <= n + 1 && LookedUp(s, a[..], i, n, bs, m)
      invariant i <= n ==> forall q :: 1 <= q <= m ==> bs[q].value < s[i].value
    {
      NoClass(bs, m, s[i].value, m + 1);
      assert a[i] == a[..][i];
      a[i] := a[i].(value := 0);
      i := i + 1;
    }
  }

  lemma NoClass(b: seq<Line>, m: nat, v: int, j: nat)
    requires m < |b| && ValuesRise(b, m) && 1 <= j <= m + 1
    requires forall q :: 1 <= q < j ==> b[q].value < v
    requires j <= m ==> v < b[j].value
    ensures FirstAt(b, m, v, 0)
  {
  }

  lemma FirstIs(b: seq<Line>, m: nat, v: int, j: nat)
    requires m < |b| && 1 <= j <= m && b[j].value == v
    requires forall q :: 1 <= q < j ==> b[q].value < v
    ensures FirstAt(b, m, v, j)
  {
  }

  /** The last loop of equiv: b is squeezed into mem, with a mark at the end. */
  method Squeeze(b: array<Line>, m: nat, mem: array<int>)
    requires m + 1 < b.Length && m + 1 < mem.Length
    requires forall q :: 1 <= q <= m ==> b[q].value != 0
    modifies b, mem
    ensures Squeezed(old(b[..]), m, mem[..], m) && mem[m + 1] == -1
  {
    b[m + 1] := b[m + 1].(value := 0);
    ghost var s := b[..];
    var j := 1;
    while j <= m
      invariant 1 <= j <= m + 1 && b[..] == s && Squeezed(s, m, mem[..], j - 1)
      invariant 1 < j <= m ==> s[j - 1].value != s[j].value
    {
      mem[j] := -(b[j].serial as int);
      while b[j + 1].value == b[j].value
        invariant 1 <= j <= m && b[..] == s && Squeezed(s, m, mem[..], j)
        decreases m - j
      {
        j := j + 1;
        mem[j] := b[j].serial;
      }
      j := j + 1;
    }
    mem[j] := -1;
    SqueezedFront(s, old(b[..]), m, mem[..]);
  }

  /** Only the lines of the file matter, not what stands after them. */
  lemma SqueezedFront(s: seq<Line>, r: seq<Line>, m: nat, mem: seq<int>)
    requires m < |s| == |r| && (forall q :: 0 <= q <= m ==> s[q] == r[q]) && Squeezed(s, m, mem, m)
    ensures Squeezed(r, m, mem, m)
  {
    assert forall j :: 1 <= j <= m ==> MemOf(s, j) == MemOf(r, j);
  }

  /** Where the run of equal values that starts at j ends. */
  function RunEnd(s: seq<Line>, m: nat, j: nat): (e: nat)
    requires 1 <= j <= m < |s|
    ensures j < e <= m + 1 && (forall t :: j <= t < e ==> s[t].value == s[j].value)
    ensures e <= m ==> s[e].value != s[j].value
    decreases m - j
  {
    if j == m || s[j + 1].value != s[j].value then j + 1 else RunEnd(s, m, j + 1)
  }

  lemma MemAt(s: seq<Line>, b: seq<int>, mem: seq<int>, v: int, j: nat, t: nat)
    requires Filed(s, b) && Squeezed(s, |b|, mem, |b|) && 1 <= j <= t <= |b| && FirstAt(s, |b|, v, j)
    requires forall u :: j <= u <= t ==> s[u].value == v
    ensures Abs(mem[t]) == s[t].serial >= 1 && (if t == j then mem[t] < 0 else mem[t] > 0)
    ensures s[t].serial <= |b| && b[s[t].serial - 1] == v
  {
    if t > j {
      assert s[t - 1].value == v;
    } else if t > 1 {
      assert s[t - 1].value < v;
    }
  }

  lemma SerialsRise(s: seq<Line>, b: seq<int>, t: nat, u: nat)
    requires Filed(s, b) && Sorted(s, 1, |b| + 1) && 1 <= t < u <= |b| && s[t].value == s[u].value
    ensures s[t].serial < s[u].serial
  {
  }

  /** The run of a value in the sorted lines of b is its class. */
  lemma RunIsClass(s: seq<Line>, b: seq<int>, mem: seq<int>, v: int, j: nat)
    requires 1 <= j <= |b| < |s| && FirstAt(s, |b|, v, j)
    requires Filed(s, b) && Sorted(s, 1, |b| + 1) && Squeezed(s, |b|, mem, |b|) && mem[|b| + 1] == -1
    ensures HasClass(mem, j, b, v)
  {
    hide Squeezed, Sorted, Filed;
    var m := |b|;
    var e := RunEnd(s, m, j);
    SqueezedShape(s, m, mem);
    forall t | j <= t < e
      ensures Abs(mem[t]) == s[t].serial >= 1 && (if t == j then mem[t] < 0 else mem[t] > 0)
      ensures s[t].serial <= |b| && b[s[t].serial - 1] == v
    {
      MemAt(s, b, mem, v, j, t);
    }
    forall t, u | j <= t < u < e
      ensures Abs(mem[t]) < Abs(mem[u])
    {
      SerialsRise(s, b, t, u);
    }
    forall y | 1 <= y <= m && b[y - 1] == v
      ensures Lists(mem, j, e, y)
    {
      LineInRun(s, b, v, j, e, y);
      var p :| j <= p < e && s[p].serial == y;
      assert Abs(mem[p]) == y;
    }
    RunStops(s, m, mem, j, e);
    assert Class(mem, j, e, b, v);
  }

  lemma LineInRun(s: seq<Line>, b: seq<int>, v: int, j: nat, e: nat, y: nat)
    requires Filed(s, b) && Sorted(s, 1, |b| + 1) && 1 <= j < e <= |b| + 1 && FirstAt(s, |b|, v, j)
    requires (e <= |b| ==> s[e].value != v) && 1 <= y <= |b| && b[y - 1] == v
    ensures exists p :: j <= p < e && s[p].serial == y
  {
    hide Sorted;
    assert Holds(s, |b|, y);
    var p :| 1 <= p <= |b| && s[p].serial == y;
    SortedRise(s, |b|);
    InRun(s, |b|, v, j, e, p);
  }

  lemma SqueezedShape(s: seq<Line>, m: nat, mem: seq<int>)
    requires m < |s| && Squeezed(s, m, mem, m)
    ensures m + 1 < |mem|
  {
  }

  lemma RunStops(s: seq<Line>, m: nat, mem: seq<int>, j: nat, e: nat)
    requires m < |s| && Squeezed(s, m, mem, m) && mem[m + 1] == -1 && 1 <= j < e <= m + 1
    requires s[e - 1].value == s[j].value && (e <= m ==> s[e].value != s[j].value)
    ensures mem[e] <= 0
  {
  }

  lemma InRun(s: seq<Line>, m: nat, v: int, j: nat, e: nat, p: nat)
    requires 1 <= j < e <= m + 1 <= |s| && m < |s| && ValuesRise(s, m) && FirstAt(s, m, v, j)
    requires (e <= m ==> s[e].value != v) && 1 <= p <= m && s[p].value == v
    ensures j <= p < e
  {
  }

  lemma NoneEqual(s: seq<Line>, b: seq<int>, v: int)
    requires Filed(s, b) && FirstAt(s, |b|, v, 0)
    ensures v !in b
  {
    forall y | 0 <= y < |b|
      ensures b[y] != v
    {
      assert Holds(s, |b|, y + 1);
    }
  }

  /** unsort: the class indices in the order of the file. */
  method Unsort(f: array<Line>, l: nat, b: array<int>)
    requires l < f.Length && l < b.Length
    requires forall p :: 1 <= p <= l ==> 1 <= f[p].serial <= l
    requires forall p, q :: 1 <= p < q <= l ==> f[p].serial != f[q].serial
    modifies b
    ensures forall p :: 1 <= p <= l ==> b[f[p].serial] == f[p].value
  {
    var a := new int[l + 1];
    for i := 1 to l + 1
      invariant forall p :: 1 <= p < i ==> a[f[p].serial] == f[p].value
    {
      a[f[i].serial] := f[i].value;
    }
    for i := 1 to l + 1
      invariant forall k :: 1 <= k < i ==> b[k] == a[k]
      invariant forall p :: 1 <= p <= l ==> a[f[p].serial] == f[p].value
    {
      b[i] := a[i];
    }
  }

  /** A line whose entry in the sorted file leads to its class. */
  lemma LineClassed(sa: seq<Line>, r: seq<Line>, a: seq<int>, sb: seq<Line>, b: seq<int>, mem: seq<int>, p: nat)
    requires Filed(sa, a) && |r| == |sa| && Filed(sb, b) && Sorted(sb, 1, |b| + 1)
    requires Squeezed(sb, |b|, mem, |b|) && mem[|b| + 1] == -1
    requires LookedUp(sa, r, |a| + 1, |a|, sb, |b|) && 1 <= p <= |a|
    ensures var v := a[sa[p].serial - 1];
            if r[p].value == 0 then v !in b else HasClass(mem, r[p].value, b, v)
  {
    hide Squeezed, Sorted, HasClass;
    assert FirstAt(sb, |b|, sa[p].value, r[p].value);
    if r[p].value == 0 {
      NoneEqual(sb, b, sa[p].value);
    } else {
      RunIsClass(sb, b, mem, sa[p].value, r[p].value);
    }
  }

  /** sort, equiv and unsort together lead every line of a to the equal lines of b. */
  method Classify(fa: array<Line>, a: seq<int>, fb: array<Line>, b: seq<int>) returns (cls: array<int>, mem: array<int>)
    requires fa != fb && |a| < fa.Length && |b| + 1 < fb.Length
    requires Numbered(fa[..], a) && Numbered(fb[..], b) && 0 !in b
    modifies fa, fb
    ensures fresh(cls) && fresh(mem) && Classed(a, b, cls[..], mem[..])
  {
    hide Numbered, Sorted, Rearranged, Filed, Squeezed, LookedUp, ValuesRise, HasClass;
    var n, m := |a|, |b|;
    ghost var sa0, sb0 := fa[..], fb[..];
    Sort(fa, n);
    Sort(fb, m);
    StillFiled(sa0, fa[..], a);
    StillFiled(sb0, fb[..], b);
    SortedRise(fa[..], n);
    SortedRise(fb[..], m);
    ghost var sa, sb := fa[..], fb[..];
    cls, mem := new int[n + 2], new int[m + 2];
    Lookup(fa, n, fb, m);
    NonZero(sb, b);
    Squeeze(fb, m, mem);
    ghost var r := fa[..];
    LookedSerials(sa, r, a, sb, m);
    Unsort(fa, n, cls);
    forall i | 1 <= i <= n
      ensures if cls[i] == 0 then a[i - 1] !in b else HasClass(mem[..], cls[i], b, a[i - 1])
    {
      var p := PlaceOf(sa, r, a, sb, m, i);
      LineClassed(sa, r, a, sb, b, mem[..], p);
      assert cls[fa[p].serial] == fa[p].value;
    }
  }

  lemma NonZero(s: seq<Line>, b: seq<int>)
    requires Filed(s, b) && 0 !in b
    ensures forall q :: 1 <= q <= |b| ==> s[q].value != 0
  {
  }

  lemma LookedSerials(sa: seq<Line>, r: seq<Line>, a: seq<int>, sb: seq<Line>, m: nat)
    requires Filed(sa, a) && |r| == |sa| && m < |sb| && LookedUp(sa, r, |a| + 1, |a|, sb, m)
    ensures forall p :: 1 <= p <= |a| ==> 1 <= r[p].serial <= |a|
    ensures forall p, q :: 1 <= p < q <= |a| ==> r[p].serial != r[q].serial
  {
  }

  lemma PlaceOf(sa: seq<Line>, r: seq<Line>, a: seq<int>, sb: seq<Line>, m: nat, i: nat) returns (p: nat)
    requires Filed(sa, a) && |r| == |sa| && m < |sb| && LookedUp(sa, r, |a| + 1, |a|, sb, m) && 1 <= i <= |a|
    ensures 1 <= p <= |a| && sa[p].serial == i && r[p].serial == i
  {
    assert Holds(sa, |a|, i);
    p :| 1 <= p <= |a| && sa[p].serial == i;
  }
}
