/** Sorting the lines of a file by hash value and position (coreutils/diff.c, sort). */
module DiffSort {

  /** The hash value of a line and its number in the file. */
  datatype Line = Line(value: int, serial: nat)

  predicate Before(a: Line, b: Line) {
    a.value < b.value || (a.value == b.value && a.serial < b.serial)
  }

  ghost predicate Sorted(s: seq<Line>, lo: nat, hi: nat)
    requires hi <= |s|
  {
    forall i, k :: lo <= i < k < hi ==> !Before(s[k], s[i])
  }

  /** Like Sorted, but the line at x may be out of order with those before it. */
  ghost predicate SortedBut(s: seq<Line>, lo: nat, hi: nat, x: nat)
    requires hi <= |s|
  {
    forall i, k :: lo <= i < k < hi && k != x ==> !Before(s[k], s[i])
  }

  function Swapped(s: seq<Line>, i: nat, k: nat): (r: seq<Line>)
    requires i < k < |s|
    ensures |r| == |s|
  {
    s[i := s[k]][k := s[i]]
  }

  /** The lines from 1 to n in another order, the rest as it was. */
  ghost predicate Rearranged(s: seq<Line>, r: seq<Line>, n: nat) {
    && |s| == |r| && n < |s| && multiset(r) == multiset(s) && r[0] == s[0]
    && forall i :: n < i < |s| ==> r[i] == s[i]
  }

  lemma SwapKeeps(s: seq<Line>, i: nat, k: nat)
    requires i < k < |s|
    ensures multiset(Swapped(s, i, k)) == multiset(s)
  {
    var a, b, c := s[..i], s[i + 1..k], s[k + 1..];
    assert s == a + [s[i]] + b + [s[k]] + c;
    assert Swapped(s, i, k) == a + [s[k]] + b + [s[i]] + c;
  }

  lemma SwapRearranged(s0: seq<Line>, s: seq<Line>, i: nat, k: nat, n: nat)
    requires 0 < i < k <= n < |s| && Rearranged(s0, s, n)
    ensures Rearranged(s0, Swapped(s, i, k), n)
  {
    SwapKeeps(s, i, k);
  }

  /** One exchange of neighbours moves the line that is out of order down. */
  lemma SwapDown(s: seq<Line>, hi: nat, p: nat)
    requires 1 <= p && p + 1 < hi <= |s| && SortedBut(s, 1, hi, p + 1) && !Before(s[p], s[p + 1])
    ensures SortedBut(Swapped(s, p, p + 1), 1, hi, p)
  {
  }

  lemma InPlace(s: seq<Line>, hi: nat, p: nat)
    requires p + 1 < hi <= |s| && SortedBut(s, 1, hi, p + 1) && (p == 0 || Before(s[p], s[p + 1]))
    ensures Sorted(s, 1, hi)
  {
    forall i, k | 1 <= i < k < hi
      ensures !Before(s[k], s[i])
    {
      if k == p + 1 && i < p {
        assert !Before(s[p], s[i]);
      }
    }
  }

  /** The line at j + m moves down in steps of m to its place. */
  method Sift(a: array<Line>, j: nat, m: nat, n: nat, ghost s0: seq<Line>)
    requires 1 <= j && 1 <= m && j + m <= n < a.Length && Rearranged(s0, a[..], n)
    modifies a
    ensures Rearranged(s0, a[..], n)
    ensures m == 1 && old(Sorted(a[..], 1, j + 1)) ==> Sorted(a[..], 1, j + 2)
  {
    hide Sorted, SortedBut, Before, Rearranged;
    var p: int := j;
    ghost var sorted := m == 1 && Sorted(a[..], 1, j + 1);
    SortedStart(a[..], j);
    while p > 0
      invariant p <= j && (sorted ==> 0 <= p) && Rearranged(s0, a[..], n)
      invariant sorted ==> SortedBut(a[..], 1, j + 2, p + 1)
    {
      if Before(a[p], a[p + m]) {
        break;
      }
      ghost var s := a[..];
      SwapRearranged(s0, s, p, p + m, n);
      if sorted {
        SwapDown(s, j + 2, p);
      }
      a[p], a[p + m] := a[p + m], a[p];
      assert a[..] == Swapped(s, p, p + m);
      p := p - m;
    }
    if sorted {
      InPlace(a[..], j + 2, p);
    }
  }

  lemma SortedStart(s: seq<Line>, j: nat)
    requires j + 1 < |s|
    ensures Sorted(s, 1, j + 1) ==> SortedBut(s, 1, j + 2, j + 1)
  {
  }

  /** One pass with gap m. */
  method Pass(a: array<Line>, n: nat, m: nat, ghost s0: seq<Line>)
    requires 1 <= m < n < a.Length && Rearranged(s0, a[..], n)
    modifies a
    ensures Rearranged(s0, a[..], n) && (m == 1 ==> Sorted(a[..], 1, n + 1))
  {
    hide Before, Rearranged;
    var k := n - m;
    for j := 1 to k + 1
      invariant Rearranged(s0, a[..], n) && (m == 1 ==> Sorted(a[..], 1, j + 1))
    {
      Sift(a, j, m, n, s0);
    }
  }

  /** sort: whatever the wider passes do, the last one leaves the lines in order. */
  method Sort(a: array<Line>, n: nat)
    requires n < a.Length
    modifies a
    ensures Rearranged(old(a[..]), a[..], n) && Sorted(a[..], 1, n + 1)
  {
    hide Before;
    ghost var s0 := a[..];
    if n == 0 {
      return;
    }
    var m, j := 0, 1;
    while j <= n
      invariant 1 <= j && m == j - 1 && (1 < j ==> m / 2 < n) && (n >= 2 && j > n ==> j >= 4)
      decreases n - j
    {
      m := 2 * j - 1;
      j := j * 2;
    }
    m := m / 2;
    while m != 0
      invariant 0 <= m < n && Rearranged(s0, a[..], n) && (m == 0 ==> Sorted(a[..], 1, n + 1))
    {
      Pass(a, n, m, s0);
      m := m / 2;
    }
  }
}
