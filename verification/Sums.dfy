/** Sums of table entries over lists of indices. */
module Sums {

  predicate InTable<T>(ns: seq<nat>, table: seq<T>) {
    forall i :: 0 <= i < |ns| ==> ns[i] < |table|
  }

  /** The sum of the table entries at the listed indices. */
  function SumAt(table: seq<int>, ns: seq<nat>): int
    requires InTable(ns, table)
  {
    if ns == [] then 0 else table[ns[0]] + SumAt(table, ns[1..])
  }

  function Drop<T>(s: seq<T>, i: nat): (r: seq<T>)
    requires i < |s|
    ensures |r| == |s| - 1
  {
    s[..i] + s[i + 1..]
  }

  lemma {:induction false} SumDrop(table: seq<int>, ns: seq<nat>, i: nat)
    requires i < |ns| && InTable(ns, table)
    ensures SumAt(table, ns) == table[ns[i]] + SumAt(table, Drop(ns, i))
  {
    if i == 0 {
      assert Drop(ns, 0) == ns[1..];
    } else {
      SumDrop(table, ns[1..], i - 1);
      var r := Drop(ns, i);
      assert r[0] == ns[0] && r[1..] == Drop(ns[1..], i - 1);
    }
  }

  lemma SumCons(table: seq<int>, x: nat, ns: seq<nat>)
    requires x < |table| && InTable(ns, table)
    ensures InTable([x] + ns, table) && SumAt(table, [x] + ns) == table[x] + SumAt(table, ns)
  {
    assert ([x] + ns)[1..] == ns;
  }

  lemma SumOne(table: seq<int>, x: nat)
    requires x < |table|
    ensures InTable([x], table) && SumAt(table, [x]) == table[x]
  {
    SumCons(table, x, []);
    assert [x] + [] == [x];
  }

  lemma {:induction false} SumAppend(table: seq<int>, a: seq<nat>, b: seq<nat>)
    requires InTable(a, table) && InTable(b, table)
    ensures InTable(a + b, table) && SumAt(table, a + b) == SumAt(table, a) + SumAt(table, b)
  {
    if a == [] {
      assert a + b == b;
    } else {
      SumAppend(table, a[1..], b);
      assert (a + b)[1..] == a[1..] + b;
    }
  }

  lemma DropMultiset<T>(s: seq<T>, i: nat)
    requires i < |s|
    ensures multiset(s) == multiset{s[i]} + multiset(Drop(s, i))
    ensures multiset(Drop(s, i)) == multiset(s) - multiset{s[i]}
  {
    assert s == s[..i] + [s[i]] + s[i + 1..];
  }

  lemma FrontMultiset<T>(s: seq<T>, i: nat)
    requires i < |s|
    ensures multiset([s[i]] + Drop(s, i)) == multiset(s)
  {
    DropMultiset(s, i);
  }

  lemma ConsMultiset<T>(x: T, a: seq<T>, b: seq<T>)
    requires multiset(a) == multiset(b)
    ensures multiset([x] + a) == multiset([x] + b)
  {
  }

  /** Appending the same element keeps the difference of two lists. */
  lemma SnocMultiset<T>(a: seq<T>, b: seq<T>, x: multiset<T>, y: T)
    requires multiset(b) == multiset(a) + x
    ensures multiset(b + [y]) == multiset(a + [y]) + x
  {
  }

  lemma BagSwap<T>(x: multiset<T>, y: multiset<T>, r: multiset<T>)
    ensures x + (y + r) == y + (x + r)
  {
  }

  lemma PermutedInTable<T>(a: seq<nat>, b: seq<nat>, table: seq<T>)
    requires multiset(a) == multiset(b) && InTable(a, table)
    ensures InTable(b, table) && |a| == |b|
  {
    forall i | 0 <= i < |b|
      ensures b[i] < |table|
    {
      assert b[i] in multiset(a);
    }
    assert |multiset(a)| == |a| && |multiset(b)| == |b|;
  }

  /** The order of the indices does not matter. */
  lemma {:induction false} SumPermuted(table: seq<int>, a: seq<nat>, b: seq<nat>)
    requires multiset(a) == multiset(b) && InTable(a, table)
    ensures InTable(b, table) && SumAt(table, a) == SumAt(table, b)
    decreases |a|
  {
    hide SumAt;
    PermutedInTable(a, b, table);
    if a != [] {
      assert a[0] in multiset(b);
      var i :| 0 <= i < |b| && b[i] == a[0];
      DropMultiset(b, i);
      DropMultiset(a, 0);
      SumDrop(table, a, 0);
      SumDrop(table, b, i);
      SumPermuted(table, Drop(a, 0), Drop(b, i));
    } else {
      assert b == [];
    }
  }

  /** Only the entries that are summed matter. */
  lemma {:induction false} SumAgree(t: seq<int>, t': seq<int>, ns: seq<nat>)
    requires InTable(ns, t) && InTable(ns, t') && forall i :: 0 <= i < |ns| ==> t[ns[i]] == t'[ns[i]]
    ensures SumAt(t, ns) == SumAt(t', ns)
  {
    if ns != [] {
      assert forall i :: 0 <= i < |ns[1..]| ==> ns[1..][i] == ns[i + 1];
      SumAgree(t, t', ns[1..]);
    }
  }
}
