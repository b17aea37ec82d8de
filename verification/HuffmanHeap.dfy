/**
 The priority queue of the tree construction (archival/gzip.c, pqdownheap and smaller):
 node numbers in heap[1..heapLen], least frequent first, ties broken by subtree depth.
 */
module HuffmanHeap {

  predicate Smaller(f: seq<nat>, d: seq<nat>, n: nat, m: nat)
    requires n < |f| == |d| && m < |f|
  {
    f[n] < f[m] || (f[n] == f[m] && d[n] <= d[m])
  }

  /** Position i holds a node no greater than the one at position j. */
  predicate Ordered(f: seq<nat>, d: seq<nat>, h: seq<nat>, i: nat, j: nat) {
    && |f| == |d| && i < |h| && j < |h| && h[i] < |f| && h[j] < |f|
    && Smaller(f, d, h[i], h[j])
  }

  /** Every father at k or later is no greater than its sons. */
  ghost predicate HeapFrom(f: seq<nat>, d: seq<nat>, h: seq<nat>, len: nat, k: nat) {
    forall j :: 2 <= j <= len && k <= j / 2 ==> Ordered(f, d, h, j / 2, j)
  }

  /** As HeapFrom, except that the node at k may be greater than its sons. */
  ghost predicate HeapExcept(f: seq<nat>, d: seq<nat>, h: seq<nat>, len: nat, from: nat, k: nat) {
    && (forall j :: 2 <= j <= len && from <= j / 2 && j / 2 != k ==> Ordered(f, d, h, j / 2, j))
    && (from <= k / 2 ==> forall j :: 2 <= j <= len && j / 2 == k ==> Ordered(f, d, h, k / 2, j))
  }

  ghost predicate NodesOk(f: seq<nat>, d: seq<nat>, h: seq<nat>, len: nat) {
    |f| == |d| && len < |h| && forall j :: 1 <= j <= len ==> h[j] < |f|
  }

  /** Exchanging the node at k with its smaller son j moves the exception to j. */
  lemma SiftStep(f: seq<nat>, d: seq<nat>, h: seq<nat>, len: nat, from: nat, k: nat, j: nat)
    requires NodesOk(f, d, h, len) && 1 <= from <= k && j / 2 == k && j <= len
    requires HeapExcept(f, d, h, len, from, k)
    requires forall i :: 2 <= i <= len && i / 2 == k ==> Ordered(f, d, h, j, i)
    requires !Ordered(f, d, h, k, j)
    ensures HeapExcept(f, d, h[k := h[j]][j := h[k]], len, from, j)
  {
    var h' := h[k := h[j]][j := h[k]];
    forall i | 2 <= i <= len && from <= i / 2 && i / 2 != j
      ensures Ordered(f, d, h', i / 2, i)
    {
      if i == k {
        assert Ordered(f, d, h, k / 2, j);
      } else if i / 2 == k {
        assert Ordered(f, d, h, j, i);
      } else {
        assert Ordered(f, d, h, i / 2, i);
      }
    }
    forall i | 2 <= i <= len && i / 2 == j
      ensures Ordered(f, d, h', j / 2, i)
    {
      assert Ordered(f, d, h, i / 2, i);
    }
  }

  /** The first node of a heap is the smallest. */
  lemma {:induction false} RootIsLeast(f: seq<nat>, d: seq<nat>, h: seq<nat>, len: nat, j: nat)
    requires NodesOk(f, d, h, len) && HeapFrom(f, d, h, len, 1) && 1 <= j <= len
    ensures Ordered(f, d, h, 1, j)
    decreases j
  {
    if j > 1 {
      RootIsLeast(f, d, h, len, j / 2);
      assert Ordered(f, d, h, j / 2, j);
    }
  }

  lemma HoleMoves(s: seq<nat>, k: nat, j: nat)
    requires k < |s| && j < |s|
    ensures multiset(s[k := s[j]][j := s[k]]) == multiset(s)
  {
  }

  lemma SliceMultiset(s: seq<nat>, t: seq<nat>, len: nat)
    requires |s| == |t| && len < |s| && multiset(s) == multiset(t)
    requires s[0] == t[0] && s[len + 1..] == t[len + 1..]
    ensures multiset(s[1..len + 1]) == multiset(t[1..len + 1])
  {
    var x, y := s[1..len + 1], t[1..len + 1];
    var z := multiset([s[0]]) + multiset(s[len + 1..]);
    assert s == [s[0]] + x + s[len + 1..];
    assert t == [s[0]] + y + s[len + 1..];
    assert multiset(x) == multiset(s) - z;
    assert multiset(y) == multiset(t) - z;
  }

  /** The nodes in a queue of length len. */
  ghost function Queue(h: seq<nat>, len: nat): multiset<nat>
    requires len < |h|
  {
    multiset(h[1..len + 1])
  }

  /** The nodes of a queue of length len are put in another order; nothing else is touched. */
  ghost predicate Rearranged(h: seq<nat>, h': seq<nat>, len: nat) {
    && |h| == |h'| && len < |h|
    && Queue(h', len) == Queue(h, len)
    && forall i :: len < i < |h| ==> h'[i] == h[i]
  }

  /** h is a rearrangement of h0 within 1..len, a heap from position from on except at k. */
  ghost predicate Sifting(f: seq<nat>, d: seq<nat>, h0: seq<nat>, h: seq<nat>, len: nat, from: nat, k: nat) {
    && |h| == |h0| && multiset(h) == multiset(h0) && NodesOk(f, d, h, len)
    && h[0] == h0[0] && h[len + 1..] == h0[len + 1..]
    && 1 <= from <= k <= len && HeapExcept(f, d, h, len, from, k)
  }

  /** The smaller of the two sons of k. */
  function Son(f: seq<nat>, d: seq<nat>, h: seq<nat>, len: nat, k: nat): nat
    requires |f| == |d| && 2 * k <= len < |h| && (2 * k < len ==> h[2 * k + 1] < |f|) && h[2 * k] < |f|
  {
    if 2 * k < len && Smaller(f, d, h[2 * k + 1], h[2 * k]) then 2 * k + 1 else 2 * k
  }

  lemma SiftDown(f: seq<nat>, d: seq<nat>, h0: seq<nat>, h: seq<nat>, len: nat, from: nat, k: nat)
    requires Sifting(f, d, h0, h, len, from, k) && 2 * k <= len
    requires !Smaller(f, d, h[k], h[Son(f, d, h, len, k)])
    ensures var j := Son(f, d, h, len, k);
            Sifting(f, d, h0, h[k := h[j]][j := h[k]], len, from, j)
  {
    var j := Son(f, d, h, len, k);
    SiftStep(f, d, h, len, from, k, j);
    HoleMoves(h, k, j);
  }

  lemma SiftDone(f: seq<nat>, d: seq<nat>, h0: seq<nat>, h: seq<nat>, len: nat, from: nat, k: nat)
    requires Sifting(f, d, h0, h, len, from, k)
    requires 2 * k <= len ==> Smaller(f, d, h[k], h[Son(f, d, h, len, k)])
    ensures HeapFrom(f, d, h, len, from) && Rearranged(h0, h, len)
  {
    assert forall i :: len < i < |h| ==> h[i] == h[len + 1..][i - len - 1] == h0[len + 1..][i - len - 1];
    SliceMultiset(h, h0, len);
    forall j | 2 <= j <= len && from <= j / 2
      ensures Ordered(f, d, h, j / 2, j)
    {
    }
  }

  /** Restores the heap property by moving the node at position from down. */
  method PqDownHeap(freq: array<nat>, depth: array<nat>, heap: array<nat>, heapLen: nat, from: nat)
    requires heap != freq && heap != depth
    requires NodesOk(freq[..], depth[..], heap[..], heapLen) && 1 <= from <= heapLen
    requires HeapFrom(freq[..], depth[..], heap[..], heapLen, from + 1)
    modifies heap
    ensures NodesOk(freq[..], depth[..], heap[..], heapLen)
    ensures HeapFrom(freq[..], depth[..], heap[..], heapLen, from)
    ensures Rearranged(old(heap[..]), heap[..], heapLen)
  {
    hide Ordered, HeapFrom, HeapExcept, Rearranged;
    ghost var f, d, h0 := freq[..], depth[..], heap[..];
    var v, k, j := heap[from], from, 2 * from;
    ghost var h := h0;  // the heap with v in its place
    SiftStart(f, d, h0, heapLen, from);
    while j <= heapLen
      invariant Sifting(f, d, h0, h, heapLen, from, k)
      invariant j == 2 * k && h[k] == v && heap[..] == h[k := heap[k]]
    {
      if j < heapLen && LessEq(freq, depth, heap[j + 1], heap[j]) {
        j := j + 1;
      }
      assert j == Son(f, d, h, heapLen, k) && heap[j] == h[j];
      if LessEq(freq, depth, v, heap[j]) {
        break;
      }
      SiftDown(f, d, h0, h, heapLen, from, k);
      h := h[k := h[j]][j := h[k]];
      heap[k] := heap[j];
      k := j;
      j := 2 * j;
    }
    SiftDone(f, d, h0, h, heapLen, from, k);
    heap[k] := v;
    assert heap[..] == h;
  }

  lemma SiftStart(f: seq<nat>, d: seq<nat>, h: seq<nat>, len: nat, from: nat)
    requires NodesOk(f, d, h, len) && 1 <= from <= len && HeapFrom(f, d, h, len, from + 1)
    ensures Sifting(f, d, h, h, len, from, from)
  {
  }

  predicate LessEq(freq: array<nat>, depth: array<nat>, n: nat, m: nat)
    requires n < freq.Length == depth.Length && m < freq.Length
    reads freq, depth
    ensures LessEq(freq, depth, n, m) == Smaller(freq[..], depth[..], n, m)
  {
    freq[n] < freq[m] || (freq[n] == freq[m] && depth[n] <= depth[m])
  }
}
