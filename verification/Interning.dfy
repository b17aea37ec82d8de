/**
 Interned strings (archival/dpkg.c, search_name_hashtable): every string has one index for good.
 */
module Interning {
  import opened Options
  import opened Probing

  /** make_hash, from the number that the key hashes to. */
  function Start(hash: nat, p: nat): (r: nat)
    requires p >= 2
    ensures r < p
  {
    hash % p
  }

  function Decrement(hash: nat, p: nat): (r: nat)
    requires p >= 2
    ensures 1 <= r < p
  {
    1 + hash % (p - 1)
  }

  function ProbeAt(hash: nat, p: nat, k: nat): (r: nat)
    requires p >= 2
    ensures r < p
  {
    Probe(Start(hash, p), Decrement(hash, p), p, k)
  }

  /** The first k probes of the key find other keys. */
  ghost predicate Passed<K>(slots: seq<Option<K>>, key: K, hash: K -> nat, p: nat, k: nat)
    requires 2 <= p <= |slots|
  {
    forall j :: 0 <= j < k ==> slots[ProbeAt(hash(key), p, j)].Some? && slots[ProbeAt(hash(key), p, j)].value != key
  }

  /** Slot s holds a key that a search for it comes to. */
  ghost predicate Reached<K>(slots: seq<Option<K>>, hash: K -> nat, p: nat, s: nat)
    requires 2 <= p <= |slots| && s < |slots|
  {
    slots[s].Some? ==>
      exists k :: 0 <= k < p && ProbeAt(hash(slots[s].value), p, k) == s && Passed(slots, slots[s].value, hash, p, k)
  }

  ghost predicate TableOk<K>(slots: seq<Option<K>>, hash: K -> nat, p: nat) {
    2 <= p <= |slots| && IsPrime(p) && forall s :: 0 <= s < p ==> Reached(slots, hash, p, s)
  }

  lemma TableSize<K>(slots: seq<Option<K>>, hash: K -> nat, p: nat)
    requires TableOk(slots, hash, p)
    ensures 2 <= p <= |slots| && IsPrime(p)
  {
  }

  /** No key is in the table twice: equal indices mean equal keys, and the other way round. */
  lemma OneIndex<K>(slots: seq<Option<K>>, hash: K -> nat, p: nat, s: nat, t: nat)
    requires TableOk(slots, hash, p) && s < p && t < p && slots[s].Some? && slots[t].Some?
    ensures s == t <==> slots[s].value == slots[t].value
  {
    hide ProbeAt;
    assert Reached(slots, hash, p, s) && Reached(slots, hash, p, t);
    if slots[s].value == slots[t].value {
      var key := slots[s].value;
      var i :| 0 <= i < p && ProbeAt(hash(key), p, i) == s && Passed(slots, key, hash, p, i);
      var j :| 0 <= j < p && ProbeAt(hash(key), p, j) == t && Passed(slots, key, hash, p, j);
      assert i == j;
    }
  }

  /** Some slot stops a search: one that is free, or the one with the key. */
  ghost predicate Stops<K>(slots: seq<Option<K>>, key: K, p: nat) {
    p <= |slots| && exists s :: 0 <= s < p && (slots[s].None? || slots[s].value == key)
  }

  /** A search has not passed all slots yet. */
  lemma NotAllPassed<K>(slots: seq<Option<K>>, key: K, hash: K -> nat, p: nat, k: nat)
    requires 2 <= p <= |slots| && IsPrime(p) && Stops(slots, key, p) && Passed(slots, key, hash, p, k) && k <= p
    ensures k < p
  {
    hide IsPrime;
    var s :| 0 <= s < p && (slots[s].None? || slots[s].value == key);
    ProbesReach(Start(hash(key), p), Decrement(hash(key), p), p, s);
    var j :| 0 <= j < p && Probe(Start(hash(key), p), Decrement(hash(key), p), p, j) == s;
    assert ProbeAt(hash(key), p, j) == s;
  }

  /** A key put into the first free slot of its probes can be found, and so can all others. */
  lemma PutKeeps<K>(slots: seq<Option<K>>, key: K, hash: K -> nat, p: nat, k: nat, t: nat)
    requires TableOk(slots, hash, p) && k < p && Passed(slots, key, hash, p, k) && t == ProbeAt(hash(key), p, k)
    requires slots[t].None?
    ensures TableOk(slots[t := Some(key)], hash, p)
  {
    hide ProbeAt, IsPrime;
    var more := slots[t := Some(key)];
    forall s | 0 <= s < p
      ensures Reached(more, hash, p, s)
    {
      if s == t {
        assert Passed(more, key, hash, p, k);
      } else if more[s].Some? {
        assert Reached(slots, hash, p, s);
        var x := slots[s].value;
        var i :| 0 <= i < p && ProbeAt(hash(x), p, i) == s && Passed(slots, x, hash, p, i);
        assert Passed(more, x, hash, p, i);
      }
    }
  }

  class NameTable {
    const p: nat
    const hash: string -> nat
    const slots: array<Option<string>>

    constructor (p: nat, hash: string -> nat)
      requires IsPrime(p)
      ensures Valid() && this.p == p && fresh(slots) && forall s :: 0 <= s < p ==> slots[s].None?
    {
      this.p, this.hash := p, hash;
      slots := new Option<string>[p + 1](_ => None);
    }

    ghost predicate Valid()
      reads slots
    {
      slots.Length == p + 1 && TableOk(slots[..], hash, p)
    }

    /** search_name_hashtable: the index of the key, which is added if it is new. */
    method Search(key: string) returns (r: nat)
      requires Valid() && Stops(slots[..], key, p)
      modifies slots
      ensures Valid() && r < p && slots[r] == Some(key)
      ensures forall s :: 0 <= s <= p && old(slots[s]).Some? ==> slots[s] == old(slots[s])
      ensures slots[..] == old(slots[..]) || (old(slots[r]).None? && slots[..] == old(slots[..])[r := Some(key)])
    {
      hide IsPrime, TableOk, Stops;
      TableSize(slots[..], hash, p);
      var hashNum := hash(key);
      var address: int, decrement := Start(hashNum, p), Decrement(hashNum, p);
      ghost var k := 0;
      while slots[address].Some?
        invariant 0 <= address < p && k < p && address == ProbeAt(hashNum, p, k) && slots[..] == old(slots[..])
        invariant Passed(slots[..], key, hash, p, k)
        decreases p - k
      {
        if slots[address].value == key {
          return address;
        }
        NotAllPassed(slots[..], key, hash, p, k + 1);
        address := address - decrement;
        if address < 0 {
          address := address + p;
        }
        k := k + 1;
      }
      PutKeeps(slots[..], key, hash, p, k, address);
      slots[address] := Some(key);
      return address;
    }

    /**
     A run of searches, with room for the strings of the run that are not stored yet: equal strings get
     equal indices, different ones different.
     */
    method SearchAll(keys: seq<string>) returns (ids: seq<nat>)
      requires Valid() && |New(slots[..], p, keys)| <= Free(slots[..], p)
      modifies slots
      ensures Valid() && |ids| == |keys|
      ensures forall s :: 0 <= s <= p && old(slots[s]).Some? ==> slots[s] == old(slots[s])
      ensures forall i :: 0 <= i < |keys| ==> ids[i] < p && slots[ids[i]] == Some(keys[i])
      ensures forall i, j :: 0 <= i < j < |keys| ==> (ids[i] == ids[j] <==> keys[i] == keys[j])
    {
      hide TableOk, Stops, New;
      ids := [];
      assert keys[0..] == keys;
      for n := 0 to |keys|
        invariant Valid() && |ids| == n && |New(slots[..], p, keys[n..])| <= Free(slots[..], p)
        invariant forall s :: 0 <= s <= p && old(slots[s]).Some? ==> slots[s] == old(slots[s])
        invariant forall i :: 0 <= i < n ==> ids[i] < p && slots[ids[i]] == Some(keys[i])
      {
        ghost var was := slots[..];
        RoomForNext(was, p, keys, n);
        var id := Search(keys[n]);
        RoomAfter(was, slots[..], hash, p, keys, n, id);
        ids := ids + [id];
      }
      forall i, j | 0 <= i < j < |keys|
        ensures ids[i] == ids[j] <==> keys[i] == keys[j]
      {
        OneIndex(slots[..], hash, p, ids[i], ids[j]);
      }
    }
  }

  ghost predicate Stored<K>(slots: seq<Option<K>>, p: nat, key: K)
    requires p <= |slots|
  {
    exists s :: 0 <= s < p && slots[s] == Some(key)
  }

  /** The keys that are not stored yet. */
  ghost function New<K>(slots: seq<Option<K>>, p: nat, keys: seq<K>): set<K>
    requires p <= |slots|
  {
    set key | key in keys && !Stored(slots, p, key)
  }

  /** How many of the first n slots are free. */
  function Free<K>(slots: seq<Option<K>>, n: nat): nat
    requires n <= |slots|
  {
    if n == 0 then 0 else Free(slots, n - 1) + if slots[n - 1].None? then 1 else 0
  }

  lemma {:induction false} SomeFree<K>(slots: seq<Option<K>>, key: K, n: nat)
    requires n <= |slots|
    ensures Free(slots, n) > 0 ==> Stops(slots, key, n)
  {
    if n > 0 {
      SomeFree(slots, key, n - 1);
    }
  }

  lemma {:induction false} FreeLess<K>(slots: seq<Option<K>>, n: nat, r: nat, key: K)
    requires n <= |slots| && r < |slots| && slots[r].None?
    ensures Free(slots[r := Some(key)], n) == Free(slots, n) - if r < n then 1 else 0
  {
    if n > 0 {
      FreeLess(slots, n - 1, r, key);
    }
  }

  lemma {:induction false} SubsetSize<K>(a: set<K>, b: set<K>)
    requires a <= b
    ensures |a| <= |b|
  {
    if a != {} {
      var x :| x in a;
      SubsetSize(a - {x}, b - {x});
    }
  }

  /** The next search has a slot to stop at. */
  lemma RoomForNext<K>(slots: seq<Option<K>>, p: nat, keys: seq<K>, n: nat)
    requires p <= |slots| && n < |keys| && |New(slots, p, keys[n..])| <= Free(slots, p)
    ensures Stops(slots, keys[n], p)
  {
    if !Stored(slots, p, keys[n]) {
      assert keys[n..][0] == keys[n];
      assert keys[n] in New(slots, p, keys[n..]);
      SomeFree(slots, keys[n], p);
    }
  }

  /** After it there is room for the keys that are left. */
  lemma RoomAfter<K>(was: seq<Option<K>>, slots: seq<Option<K>>, hash: K -> nat, p: nat, keys: seq<K>, n: nat, r: nat)
    requires p <= |was| == |slots| && n < |keys| && |New(was, p, keys[n..])| <= Free(was, p)
    requires TableOk(slots, hash, p) && r < p && slots[r] == Some(keys[n])
    requires slots == was || (was[r].None? && slots == was[r := Some(keys[n])])
    ensures |New(slots, p, keys[n + 1..])| <= Free(slots, p)
  {
    hide TableOk;
    var key, before, after := keys[n], New(was, p, keys[n..]), New(slots, p, keys[n + 1..]);
    assert keys[n..] == [key] + keys[n + 1..];
    forall x | x in after
      ensures x in before
    {
      StoredStays(was, slots, p, r, x);
    }
    if slots == was {
      SubsetSize(after, before);
    } else {
      assert key in before by { NotTwice(was, slots, hash, p, r, key); }
      assert Stored(slots, p, key) && after <= before - {key};
      SubsetSize(after, before - {key});
      FreeLess(was, p, r, key);
    }
  }

  lemma StoredStays<K>(was: seq<Option<K>>, slots: seq<Option<K>>, p: nat, r: nat, x: K)
    requires p <= |was| == |slots| && r < p && slots[r].Some?
    requires slots == was || (was[r].None? && slots == was[r := slots[r]])
    ensures Stored(was, p, x) ==> Stored(slots, p, x)
  {
    if Stored(was, p, x) {
      var s :| 0 <= s < p && was[s] == Some(x);
      assert slots[s] == Some(x);
    }
  }

  /** A key that took a free slot was not in the table. */
  lemma NotTwice<K>(was: seq<Option<K>>, slots: seq<Option<K>>, hash: K -> nat, p: nat, r: nat, key: K)
    requires p <= |was| && r < p && was[r].None? && slots == was[r := Some(key)] && TableOk(slots, hash, p)
    ensures !Stored(was, p, key)
  {
    hide TableOk;
    if Stored(was, p, key) {
      var s :| 0 <= s < p && was[s] == Some(key);
      OneIndex(slots, hash, p, s, r);
    }
  }
}
