/**
 The table of package states (archival/dpkg.c, search_status_hashtable and index_status_file): one
 entry for a package name, found by the same probing as the names.
 */
module Statuses {
  import opened Options
  import opened Probing
  import opened Interning

  /** What the status file says about a package name. */
  datatype Status = Status(install: bool, installed: bool)

  datatype Entry = Entry(name: nat, status: Status)

  function NameOf(e: Option<Entry>): Option<nat> {
    if e.None? then None else Some(e.value.name)
  }

  function NamesOf(slots: seq<Option<Entry>>): (r: seq<Option<nat>>)
    ensures |r| == |slots| && forall i :: 0 <= i < |r| ==> r[i] == NameOf(slots[i])
  {
    seq(|slots|, i requires 0 <= i < |slots| => NameOf(slots[i]))
  }

  /** What the entries say about a name. */
  ghost function StatusIn(slots: seq<Option<Entry>>, p: nat, name: nat): Option<Status>
    requires p <= |slots|
  {
    if s :| 0 <= s < p && NameOf(slots[s]) == Some(name) then Some(slots[s].value.status) else None
  }

  lemma StatusAt(slots: seq<Option<Entry>>, hash: nat -> nat, p: nat, name: nat, s: nat)
    requires TableOk(NamesOf(slots), hash, p) && s < p && NameOf(slots[s]) == Some(name)
    ensures StatusIn(slots, p, name) == Some(slots[s].value.status)
  {
    hide TableOk;
    assert p <= |slots| by { TableSize(NamesOf(slots), hash, p); }
    var t :| 0 <= t < p && NameOf(slots[t]) == Some(name) && StatusIn(slots, p, name) == Some(slots[t].value.status);
    OneIndex(NamesOf(slots), hash, p, s, t);
  }

  class StatusTable {
    const p: nat
    const hash: nat -> nat
    const slots: array<Option<Entry>>

    constructor (p: nat, hash: nat -> nat)
      requires IsPrime(p)
      ensures Valid() && this.p == p && fresh(slots) && (forall s :: 0 <= s < p ==> slots[s].None?)
    {
      this.p, this.hash := p, hash;
      slots := new Option<Entry>[p + 1](_ => None);
    }

    ghost predicate Valid()
      reads slots
    {
      slots.Length == p + 1 && TableOk(NamesOf(slots[..]), hash, p)
    }

    lemma Size()
      requires Valid()
      ensures slots.Length == p + 1
    {
    }

    ghost function StatusOf(name: nat): Option<Status>
      requires p <= slots.Length
      reads slots
    {
      StatusIn(slots[..], p, name)
    }

    /** search_status_hashtable: the entry of the name, or the free slot where it would go. */
    method Search(name: nat) returns (r: nat)
      requires Valid() && Stops(NamesOf(slots[..]), name, p)
      ensures r < p && (slots[r].Some? ==> slots[r].value.name == name)
      ensures slots[r].None? ==> !Stored(NamesOf(slots[..]), p, name)
      ensures TableOk(NamesOf(slots[..])[r := Some(name)], hash, p)
    {
      hide IsPrime, TableOk;
      ghost var names := NamesOf(slots[..]);
      TableSize(names, hash, p);
      var address: int, decrement := Start(hash(name), p), Decrement(hash(name), p);
      ghost var k := 0;
      while slots[address].Some?
        invariant 0 <= address < p && k < p && address == ProbeAt(hash(name), p, k) && Passed(names, name, hash, p, k)
        decreases p - k
      {
        if slots[address].value.name == name {
          assert names[address := Some(name)] == names;
          return address;
        }
        NotAllPassed(names, name, hash, p, k + 1);
        address := address - decrement;
        if address < 0 {
          address := address + p;
        }
        k := k + 1;
      }
      PutKeeps(names, name, hash, p, k, address);
      NotTwice(names, names[address := Some(name)], hash, p, address, name);
      return address;
    }

    method Lookup(name: nat) returns (st: Option<Status>)
      requires Valid() && Stops(NamesOf(slots[..]), name, p)
      ensures st == StatusOf(name)
    {
      hide TableOk;
      var r := Search(name);
      if slots[r].None? {
        assert forall s :: 0 <= s < p ==> NamesOf(slots[..])[s] == NameOf(slots[s]);
        return None;
      }
      StatusAt(slots[..], hash, p, name, r);
      return Some(slots[r].value.status);
    }

    /** The end of index_status_file: the entry of a package is put in its place. */
    method Put(name: nat, st: Status) returns (r: nat)
      requires Valid() && Stops(NamesOf(slots[..]), name, p)
      modifies slots
      ensures r < p && slots[..] == old(slots[..])[r := Some(Entry(name, st))]
      ensures if old(slots[r]).Some? then old(slots[r]).value.name == name else !Stored(NamesOf(old(slots[..])), p, name)
      ensures Valid() && StatusOf(name) == Some(st) && forall x :: x != name ==> StatusOf(x) == old(StatusOf(x))
    {
      hide TableOk;
      r := Search(name);
      ghost var was := slots[..];
      slots[r] := Some(Entry(name, st));
      assert NamesOf(slots[..]) == NamesOf(was)[r := Some(name)];
      StatusAt(slots[..], hash, p, name, r);
      forall x | x != name
        ensures StatusOf(x) == old(StatusOf(x))
      {
        StatusElse(was, slots[..], hash, p, name, r, x);
      }
    }
  }

  /** Putting an entry for one name leaves what is said about another. */
  lemma StatusElse(was: seq<Option<Entry>>, slots: seq<Option<Entry>>, hash: nat -> nat, p: nat, name: nat, r: nat, x: nat)
    requires TableOk(NamesOf(was), hash, p) && TableOk(NamesOf(slots), hash, p) && r < p <= |was| && x != name
    requires slots[r].Some? && slots == was[r := slots[r]] && slots[r].value.name == name
    requires was[r].Some? ==> was[r].value.name == name
    ensures p <= |slots| && StatusIn(slots, p, x) == StatusIn(was, p, x)
  {
    hide TableOk;
    if s :| 0 <= s < p && NameOf(was[s]) == Some(x) {
      StatusAt(was, hash, p, x, s);
      StatusAt(slots, hash, p, x, s);
    } else {
      forall s | 0 <= s < p
        ensures NameOf(slots[s]) != Some(x)
      {
        assert s != r ==> slots[s] == was[s];
      }
    }
  }
}
