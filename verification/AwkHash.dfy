/**
 The hash of awk variables and array elements (editors/awk.c, hash_search, hash_find,
 hash_rebuild, hash_remove, clear_array, hashwalk_init and hashwalk_next).

 What an item stores is the number of its storage, so that a pointer that hash_find gives out
 is seen to stay good while the table grows. The hash of a name is any function of it.
 */
module AwkHash {
  import opened Options

  datatype Item = Item(name: string, data: nat)

  const FIRST_PRIME := 61
  const PRIMES: seq<nat> := [251, 1021, 4093, 16381, 65521]

  predicate Has(chain: seq<Item>, name: string) {
    exists k :: 0 <= k < |chain| && chain[k].name == name
  }

  predicate Distinct(chain: seq<Item>) {
    forall j, k :: 0 <= j < k < |chain| ==> chain[j].name != chain[k].name
  }

  /** The chain of bucket b of n: every item belongs there and is in the map. */
  ghost predicate ChainOk(chain: seq<Item>, hash: string -> nat, b: nat, n: nat, m: map<string, nat>) {
    && n > 0 && Distinct(chain)
    && forall k :: 0 <= k < |chain| ==>
                     && hash(chain[k].name) % n == b
                     && chain[k].name in m && m[chain[k].name] == chain[k].data
  }

  /** The table holds the map. */
  ghost predicate Filed(t: seq<seq<Item>>, hash: string -> nat, m: map<string, nat>) {
    && |t| > 0
    && (forall b :: 0 <= b < |t| ==> ChainOk(t[b], hash, b, |t|, m))
    && (forall x :: x in m ==> Has(t[hash(x) % |t|], x))
  }

  lemma FiledInsert(t: seq<seq<Item>>, hash: string -> nat, m: map<string, nat>, x: string, d: nat)
    requires Filed(t, hash, m) && x !in m
    ensures var b := hash(x) % |t|; Filed(t[b := [Item(x, d)] + t[b]], hash, m[x := d])
  {
    var b := hash(x) % |t|;
    var u, more := t[b := [Item(x, d)] + t[b]], m[x := d];
    forall c | 0 <= c < |u|
      ensures ChainOk(u[c], hash, c, |u|, more)
    {
      assert ChainOk(t[c], hash, c, |t|, m);
    }
    forall y | y in more
      ensures Has(u[hash(y) % |u|], y)
    {
      var c := hash(y) % |u|;
      if y == x {
        assert u[c][0].name == x;
      } else {
        var k :| 0 <= k < |t[c]| && t[c][k].name == y;
        assert u[c][if c == b then k + 1 else k].name == y;
      }
    }
  }

  lemma FiledRemove(t: seq<seq<Item>>, hash: string -> nat, m: map<string, nat>, b: nat, k: nat)
    requires Filed(t, hash, m) && b < |t| && k < |t[b]|
    ensures Filed(t[b := t[b][..k] + t[b][k + 1..]], hash, m - {t[b][k].name})
  {
    var x := t[b][k].name;
    var u, less := t[b := t[b][..k] + t[b][k + 1..]], m - {x};
    assert ChainOk(t[b], hash, b, |t|, m);
    forall c | 0 <= c < |u|
      ensures ChainOk(u[c], hash, c, |u|, less)
    {
      assert ChainOk(t[c], hash, c, |t|, m);
    }
    forall y | y in less
      ensures Has(u[hash(y) % |u|], y)
    {
      var c := hash(y) % |u|;
      var j :| 0 <= j < |t[c]| && t[c][j].name == y;
      assert u[c][if c == b && j > k then j - 1 else j].name == y;
    }
  }

  /** The name has not been passed by a walk that is at item k of bucket i. */
  ghost predicate Left(t: seq<seq<Item>>, hash: string -> nat, i: nat, k: nat, x: string)
    requires |t| > 0 && i <= |t| && (i < |t| ==> k <= |t[i]|)
  {
    hash(x) % |t| > i || (hash(x) % |t| == i && Has(t[i][k..], x))
  }

  lemma LeftStart(t: seq<seq<Item>>, hash: string -> nat, m: map<string, nat>, x: string)
    requires Filed(t, hash, m) && x in m
    ensures Left(t, hash, 0, 0, x)
  {
    assert t[0][0..] == t[0];
  }

  lemma LeftStep(t: seq<seq<Item>>, hash: string -> nat, m: map<string, nat>, i: nat, k: nat, x: string)
    requires Filed(t, hash, m) && i < |t| && k < |t[i]|
    ensures Left(t, hash, i, k + 1, x) <==> Left(t, hash, i, k, x) && x != t[i][k].name
    ensures Left(t, hash, i, k, t[i][k].name)
  {
    assert ChainOk(t[i], hash, i, |t|, m);
    var here, after := t[i][k..], t[i][k + 1..];
    assert here[0] == t[i][k] && here[1..] == after;
    assert forall j :: 0 <= j < |after| ==> after[j] == here[j + 1] && after[j].name != here[0].name;
    if Has(here, x) && x != here[0].name {
      var j :| 0 <= j < |here| && here[j].name == x;
      assert after[j - 1].name == x;
    }
  }

  lemma LeftNext(t: seq<seq<Item>>, hash: string -> nat, m: map<string, nat>, i: nat, x: string)
    requires Filed(t, hash, m) && i < |t| && x in m
    ensures Left(t, hash, i, |t[i]|, x) <==> Left(t, hash, i + 1, 0, x)
  {
    assert t[i][|t[i]|..] == [];
    if i + 1 < |t| {
      assert t[i + 1][0..] == t[i + 1];
    }
  }

  /** A walk at item k of bucket i has met exactly these items of the map. */
  ghost predicate Met(t: seq<seq<Item>>, hash: string -> nat, m: map<string, nat>, met: map<string, nat>, i: nat, k: nat)
    requires |t| > 0 && i <= |t| && (i < |t| ==> k <= |t[i]|)
  {
    && (forall x :: x in met ==> x in m && m[x] == met[x])
    && forall x :: x in m ==> (x in met <==> !Left(t, hash, i, k, x))
  }

  lemma MetNothing(t: seq<seq<Item>>, hash: string -> nat, m: map<string, nat>)
    requires Filed(t, hash, m)
    ensures Met(t, hash, m, map[], 0, 0)
  {
    forall x | x in m
      ensures Left(t, hash, 0, 0, x)
    {
      LeftStart(t, hash, m, x);
    }
  }

  lemma MetStep(t: seq<seq<Item>>, hash: string -> nat, m: map<string, nat>, met: map<string, nat>, i: nat, k: nat)
    requires Filed(t, hash, m) && i < |t| && k < |t[i]| && Met(t, hash, m, met, i, k)
    ensures t[i][k].name !in met && t[i][k].name in m
    ensures Met(t, hash, m, met[t[i][k].name := t[i][k].data], i, k + 1)
  {
    assert ChainOk(t[i], hash, i, |t|, m);
    hide Left, ChainOk, Has;
    LeftStep(t, hash, m, i, k, t[i][k].name);
    forall x | x in m
      ensures Left(t, hash, i, k + 1, x) <==> Left(t, hash, i, k, x) && x != t[i][k].name
    {
      LeftStep(t, hash, m, i, k, x);
    }
  }

  lemma MetNext(t: seq<seq<Item>>, hash: string -> nat, m: map<string, nat>, met: map<string, nat>, i: nat)
    requires Filed(t, hash, m) && i < |t| && Met(t, hash, m, met, i, |t[i]|)
    ensures Met(t, hash, m, met, i + 1, 0)
  {
    hide Left, Filed;
    assert |t| > 0;
    forall x | x in m
      ensures Left(t, hash, i, |t[i]|, x) <==> Left(t, hash, i + 1, 0, x)
    {
      LeftNext(t, hash, m, i, x);
    }
  }

  lemma MetAll(t: seq<seq<Item>>, hash: string -> nat, m: map<string, nat>, met: map<string, nat>)
    requires |t| > 0 && Met(t, hash, m, met, |t|, 0)
    ensures met == m
  {
    assert forall x :: x in m ==> !Left(t, hash, |t|, 0, x);
  }

  lemma EmptyFiled(t: seq<seq<Item>>, hash: string -> nat)
    requires |t| > 0 && forall b :: 0 <= b < |t| ==> t[b] == []
    ensures Filed(t, hash, map[])
  {
  }

  /** An item of its chain has what the map has for the name; a name that is not there is not in the map. */
  lemma InChain(t: seq<seq<Item>>, hash: string -> nat, m: map<string, nat>, x: string, k: nat)
    requires Filed(t, hash, m) && k <= |t[hash(x) % |t|]|
    requires forall j :: 0 <= j < k ==> t[hash(x) % |t|][j].name != x
    ensures k < |t[hash(x) % |t|]| && t[hash(x) % |t|][k].name == x ==> x in m && m[x] == t[hash(x) % |t|][k].data
    ensures k == |t[hash(x) % |t|]| ==> x !in m
  {
    assert ChainOk(t[hash(x) % |t|], hash, hash(x) % |t|, |t|, m);
  }

  /** The bytes that the names take with a zero after each. */
  ghost function Bytes(names: set<string>): nat {
    if names == {} then 0 else
      var x :| x in names;
      |x| + 1 + Bytes(names - {x})
  }

  lemma {:induction false} BytesAdd(names: set<string>, x: string)
    requires x !in names
    ensures Bytes(names + {x}) == Bytes(names) + |x| + 1
    decreases |names|
  {
    var all := names + {x};
    var y :| y in all && Bytes(all) == |y| + 1 + Bytes(all - {y});
    if y == x {
      assert all - {x} == names;
    } else {
      var rest := names - {y};
      assert all - {y} == rest + {x} && names == rest + {y};
      BytesAdd(rest, x);
      BytesAdd(rest, y);
    }
  }

  lemma BytesRemove(names: set<string>, x: string)
    requires x in names
    ensures Bytes(names - {x}) == Bytes(names) - |x| - 1
  {
    BytesAdd(names - {x}, x);
    assert names - {x} + {x} == names;
  }

  /** The names one after another, with a zero after each. */
  function Joined(names: seq<string>): string {
    if names == [] then "" else names[0] + ['\0'] + Joined(names[1..])
  }

  lemma {:induction false} JoinedSnoc(names: seq<string>, x: string)
    ensures Joined(names + [x]) == Joined(names) + x + ['\0']
  {
    if names == [] {
      assert Joined([x]) == x + ['\0'] + Joined([]);
      assert names + [x] == [x];
    } else {
      JoinedSnoc(names[1..], x);
      assert (names + [x])[1..] == names[1..] + [x];
    }
  }

  class Hash {
    const hash: string -> nat
    var nel: nat
    var csize: nat
    var nprime: nat
    var glen: nat
    var items: array<seq<Item>>
    ghost var m: map<string, nat>

    /** The table holds the map and has the size of its step. */
    ghost predicate Stored()
      reads this, items
    {
      && nprime <= |PRIMES| && csize == (if nprime == 0 then FIRST_PRIME else PRIMES[nprime - 1])
      && items.Length == csize && Filed(items[..], hash, m) && forall x :: x in m ==> '\0' !in x
    }

    /** The counters are right, and the chains have fewer than 11 items on average, until the table is as big as it gets. */
    ghost predicate Valid()
      reads this, items
    {
      Stored() && nel == |m| && glen == Bytes(m.Keys) && (nprime < |PRIMES| ==> nel < 11 * csize)
    }

    /** hash_init */
    constructor (hash: string -> nat)
      ensures Valid() && m == map[] && fresh(items) && this.hash == hash
    {
      this.hash := hash;
      nel, nprime, glen, m := 0, 0, 0, map[];
      csize := FIRST_PRIME;
      items := new seq<Item>[FIRST_PRIME](_ => []);
    }

    method Search(name: string) returns (r: Option<nat>)
      requires Stored()
      ensures r == if name in m then Some(m[name]) else None
    {
      hide Filed;
      ghost var t := items[..];
      var chain, k := items[hash(name) % csize], 0;
      while k < |chain|
        invariant 0 <= k <= |chain| && forall j :: 0 <= j < k ==> chain[j].name != name
      {
        if chain[k].name == name {
          InChain(t, hash, m, name, k);
          return Some(chain[k].data);
        }
        k := k + 1;
      }
      InChain(t, hash, m, name, k);
      return None;
    }

    /** The loops of hash_rebuild: every item moves to the head of its chain in a new table. */
    method Moved(newsize: nat) returns (newitems: array<seq<Item>>)
      requires Stored() && newsize > 0
      ensures fresh(newitems) && newitems.Length == newsize && Filed(newitems[..], hash, m)
    {
      hide Filed, Met;
      newitems := new seq<Item>[newsize](_ => []);
      ghost var moved: map<string, nat> := map[];
      ghost var was := items[..];
      MetNothing(was, hash, m);
      EmptyFiled(newitems[..], hash);
      for i := 0 to csize
        invariant items[..] == was && Filed(newitems[..], hash, moved) && Met(was, hash, m, moved, i, 0)
      {
        var chain := items[i];
        for k := 0 to |chain|
          invariant items[..] == was && Filed(newitems[..], hash, moved) && Met(was, hash, m, moved, i, k)
        {
          var item := chain[k];
          var idx := hash(item.name) % newsize;
          MetStep(was, hash, m, moved, i, k);
          ghost var before := newitems[..];
          FiledInsert(before, hash, moved, item.name, item.data);
          newitems[idx] := [item] + newitems[idx];
          assert newitems[..] == before[idx := [item] + before[idx]];
          moved := moved[item.name := item.data];
        }
        MetNext(was, hash, m, moved, i);
      }
      MetAll(was, hash, m, moved);
    }

    /** hash_rebuild: a bigger table with the same items. */
    method Rebuild()
      requires Stored()
      modifies this
      ensures Stored() && m == old(m) && nel == old(nel) && glen == old(glen)
      ensures nprime == (if old(nprime) == |PRIMES| then old(nprime) else old(nprime) + 1)
      ensures items == old(items) || fresh(items)
    {
      hide Filed;
      if nprime == |PRIMES| {
        return;
      }
      var newsize := PRIMES[nprime];
      var newitems := Moved(newsize);
      nprime := nprime + 1;
      csize := newsize;
      items := newitems;
    }

    /** hash_find: the storage of the name, which is new if the name was not there. */
    method Find(name: string, space: nat) returns (r: nat)
      requires Valid() && '\0' !in name
      modifies this, items
      ensures Valid() && (items == old(items) || fresh(items))
      ensures m == if name in old(m) then old(m) else old(m)[name := space]
      ensures r == m[name]
      ensures csize != old(csize) ==> name !in old(m) && old(nel) + 1 == 11 * old(csize)
    {
      hide Filed;
      var found := Search(name);
      if found.Some? {
        return found.value;
      }
      nel := nel + 1;
      if nel / csize > 10 {
        Rebuild();
      }
      AddItem(name, space);
      return space;
    }

    /** The end of hash_find: a new item at the head of its chain. */
    method AddItem(name: string, space: nat)
      requires Stored() && nel == |m| + 1 && glen == Bytes(m.Keys) && name !in m && '\0' !in name
      requires nprime < |PRIMES| ==> nel < 11 * csize
      modifies this, items
      ensures Valid() && items == old(items) && csize == old(csize) && m == old(m)[name := space]
    {
      hide Filed, Bytes;
      ghost var was := items[..];
      FiledInsert(was, hash, m, name, space);
      BytesAdd(m.Keys, name);
      var idx := hash(name) % csize;
      items[idx] := [Item(name, space)] + items[idx];
      assert items[..] == was[idx := [Item(name, space)] + was[idx]];
      glen := glen + |name| + 1;
      m := m[name := space];
      assert m.Keys == old(m.Keys) + {name};
    }

    method Remove(name: string)
      requires Valid()
      modifies this, items
      ensures Valid() && items == old(items) && m == old(m) - {name}
    {
      hide Filed;
      ghost var t := items[..];
      var b := hash(name) % csize;
      var chain, k := items[b], 0;
      while k < |chain|
        invariant 0 <= k <= |chain| && forall j :: 0 <= j < k ==> chain[j].name != name
        invariant Valid() && items == old(items) && m == old(m) && items[..] == t
      {
        if chain[k].name == name {
          InChain(t, hash, m, name, k);
          Unlink(name, b, k);
          return;
        }
        k := k + 1;
      }
      InChain(t, hash, m, name, k);
      assert m == old(m) - {name};
    }

    /** The item that hash_remove finds goes out of its chain. */
    method Unlink(name: string, b: nat, k: nat)
      requires Valid() && b < csize && k < |items[b]| && items[b][k].name == name && name in m
      modifies this, items
      ensures Valid() && items == old(items) && m == old(m) - {name}
    {
      hide Filed;
      ghost var was := items[..];
      FiledRemove(was, hash, m, b, k);
      BytesRemove(m.Keys, name);
      glen := glen - (|name| + 1);
      nel := nel - 1;
      items[b] := items[b][..k] + items[b][k + 1..];
      assert items[..] == was[b := was[b][..k] + was[b][k + 1..]];
      m := m - {name};
      assert m.Keys == old(m.Keys) - {name};
    }

    /** clear_array */
    method Clear()
      requires Valid()
      modifies this, items
      ensures Valid() && items == old(items) && m == map[]
    {
      hide Filed;
      for i := 0 to csize
        invariant unchanged(this) && i <= csize == items.Length && forall b :: 0 <= b < i ==> items[b] == []
      {
        items[i] := [];
      }
      glen, nel, m := 0, 0, map[];
      EmptyFiled(items[..], hash);
    }

    /** hashwalk_init: a buffer of glen bytes with every name in it once. */
    method WalkInit() returns (w: Walker, ghost names: seq<string>)
      requires Valid()
      ensures fresh(w) && w.Valid() && w.rest == names && |w.buffer| == glen
      ensures (forall x :: x in names <==> x in m) && NoTwins(names)
    {
      hide Filed, Met, Joined;
      names := [];
      var buffer := "";
      ghost var met: map<string, nat> := map[];
      ghost var t := items[..];
      JoinedNone();
      MetNothing(t, hash, m);
      for i := 0 to csize
        invariant Met(t, hash, m, met, i, 0) && Walked(buffer, names, met)
      {
        var chain := items[i];
        for k := 0 to |chain|
          invariant Met(t, hash, m, met, i, k) && Walked(buffer, names, met)
        {
          MetStep(t, hash, m, met, i, k);
          WalkedStep(buffer, names, met, chain[k]);
          buffer := buffer + chain[k].name + ['\0'];
          names := names + [chain[k].name];
          met := met[chain[k].name := chain[k].data];
        }
        MetNext(t, hash, m, met, i);
      }
      MetAll(t, hash, m, met);
      w := new Walker(buffer, names);
    }
  }

  /** The buffer has the names of the items that were met. */
  ghost predicate Walked(buffer: string, names: seq<string>, met: map<string, nat>) {
    buffer == Joined(names) && NoTwins(names) && (forall x :: x in names <==> x in met) && |buffer| == Bytes(met.Keys)
  }

  lemma JoinedNone()
    ensures Joined([]) == ""
  {
  }

  lemma WalkedStep(buffer: string, names: seq<string>, met: map<string, nat>, item: Item)
    requires Walked(buffer, names, met) && item.name !in met
    ensures Walked(buffer + item.name + ['\0'], names + [item.name], met[item.name := item.data])
  {
    hide Joined;
    JoinedSnoc(names, item.name);
    BytesAdd(met.Keys, item.name);
    assert met[item.name := item.data].Keys == met.Keys + {item.name};
  }

  predicate NoTwins(names: seq<string>) {
    forall j, k :: 0 <= j < k < |names| ==> names[j] != names[k]
  }

  /** The buffer that a for-in loop reads its names from. */
  class Walker {
    const buffer: string
    var at: nat
    ghost var rest: seq<string>  // the names that have not come yet

    ghost predicate Valid()
      reads this
    {
      at <= |buffer| && buffer[at..] == Joined(rest) && forall k :: 0 <= k < |rest| ==> '\0' !in rest[k]
    }

    constructor (buffer: string, ghost names: seq<string>)
      requires buffer == Joined(names) && forall k :: 0 <= k < |names| ==> '\0' !in names[k]
      ensures Valid() && rest == names && this.buffer == buffer
    {
      this.buffer, at, rest := buffer, 0, names;
    }

    /** hashwalk_next: the next name, until there are none. */
    method Next() returns (r: Option<string>)
      requires Valid()
      modifies this
      ensures Valid() && (r.None? <==> old(rest) == [])
      ensures r.Some? ==> r.value == old(rest)[0] && rest == old(rest)[1..]
    {
      if at == |buffer| {
        assert rest == [];
        return None;
      }
      ghost var word, later := rest[0], Joined(rest[1..]);
      var from := at;
      assert buffer[from..] == word + ['\0'] + later;
      assert buffer[from..][|word|] == buffer[from + |word|] == '\0';
      forall j | from <= j < from + |word|
        ensures buffer[j] != '\0'
      {
        assert buffer[from..][j - from] == word[j - from] && word[j - from] in word;
      }
      while buffer[at] != '\0'
        invariant from <= at <= from + |word| && rest == old(rest)
        decreases |buffer| - at
      {
        at := at + 1;
      }
      assert buffer[from..at] == buffer[from..][..|word|] == word;
      at := at + 1;
      assert buffer[at..] == buffer[from..][|word| + 1..] == later;
      rest := rest[1..];
      return Some(buffer[from..at - 1]);
    }
  }
}
