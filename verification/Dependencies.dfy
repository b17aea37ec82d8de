/**
 The package table and the dependency check (archival/dpkg.c, search_package_hashtable,
 search_for_provides, add_split_dependencies, package_satisfies_dependency and check_deps).
 */
module Dependencies {
  import opened Options
  import opened Probing
  import opened Interning
  import opened Versions
  import opened Statuses

  datatype Kind = PreDepends | OrPreDepends | Depends | OrDepends | Provides | Extra

  /** An edge of a package; names and versions are indices of interned strings. */
  datatype Edge = Edge(kind: Kind, name: nat, version: nat, op: Operator)

  datatype Package = Package(name: nat, version: nat, edges: seq<Edge>)

  predicate IsDepend(k: Kind) {
    k == PreDepends || k == Depends
  }

  function OrKind(k: Kind): Kind
    requires IsDepend(k)
  {
    if k == PreDepends then OrPreDepends else OrDepends
  }

  /** An entry of a dependency list: an edge by itself, or alternatives of which one is enough. */
  datatype Dep = One(edge: Edge) | AnyOf(kind: Kind, name: nat, alts: seq<Edge>)

  predicate DepOk(d: Dep) {
    match d
    case One(e) => e.kind != OrPreDepends && e.kind != OrDepends
    case AnyOf(k, _, alts) => IsDepend(k) && alts != [] && forall i :: 0 <= i < |alts| ==> alts[i].kind == k
  }

  predicate DepsOk(ds: seq<Dep>) {
    forall i :: 0 <= i < |ds| ==> DepOk(ds[i])
  }

  /** The edges of an entry: alternatives follow an edge that counts them. */
  function EdgesOf(d: Dep): seq<Edge>
    requires DepOk(d)
  {
    match d
    case One(e) => [e]
    case AnyOf(k, name, alts) => [Edge(OrKind(k), name, |alts|, VerAny)] + alts
  }

  function Flat(ds: seq<Dep>): seq<Edge>
    requires DepsOk(ds)
  {
    if ds == [] then [] else EdgesOf(ds[0]) + Flat(ds[1..])
  }

  lemma {:induction false} FlatAppend(a: seq<Dep>, b: seq<Dep>)
    requires DepsOk(a) && DepsOk(b)
    ensures DepsOk(a + b) && Flat(a + b) == Flat(a) + Flat(b)
  {
    hide DepOk, EdgesOf;
    if a == [] {
      assert a + b == b;
    } else {
      FlatAppend(a[1..], b);
      assert (a + b)[0] == a[0] && (a + b)[1..] == a[1..] + b;
      assert Flat(a + b) == EdgesOf(a[0]) + (Flat(a[1..]) + Flat(b));
    }
  }

  /** One field of a dependency line: its alternatives, and whether it has a bar in it. */
  datatype Field = Field(name: nat, barred: bool, alts: seq<Edge>)

  predicate FieldOk(f: Field, k: Kind) {
    && f.alts != [] && (!f.barred ==> |f.alts| == 1) && k != OrPreDepends && k != OrDepends
    && forall i :: 0 <= i < |f.alts| ==> f.alts[i].kind == k
  }

  /** The entries that a field stands for. */
  function DepsOf(f: Field, k: Kind): seq<Dep> {
    if IsDepend(k) && f.barred then [AnyOf(k, f.name, f.alts)] else Ones(f.alts)
  }

  function Ones(es: seq<Edge>): (r: seq<Dep>)
    ensures |r| == |es| && forall i :: 0 <= i < |es| ==> r[i] == One(es[i])
  {
    seq(|es|, i requires 0 <= i < |es| => One(es[i]))
  }

  lemma {:induction false} FlatOnes(es: seq<Edge>)
    requires forall i :: 0 <= i < |es| ==> es[i].kind != OrPreDepends && es[i].kind != OrDepends
    ensures DepsOk(Ones(es)) && Flat(Ones(es)) == es
  {
    if es != [] {
      assert Ones(es)[1..] == Ones(es[1..]);
      FlatOnes(es[1..]);
    }
  }

  /** The edge in front of the alternatives of a field, with their number so far. */
  function Counter(f: Field, k: Kind, n: nat): seq<Edge> {
    if IsDepend(k) && f.barred then [Edge(OrKind(k), f.name, n, VerAny)] else []
  }

  lemma FieldEdges(f: Field, k: Kind)
    requires FieldOk(f, k)
    ensures DepsOk(DepsOf(f, k)) && Flat(DepsOf(f, k)) == Counter(f, k, |f.alts|) + f.alts
  {
    if IsDepend(k) && f.barred {
      assert Flat(DepsOf(f, k)) == EdgesOf(AnyOf(k, f.name, f.alts)) + Flat([]);
    } else {
      FlatOnes(f.alts);
    }
  }

  /** The loop of add_split_dependencies over the alternatives of one field. */
  method AddField(edges: seq<Edge>, f: Field, k: Kind) returns (r: seq<Edge>)
    requires FieldOk(f, k)
    ensures DepsOk(DepsOf(f, k)) && r == edges + Flat(DepsOf(f, k))
  {
    hide Flat, DepsOf;
    FieldEdges(f, k);
    var at, orEdge := |edges|, IsDepend(k) && f.barred;
    r := edges + Counter(f, k, 0);
    for i := 0 to |f.alts|
      invariant r == edges + Counter(f, k, i) + f.alts[..i]
    {
      if orEdge {
        r := r[at := r[at].(version := r[at].version + 1)];
        assert r == edges + Counter(f, k, i + 1) + f.alts[..i];
      }
      r := r + [f.alts[i]];
    }
    assert f.alts[..|f.alts|] == f.alts;
  }

  /** The entries of all fields, in order. */
  function AllDeps(fields: seq<Field>, k: Kind): seq<Dep> {
    if fields == [] then [] else AllDeps(fields[..|fields| - 1], k) + DepsOf(fields[|fields| - 1], k)
  }

  /** add_split_dependencies appends the edges of all fields. */
  method AddSplit(edges: seq<Edge>, fields: seq<Field>, k: Kind) returns (r: seq<Edge>)
    requires forall i :: 0 <= i < |fields| ==> FieldOk(fields[i], k)
    ensures DepsOk(AllDeps(fields, k)) && r == edges + Flat(AllDeps(fields, k))
  {
    hide Flat, DepsOf;
    r := edges;
    assert fields[..0] == [];
    NoEdges();
    for i := 0 to |fields|
      invariant DepsOk(AllDeps(fields[..i], k)) && r == edges + Flat(AllDeps(fields[..i], k))
    {
      r := AddField(r, fields[i], k);
      assert fields[..i + 1][..i] == fields[..i];
      FlatAppend(AllDeps(fields[..i], k), DepsOf(fields[i], k));
    }
    assert fields[..|fields|] == fields;
  }

  lemma NoEdges()
    ensures Flat([]) == []
  {
  }

  lemma FlatAt(ds: seq<Dep>, d: nat)
    requires DepsOk(ds) && d <= |ds|
    ensures d == |ds| ==> Flat(ds[d..]) == []
    ensures d < |ds| ==> DepOk(ds[d]) && Flat(ds[d..]) == EdgesOf(ds[d]) + Flat(ds[d + 1..]) && |EdgesOf(ds[d])| > 0
    ensures d < |ds| && ds[d].One? ==> ds[d].edge.kind != OrPreDepends && ds[d].edge.kind != OrDepends
    ensures d < |ds| && ds[d].AnyOf? ==> IsDepend(ds[d].kind) && |ds[d].alts| > 0
  {
    if d < |ds| {
      assert ds[d..][0] == ds[d] && ds[d..][1..] == ds[d + 1..];
    }
  }

  class Database {
    const p: nat
    const hash: nat -> nat               // the hash of the string with an index
    const text: nat -> string            // the string with an index
    const num: string -> int             // atoi
    const statuses: StatusTable
    const packages: array<Option<Package>>

    constructor (p: nat, statusPrime: nat, hash: nat -> nat, text: nat -> string, num: string -> int)
      requires IsPrime(p) && IsPrime(statusPrime)
      ensures Valid() && this.p == p && fresh(packages) && (forall s :: 0 <= s < p ==> packages[s].None?)
      ensures this.hash == hash && this.text == text && this.num == num
      ensures statuses.Valid() && statuses.p == statusPrime && fresh(statuses.slots)
      ensures forall s :: 0 <= s < statusPrime ==> statuses.slots[s].None?
    {
      this.p, this.hash, this.text, this.num := p, hash, text, num;
      statuses := new StatusTable(statusPrime, hash);
      packages := new Option<Package>[p + 1](_ => None);
    }

    /** The probes for its name come to the package without an empty slot on the way. */
    ghost predicate Found(s: nat)
      requires 2 <= p < packages.Length && s < p
      reads packages
    {
      packages[s].Some? ==>
        exists k :: 0 <= k < p && ProbeAt(hash(packages[s].value.name), p, k) == s && Full(packages[s].value.name, k)
    }

    ghost predicate Full(name: nat, k: nat)
      requires 2 <= p < packages.Length
      reads packages
    {
      forall j :: 0 <= j < k ==> packages[ProbeAt(hash(name), p, j)].Some?
    }

    ghost predicate Valid()
      reads packages
    {
      2 <= p && IsPrime(p) && packages.Length == p + 1 && forall s :: 0 <= s < p ==> Found(s)
    }

    ghost predicate HasRoom()
      reads packages
    {
      p < packages.Length && exists s :: 0 <= s < p && packages[s].None?
    }

    predicate Matches(pkg: Package, name: nat, version: nat, op: Operator) {
      pkg.name == name && TestVersion(text(pkg.version), text(version), op, num)
    }

    lemma RoomAhead(name: nat, k: nat)
      requires Valid() && HasRoom() && Full(name, k) && k <= p
      ensures k < p
    {
      hide IsPrime;
      var s :| 0 <= s < p && packages[s].None?;
      ProbesReach(Start(hash(name), p), Decrement(hash(name), p), p, s);
      var j :| 0 <= j < p && Probe(Start(hash(name), p), Decrement(hash(name), p), p, j) == s;
      assert ProbeAt(hash(name), p, j) == s;
    }

    /** The first k probes for the name meet packages that do not match. */
    ghost predicate Missed(name: nat, version: nat, op: Operator, k: nat)
      requires 2 <= p < packages.Length
      reads packages
    {
      forall j :: 0 <= j < k ==>
        packages[ProbeAt(hash(name), p, j)].Some? && !Matches(packages[ProbeAt(hash(name), p, j)].value, name, version, op)
    }

    lemma NothingMatches(name: nat, version: nat, op: Operator, k: nat)
      requires Valid() && k < p && Missed(name, version, op, k) && packages[ProbeAt(hash(name), p, k)].None?
      ensures forall s :: 0 <= s < p && packages[s].Some? ==> !Matches(packages[s].value, name, version, op)
    {
      hide IsPrime, ProbeAt, TestVersion;
      forall s | 0 <= s < p && packages[s].Some?
        ensures !Matches(packages[s].value, name, version, op)
      {
        assert Found(s);
      }
    }

    lemma MissedStep(name: nat, version: nat, op: Operator, k: nat)
      requires Valid() && HasRoom() && k < p && Missed(name, version, op, k)
      requires packages[ProbeAt(hash(name), p, k)].Some?
      requires !Matches(packages[ProbeAt(hash(name), p, k)].value, name, version, op)
      ensures k + 1 < p && Missed(name, version, op, k + 1)
    {
      hide IsPrime, TestVersion;
      assert Full(name, k + 1);
      RoomAhead(name, k + 1);
    }

    /** search_package_hashtable: a package of that name whose version passes the test, or a free slot. */
    method SearchPackage(name: nat, version: nat, op: Operator) returns (r: nat)
      requires Valid() && HasRoom()
      ensures r < p && (packages[r].Some? ==> Matches(packages[r].value, name, version, op))
      ensures packages[r].None? ==>
                forall s :: 0 <= s < p && packages[s].Some? ==> !Matches(packages[s].value, name, version, op)
      ensures packages[r].None? ==> exists k :: 0 <= k < p && ProbeAt(hash(name), p, k) == r && Full(name, k)
    {
      hide IsPrime, Found, Missed, HasRoom;
      var address: int, decrement := Start(hash(name), p), Decrement(hash(name), p);
      ghost var k := 0;
      NoneMissed(name, version, op);
      while packages[address].Some?
        invariant 0 <= address < p && k < p && address == ProbeAt(hash(name), p, k) && Missed(name, version, op, k)
        decreases p - k
      {
        if packages[address].value.name == name {
          if op == VerAny {
            return address;
          }
          if TestVersion(text(packages[address].value.version), text(version), op, num) {
            return address;
          }
        }
        MissedStep(name, version, op, k);
        address := address - decrement;
        if address < 0 {
          address := address + p;
        }
        k := k + 1;
      }
      NothingMatches(name, version, op, k);
      FullIfMissed(name, version, op, k);
      return address;
    }

    lemma NoneMissed(name: nat, version: nat, op: Operator)
      requires 2 <= p < packages.Length
      ensures Missed(name, version, op, 0)
    {
    }

    lemma FullIfMissed(name: nat, version: nat, op: Operator, k: nat)
      requires 2 <= p < packages.Length && Missed(name, version, op, k)
      ensures Full(name, k)
    {
    }

    /** A package takes the slot that the search for it finds (fill_package_struct). */
    method AddPackage(pkg: Package) returns (r: nat)
      requires Valid() && HasRoom()
      modifies packages
      ensures Valid() && r < p && packages[..] == old(packages[..])[r := Some(pkg)]
      ensures old(packages[r]).Some? ==> Matches(old(packages[r]).value, pkg.name, pkg.version, VerEqual)
      ensures old(packages[r]).None? ==>
                forall s :: 0 <= s < p && old(packages[s]).Some? ==>
                  !Matches(old(packages[s]).value, pkg.name, pkg.version, VerEqual)
    {
      hide IsPrime, ProbeAt;
      r := SearchPackage(pkg.name, pkg.version, VerEqual);
      ghost var was := packages[..];
      if packages[r].Some? {
        assert Found(r);
      }
      ghost var k :| 0 <= k < p && ProbeAt(hash(pkg.name), p, k) == r && Full(pkg.name, k);
      packages[r] := Some(pkg);
      forall s | 0 <= s < p
        ensures Found(s)
      {
        if s == r {
          assert Full(pkg.name, k);
        } else if packages[s].Some? {
          assert old(Found(s));
        }
      }
    }

    /** The table of states is in order and has a free slot. */
    ghost predicate StatusReady()
      reads statuses.slots
    {
      statuses.Valid() && exists s :: 0 <= s < statuses.p && statuses.slots[s].None?
    }

    lemma StatusStops(name: nat)
      requires StatusReady()
      ensures statuses.Valid() && Stops(NamesOf(statuses.slots[..]), name, statuses.p)
    {
      hide TableOk;
      var s :| 0 <= s < statuses.p && statuses.slots[s].None?;
      assert NamesOf(statuses.slots[..])[s].None?;
    }

    ghost function StatusOf(name: nat): Option<Status>
      reads statuses.slots
    {
      if statuses.p <= statuses.slots.Length then statuses.StatusOf(name) else None
    }

    /** Pre-depends needs the package installed, depends needs it wanted. */
    ghost predicate Satisfies(name: nat, kind: Kind)
      reads statuses.slots
    {
      match StatusOf(name)
      case None => false
      case Some(st) => if kind == PreDepends then st.installed else kind == Depends && st.install
    }

    /** package_satisfies_dependency */
    method PackageSatisfies(name: nat, kind: Kind) returns (ok: bool)
      requires StatusReady()
      ensures ok == Satisfies(name, kind)
    {
      hide TableOk;
      StatusStops(name);
      var st := statuses.Lookup(name);
      if st.None? {
        return false;
      }
      match kind
      case PreDepends => return st.value.installed;
      case Depends => return st.value.install;
      case _ => return false;
    }

    predicate Providing(pkg: Package, needle: nat) {
      exists j :: 0 <= j < |pkg.edges| && pkg.edges[j].kind == Provides && pkg.edges[j].name == needle
    }

    ghost predicate ProvidesAt(s: nat, needle: nat)
      requires s < packages.Length
      reads packages
    {
      packages[s].Some? && Providing(packages[s].value, needle)
    }

    /** search_for_provides: the next package that provides the name. */
    method SearchProvider(needle: nat, startAt: int) returns (r: int)
      requires -1 <= startAt < p < packages.Length
      ensures r == -1 || (startAt < r < p && ProvidesAt(r, needle))
      ensures forall s :: startAt < s < (if r == -1 then p else r) ==> !ProvidesAt(s, needle)
    {
      for i := startAt + 1 to p
        invariant forall s :: startAt < s < i ==> !ProvidesAt(s, needle)
      {
        if packages[i].Some? {
          var edges := packages[i].value.edges;
          for j := 0 to |edges|
            invariant forall t :: 0 <= t < j ==> !(edges[t].kind == Provides && edges[t].name == needle)
          {
            if edges[j].kind == Provides && edges[j].name == needle {
              return i;
            }
          }
        }
      }
      return -1;
    }

    /** A package in the table has the name and a fitting version and is in the right state. */
    ghost predicate MetBy(s: nat, e: Edge)
      requires s < packages.Length
      reads packages, statuses.slots
    {
      packages[s].Some? && Matches(packages[s].value, e.name, e.version, e.op) && Satisfies(packages[s].value.name, e.kind)
    }

    ghost predicate MetByProvider(s: nat, e: Edge)
      requires s < packages.Length
      reads packages, statuses.slots
    {
      ProvidesAt(s, e.name) && Satisfies(packages[s].value.name, e.kind)
    }

    /** The dependency is met directly or by some provider. */
    ghost predicate Met(e: Edge)
      requires p < packages.Length
      reads packages, statuses.slots
    {
      (exists s :: 0 <= s < p && MetBy(s, e)) || (exists s :: 0 <= s < p && MetByProvider(s, e))
    }

    lemma ValidSize()
      requires Valid()
      ensures packages.Length == p + 1
    {
      hide IsPrime;
    }

    /** The part of check_deps that looks for a package that meets one dependency. */
    method CheckEdge(e: Edge) returns (met: bool)
      requires Valid() && HasRoom() && StatusReady()
      ensures met <==> Met(e)
    {
      hide IsPrime, TestVersion, Valid, HasRoom, Providing, StatusReady, Satisfies;
      ValidSize();
      var num := SearchPackage(e.name, e.version, e.op);
      met := false;
      if packages[num].Some? {
        met := PackageSatisfies(packages[num].value.name, e.kind);
      }
      assert met ==> MetBy(num, e);
      assert !met ==> forall s :: 0 <= s < p ==> !MetBy(s, e);
      if !met {
        var provider := -1;
        while true
          invariant -1 <= provider < p && !met && forall s :: 0 <= s <= provider ==> !MetByProvider(s, e)
          decreases p - provider
        {
          var next := SearchProvider(e.name, provider);
          if next == -1 {
            break;
          }
          provider := next;
          met := PackageSatisfies(packages[provider].value.name, e.kind);
          if met {
            assert MetByProvider(provider, e);
            break;
          }
        }
      }
    }

    /** An entry is met: the edge itself if it is a dependency, or one of the alternatives. */
    ghost predicate DepMet(d: Dep)
      requires p < packages.Length
      reads packages, statuses.slots
    {
      match d
      case One(e) => IsDepend(e.kind) ==> Met(e)
      case AnyOf(_, _, alts) => exists i :: 0 <= i < |alts| && Met(alts[i])
    }

    /** The alternatives that are not left are not met. */
    ghost predicate InGroup(d: Dep, left: seq<Edge>)
      requires p < packages.Length
      reads packages, statuses.slots
    {
      && d.AnyOf? && DepOk(d) && |left| <= |d.alts| && left == d.alts[|d.alts| - |left|..]
      && forall i :: 0 <= i < |d.alts| - |left| ==> !Met(d.alts[i])
    }

    ghost predicate AllMet(ds: seq<Dep>)
      requires p < packages.Length
      reads packages, statuses.slots
    {
      forall i :: 0 <= i < |ds| ==> DepMet(ds[i])
    }

    /** Between two entries, the first d of which are met. */
    ghost predicate Between(edges: seq<Edge>, ds: seq<Dep>, j: int, d: int)
      requires p < packages.Length && DepsOk(ds)
      reads packages, statuses.slots
    {
      0 <= j <= |edges| && 0 <= d <= |ds| && edges[j..] == Flat(ds[d..]) && AllMet(ds[..d])
    }

    /** Inside entry d, with some alternatives left and the ones before them not met. */
    ghost predicate Inside(edges: seq<Edge>, ds: seq<Dep>, j: int, d: int, left: int)
      requires p < packages.Length && DepsOk(ds)
      reads packages, statuses.slots
    {
      && 0 <= d < |ds| && ds[d].AnyOf? && 0 < left <= |ds[d].alts| && 0 <= j <= |edges|
      && InGroup(ds[d], ds[d].alts[|ds[d].alts| - left..])
      && edges[j..] == ds[d].alts[|ds[d].alts| - left..] + Flat(ds[d + 1..]) && AllMet(ds[..d])
    }

    /** The edge between two entries is one by itself or starts the alternatives of the next. */
    lemma AtEntry(edges: seq<Edge>, ds: seq<Dep>, j: int, d: int)
      requires p < packages.Length && DepsOk(ds) && Between(edges, ds, j, d) && j < |edges|
      ensures d < |ds| && (ds[d].AnyOf? ==> IsDepend(ds[d].kind) && |ds[d].alts| > 0)
      ensures ds[d].One? ==> edges[j] == ds[d].edge && edges[j].kind != OrPreDepends && edges[j].kind != OrDepends
      ensures ds[d].AnyOf? ==> edges[j] == Edge(OrKind(ds[d].kind), ds[d].name, |ds[d].alts|, VerAny)
      ensures ds[d].AnyOf? ==> Inside(edges, ds, j + 1, d, |ds[d].alts|)
    {
      hide Met, Flat, DepOk, AllMet;
      FlatAt(ds, d);
      assert edges[j..][0] == edges[j] && edges[j..][1..] == edges[j + 1..];
      if ds[d].AnyOf? {
        assert ds[d].alts[0..] == ds[d].alts;
        assert edges[j + 1..] == ds[d].alts + Flat(ds[d + 1..]);
      }
    }

    lemma AfterOne(edges: seq<Edge>, ds: seq<Dep>, j: int, d: int)
      requires p < packages.Length && DepsOk(ds) && Between(edges, ds, j, d) && j < |edges|
      requires d < |ds| && ds[d].One? && DepMet(ds[d])
      ensures Between(edges, ds, j + 1, d + 1)
    {
      hide Met;
      assert edges[j..][1..] == edges[j + 1..];
      assert ds[d..][0] == ds[d] && ds[d..][1..] == ds[d + 1..];
      assert ds[..d + 1] == ds[..d] + [ds[d]];
    }

    /** Inside an entry the edge is the next alternative. */
    lemma AtAlternative(edges: seq<Edge>, ds: seq<Dep>, j: int, d: int, left: int)
      requires p < packages.Length && DepsOk(ds) && Inside(edges, ds, j, d, left)
      ensures j + left <= |edges| && IsDepend(ds[d].kind)
      ensures edges[j] == ds[d].alts[|ds[d].alts| - left] && edges[j].kind == ds[d].kind
    {
      hide Met, Flat, AllMet;
      assert edges[j] == edges[j..][0];
    }

    lemma GroupMet(edges: seq<Edge>, ds: seq<Dep>, j: int, d: int, left: int)
      requires p < packages.Length && DepsOk(ds) && Inside(edges, ds, j, d, left)
      requires Met(ds[d].alts[|ds[d].alts| - left])
      ensures Between(edges, ds, j + left, d + 1)
    {
      hide Met, Flat, DepOk;
      assert edges[j..][left..] == edges[j + left..];
      assert ds[..d + 1] == ds[..d] + [ds[d]];
    }

    lemma GroupStep(edges: seq<Edge>, ds: seq<Dep>, j: int, d: int, left: int)
      requires p < packages.Length && DepsOk(ds) && Inside(edges, ds, j, d, left)
      requires !Met(ds[d].alts[|ds[d].alts| - left]) && left > 1
      ensures Inside(edges, ds, j + 1, d, left - 1)
    {
      hide Met, Flat, DepOk, AllMet;
      var rest := ds[d].alts[|ds[d].alts| - left..];
      assert edges[j..][1..] == edges[j + 1..];
      assert rest[1..] == ds[d].alts[|ds[d].alts| - (left - 1)..];
      assert edges[j + 1..] == rest[1..] + Flat(ds[d + 1..]);
    }

    lemma GroupFails(edges: seq<Edge>, ds: seq<Dep>, j: int, d: int)
      requires p < packages.Length && DepsOk(ds) && Inside(edges, ds, j, d, 1)
      requires !Met(ds[d].alts[|ds[d].alts| - 1])
      ensures !AllMet(ds)
    {
      hide Met, Flat, DepOk;
      assert !DepMet(ds[d]);
    }

    lemma AtEnd(edges: seq<Edge>, ds: seq<Dep>, d: int)
      requires p < packages.Length && DepsOk(ds) && Between(edges, ds, |edges|, d)
      ensures AllMet(ds)
    {
      FlatAt(ds, d);
      assert ds[..|ds|] == ds;
    }

    lemma AtStart(edges: seq<Edge>, ds: seq<Dep>)
      requires p < packages.Length && DepsOk(ds) && edges == Flat(ds)
      ensures Between(edges, ds, 0, 0)
    {
      assert edges[0..] == edges && ds[0..] == ds;
    }

    lemma Unmet(ds: seq<Dep>, d: int)
      requires p < packages.Length && 0 <= d < |ds| && !DepMet(ds[d])
      ensures !AllMet(ds)
    {
    }

    /** The loop of check_deps over the edges of a package: it gets to the end when every entry is met. */
    method CheckEdges(edges: seq<Edge>, ghost ds: seq<Dep>) returns (ok: bool)
      requires Valid() && HasRoom() && StatusReady() && DepsOk(ds) && edges == Flat(ds)
      ensures ok <==> AllMet(ds)
    {
      hide Valid, HasRoom, StatusReady, Met, Between, Inside, Flat, EdgesOf, DepOk, AllMet;
      ValidSize();
      AtStart(edges, ds);
      var j, alternatives := 0, 0;
      var root: Option<Edge> := None;
      ghost var d := 0;
      while j < |edges|
        invariant 0 <= j <= |edges| && 0 <= alternatives && (root.None? ==> alternatives <= 1)
        invariant root.None? || alternatives == 0 ==> Between(edges, ds, j, d)
        invariant root.Some? && alternatives > 0 ==>
                    && 0 <= d < |ds| && ds[d].AnyOf? && Inside(edges, ds, j, d, alternatives)
                    && IsDepend(ds[d].kind) && root.value.kind == OrKind(ds[d].kind)
      {
        var e := edges[j];
        if root.None? || alternatives == 0 {
          AtEntry(edges, ds, j, d);
        } else {
          AtAlternative(edges, ds, j, d, alternatives);
        }
        if e.kind == OrPreDepends || e.kind == OrDepends {
          alternatives, root := e.version, Some(e);
          j := j + 1;
          continue;
        } else if alternatives == 0 {
          alternatives, root := 1, None;
        }
        if e.kind == PreDepends || e.kind == Depends {
          if root.Some? && OrKind(e.kind) != root.value.kind {
            return false;
          }
          var met := CheckEdge(e);
          alternatives := alternatives - 1;
          if !met && alternatives == 0 {
            if root.None? {
              Unmet(ds, d);
            } else {
              GroupFails(edges, ds, j, d);
            }
            return false;
          }
          if root.None? {
            AfterOne(edges, ds, j, d);
          } else if met {
            GroupMet(edges, ds, j, d, alternatives + 1);
          } else {
            GroupStep(edges, ds, j, d, alternatives + 1);
          }
          if met || root.None? {
            d := d + 1;
          }
          if met && alternatives != 0 {
            j := j + alternatives;
            alternatives := 0;
          }
        } else {
          AfterOne(edges, ds, j, d);
          d := d + 1;
        }
        j := j + 1;
      }
      if root.Some? && alternatives > 0 {
        AtAlternative(edges, ds, j, d, alternatives);
      }
      AtEnd(edges, ds, d);
      return true;
    }

    /** The status asks for the package to be installed. */
    ghost predicate Wanted(s: nat)
      requires s < packages.Length
      reads packages, statuses.slots
    {
      packages[s].Some? && match StatusOf(packages[s].value.name) case None => false case Some(st) => st.install
    }

    /** The edges of every package are those of its entries. */
    ghost predicate Listed(deps: seq<seq<Dep>>)
      reads packages
    {
      && |deps| == p < packages.Length
      && forall s :: 0 <= s < p && packages[s].Some? ==> DepsOk(deps[s]) && packages[s].value.edges == Flat(deps[s])
    }

    /** The dependency pass of check_deps succeeds exactly when what every wanted package needs is met. */
    method CheckDeps(ghost deps: seq<seq<Dep>>) returns (ok: bool)
      requires Valid() && HasRoom() && StatusReady() && Listed(deps)
      ensures ok <==> forall s :: 0 <= s < p && Wanted(s) ==> AllMet(deps[s])
    {
      hide Valid, HasRoom, StatusReady, AllMet, Flat, DepsOk;
      ValidSize();
      for i := 0 to p
        invariant forall s :: 0 <= s < i && Wanted(s) ==> AllMet(deps[s])
      {
        if packages[i].None? {
          continue;
        }
        StatusStops(packages[i].value.name);
        var st := statuses.Lookup(packages[i].value.name);
        if st.None? {
          continue;
        }
        if !st.value.install {
          continue;
        }
        var good := CheckEdges(packages[i].value.edges, deps[i]);
        if !good {
          assert Wanted(i) && !AllMet(deps[i]);
          return false;
        }
      }
      return true;
    }
  }
}
