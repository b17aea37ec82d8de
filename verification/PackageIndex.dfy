/**
 From the paragraphs of a status file to the answer of the dependency check (archival/dpkg.c,
 fill_package_struct, index_status_file and the dependency pass of check_deps).
 */
module PackageIndex {
  import opened Options
  import opened Probing
  import opened Interning
  import opened Versions
  import opened Statuses
  import opened Dependencies

  /** A line of a paragraph with a list of packages. */
  datatype Line = Line(kind: Kind, fields: seq<Field>)

  datatype Paragraph = Paragraph(name: nat, version: nat, lines: seq<Line>, status: Status)

  predicate LineOk(l: Line) {
    forall i :: 0 <= i < |l.fields| ==> FieldOk(l.fields[i], l.kind)
  }

  predicate ParagraphOk(par: Paragraph) {
    forall i :: 0 <= i < |par.lines| ==> LineOk(par.lines[i])
  }

  /** What the package of the paragraph needs and offers. */
  function LineDeps(lines: seq<Line>): seq<Dep> {
    if lines == [] then []
    else LineDeps(lines[..|lines| - 1]) + AllDeps(lines[|lines| - 1].fields, lines[|lines| - 1].kind)
  }

  /** The loop of fill_package_struct over the lines. */
  method FillEdges(lines: seq<Line>) returns (edges: seq<Edge>)
    requires forall i :: 0 <= i < |lines| ==> LineOk(lines[i])
    ensures DepsOk(LineDeps(lines)) && edges == Flat(LineDeps(lines))
  {
    hide Flat, DepsOk, AllDeps;
    edges := [];
    assert lines[..0] == [];
    NoDeps();
    for i := 0 to |lines|
      invariant DepsOk(LineDeps(lines[..i])) && edges == Flat(LineDeps(lines[..i]))
    {
      edges := AddSplit(edges, lines[i].fields, lines[i].kind);
      assert lines[..i + 1][..i] == lines[..i];
      FlatAppend(LineDeps(lines[..i]), AllDeps(lines[i].fields, lines[i].kind));
    }
    assert lines[..|lines|] == lines;
  }

  lemma NoDeps()
    ensures DepsOk([]) && Flat([]) == []
  {
  }

  /** The state of a name: what the last paragraph about it says, of those that have a version. */
  ghost function LastStatus(pars: seq<Paragraph>, unknown: nat, name: nat): Option<Status> {
    if pars == [] then None
    else
      var last := pars[|pars| - 1];
      if last.name == name && last.version != unknown then Some(last.status)
      else LastStatus(pars[..|pars| - 1], unknown, name)
  }

  /** The names and versions of the packages. */
  ghost function Pairs(pars: seq<Paragraph>, unknown: nat): set<(nat, nat)> {
    set par | par in pars && par.version != unknown :: (par.name, par.version)
  }

  ghost function Names(pars: seq<Paragraph>, unknown: nat): set<nat> {
    set par | par in pars && par.version != unknown :: par.name
  }

  /** Slot s has the package of paragraph from[s]. */
  ghost predicate Holds(slots: seq<Option<Package>>, pars: seq<Paragraph>, unknown: nat, from: seq<nat>, s: nat)
    requires s < |slots| && s < |from|
  {
    slots[s].Some? ==>
      && from[s] < |pars| && pars[from[s]].version != unknown && DepsOk(LineDeps(pars[from[s]].lines))
      && slots[s].value == Package(pars[from[s]].name, pars[from[s]].version, Flat(LineDeps(pars[from[s]].lines)))
  }

  /** A package of that name and an equal version, from paragraph i or a later one. */
  ghost predicate Kept(db: Database, slots: seq<Option<Package>>, pars: seq<Paragraph>, from: seq<nat>, i: nat)
    requires i < |pars| && db.p <= |slots| && |from| == db.p
  {
    exists s :: 0 <= s < db.p && slots[s].Some? && i <= from[s]
                && db.Matches(slots[s].value, pars[i].name, pars[i].version, VerEqual)
  }

  /** No two slots have the same name and equal versions. */
  ghost predicate Apart(db: Database, slots: seq<Option<Package>>)
    requires db.p <= |slots|
  {
    forall s, t ::
      (0 <= s < db.p && 0 <= t < db.p && slots[s].Some? && slots[t].Some?
       && db.Matches(slots[s].value, slots[t].value.name, slots[t].value.version, VerEqual)) ==> s == t
  }

  /** The packages are those of the paragraphs, the last one for each name and version. */
  ghost predicate Indexed(db: Database, slots: seq<Option<Package>>, pars: seq<Paragraph>, unknown: nat, from: seq<nat>) {
    && db.p <= |slots| && |from| == db.p && Apart(db, slots)
    && (forall s :: 0 <= s < db.p ==> Holds(slots, pars, unknown, from, s))
    && forall i :: 0 <= i < |pars| && pars[i].version != unknown ==> Kept(db, slots, pars, from, i)
  }

  lemma IndexedNothing(db: Database, slots: seq<Option<Package>>, unknown: nat, from: seq<nat>)
    requires db.p <= |slots| && |from| == db.p && forall s :: 0 <= s < db.p ==> slots[s].None?
    ensures Indexed(db, slots, [], unknown, from)
  {
  }

  /** A paragraph without a version changes nothing. */
  lemma IndexedSkip(db: Database, slots: seq<Option<Package>>, pars: seq<Paragraph>, unknown: nat, from: seq<nat>,
                    par: Paragraph)
    requires Indexed(db, slots, pars, unknown, from) && par.version == unknown
    ensures Indexed(db, slots, pars + [par], unknown, from)
  {
    var more := pars + [par];
    forall s | 0 <= s < db.p
      ensures Holds(slots, more, unknown, from, s)
    {
      assert Holds(slots, pars, unknown, from, s);
    }
    forall i | 0 <= i < |more| && more[i].version != unknown
      ensures Kept(db, slots, more, from, i)
    {
      assert Kept(db, slots, pars, from, i);
    }
  }

  /** Equal versions match whatever an equal one matches. */
  lemma MatchesCarry(db: Database, a: Package, b: Package, name: nat, version: nat)
    requires db.Matches(a, name, version, VerEqual) && db.Matches(a, b.name, b.version, VerEqual)
    ensures db.Matches(b, name, version, VerEqual)
  {
    hide VersionCompare;
    var x, y, z := db.text(b.version), db.text(a.version), db.text(version);
    VersionPreorder(x, y, z, db.num);
    VersionPreorder(z, y, x, db.num);
    VersionPreorder(x, z, x, db.num);
  }

  lemma MatchesItself(db: Database, a: Package)
    ensures db.Matches(a, a.name, a.version, VerEqual)
  {
    hide VersionCompare;
    var x := db.text(a.version);
    VersionPreorder(x, x, x, db.num);
  }

  lemma MatchesBack(db: Database, a: Package, b: Package)
    requires db.Matches(a, b.name, b.version, VerEqual)
    ensures db.Matches(b, a.name, a.version, VerEqual)
  {
    hide Database.Matches;
    MatchesItself(db, a);
    MatchesCarry(db, a, b, a.name, a.version);
  }

  lemma ApartAdd(db: Database, slots: seq<Option<Package>>, pkg: Package, r: nat)
    requires db.p <= |slots| && Apart(db, slots) && r < db.p
    requires slots[r].Some? ==> db.Matches(slots[r].value, pkg.name, pkg.version, VerEqual)
    requires slots[r].None? ==>
               forall s :: 0 <= s < db.p && slots[s].Some? ==> !db.Matches(slots[s].value, pkg.name, pkg.version, VerEqual)
    ensures Apart(db, slots[r := Some(pkg)])
  {
    hide Database.Matches;
    forall s | 0 <= s < db.p && slots[s].Some? && db.Matches(slots[s].value, pkg.name, pkg.version, VerEqual)
      ensures s == r
    {
      if slots[r].Some? {
        MatchesBack(db, slots[r].value, pkg);
        MatchesBack(db, slots[s].value, pkg);
        MatchesCarry(db, pkg, slots[s].value, slots[r].value.name, slots[r].value.version);
      }
    }
    forall s | 0 <= s < db.p && slots[s].Some? && db.Matches(pkg, slots[s].value.name, slots[s].value.version, VerEqual)
      ensures s == r
    {
      MatchesBack(db, pkg, slots[s].value);
    }
  }

  /** A package goes to its slot. */
  lemma IndexedAdd(db: Database, slots: seq<Option<Package>>, pars: seq<Paragraph>, unknown: nat, from: seq<nat>,
                   par: Paragraph, pkg: Package, r: nat)
    requires Indexed(db, slots, pars, unknown, from) && par.version != unknown && r < db.p
    requires DepsOk(LineDeps(par.lines)) && pkg == Package(par.name, par.version, Flat(LineDeps(par.lines)))
    requires slots[r].Some? ==> db.Matches(slots[r].value, pkg.name, pkg.version, VerEqual)
    requires slots[r].None? ==>
               forall s :: 0 <= s < db.p && slots[s].Some? ==> !db.Matches(slots[s].value, pkg.name, pkg.version, VerEqual)
    ensures Indexed(db, slots[r := Some(pkg)], pars + [par], unknown, from[r := |pars|])
  {
    hide Database.Matches, DepsOk, Flat, Apart;
    var next, more, from' := slots[r := Some(pkg)], pars + [par], from[r := |pars|];
    ApartAdd(db, slots, pkg, r);
    forall s | 0 <= s < db.p
      ensures Holds(next, more, unknown, from', s)
    {
      assert Holds(slots, pars, unknown, from, s);
    }
    forall i | 0 <= i < |more| && more[i].version != unknown
      ensures Kept(db, next, more, from', i)
    {
      if i == |pars| {
        MatchesItself(db, pkg);
        assert next[r].Some? && from'[r] >= i;
      } else {
        assert Kept(db, slots, pars, from, i);
        var s :| 0 <= s < db.p && slots[s].Some? && i <= from[s]
                 && db.Matches(slots[s].value, pars[i].name, pars[i].version, VerEqual);
        if s == r {
          MatchesCarry(db, slots[r].value, pkg, pars[i].name, pars[i].version);
        }
        assert next[s].Some? && i <= from'[s] && db.Matches(next[s].value, more[i].name, more[i].version, VerEqual);
      }
    }
  }

  lemma PairsMore(pars: seq<Paragraph>, unknown: nat, par: Paragraph)
    ensures Pairs(pars + [par], unknown) ==
              Pairs(pars, unknown) + (if par.version != unknown then {(par.name, par.version)} else {})
    ensures Names(pars + [par], unknown) == Names(pars, unknown) + (if par.version != unknown then {par.name} else {})
  {
    var more := pars + [par];
    assert more[|pars|] == par;
    forall x | x in pars
      ensures x in more
    {
    }
  }

  lemma PairsPrefix(pars: seq<Paragraph>, unknown: nat, n: nat)
    requires n <= |pars|
    ensures |Pairs(pars[..n], unknown)| <= |Pairs(pars, unknown)| && |Names(pars[..n], unknown)| <= |Names(pars, unknown)|
  {
    SubsetSize(Pairs(pars[..n], unknown), Pairs(pars, unknown));
    SubsetSize(Names(pars[..n], unknown), Names(pars, unknown));
  }

  lemma {:induction false} SomeNone<K>(slots: seq<Option<K>>, n: nat)
    requires n <= |slots| && Free(slots, n) > 0
    ensures exists s :: 0 <= s < n && slots[s].None?
  {
    if slots[n - 1].Some? {
      SomeNone(slots, n - 1);
    }
  }

  lemma {:induction false} AllFree<K>(slots: seq<Option<K>>, n: nat)
    requires n <= |slots| && forall s :: 0 <= s < n ==> slots[s].None?
    ensures Free(slots, n) == n
  {
    if n > 0 {
      AllFree(slots, n - 1);
    }
  }

  lemma {:induction false} FreeKept<K>(slots: seq<Option<K>>, n: nat, r: nat, x: K)
    requires n <= |slots| && r < |slots| && slots[r].Some?
    ensures Free(slots[r := Some(x)], n) == Free(slots, n)
  {
    if n > 0 {
      FreeKept(slots, n - 1, r, x);
    }
  }

  /** A pair that has come before has a slot. */
  lemma PairStored(db: Database, slots: seq<Option<Package>>, pars: seq<Paragraph>, unknown: nat, from: seq<nat>,
                   name: nat, version: nat)
    requires Indexed(db, slots, pars, unknown, from) && version != unknown && (name, version) in Pairs(pars, unknown)
    ensures exists s :: 0 <= s < db.p && slots[s].Some? && db.Matches(slots[s].value, name, version, VerEqual)
  {
    hide Database.Matches, Holds;
    var par :| par in pars && par.version != unknown && (par.name, par.version) == (name, version);
    var i :| 0 <= i < |pars| && pars[i] == par;
    assert Kept(db, slots, pars, from, i);
    var s :| 0 <= s < db.p && slots[s].Some? && i <= from[s]
             && db.Matches(slots[s].value, pars[i].name, pars[i].version, VerEqual);
    assert slots[s].Some? && db.Matches(slots[s].value, name, version, VerEqual);
  }

  /** A slot is taken only by a pair that has not come before. */
  lemma PackageRoom(db: Database, slots: seq<Option<Package>>, pars: seq<Paragraph>, unknown: nat, from: seq<nat>,
                    par: Paragraph, pkg: Package, r: nat)
    requires Indexed(db, slots, pars, unknown, from) && par.version != unknown && r < db.p
    requires pkg.name == par.name && pkg.version == par.version && Free(slots, db.p) + |Pairs(pars, unknown)| >= db.p
    requires slots[r].None? ==>
               forall s :: 0 <= s < db.p && slots[s].Some? ==> !db.Matches(slots[s].value, pkg.name, pkg.version, VerEqual)
    ensures Free(slots[r := Some(pkg)], db.p) + |Pairs(pars + [par], unknown)| >= db.p
  {
    hide Database.Matches, Indexed;
    assert db.p <= |slots| by { IndexedSize(db, slots, pars, unknown, from); }
    PairsMore(pars, unknown, par);
    if slots[r].None? {
      FreeLess(slots, db.p, r, pkg);
      if (par.name, par.version) in Pairs(pars, unknown) {
        PairStored(db, slots, pars, unknown, from, par.name, par.version);
        assert false;
      }
    } else {
      FreeKept(slots, db.p, r, pkg);
      SubsetSize(Pairs(pars, unknown), Pairs(pars + [par], unknown));
    }
  }

  lemma IndexedSize(db: Database, slots: seq<Option<Package>>, pars: seq<Paragraph>, unknown: nat, from: seq<nat>)
    requires Indexed(db, slots, pars, unknown, from)
    ensures db.p <= |slots| && |from| == db.p
  {
  }

  lemma {:induction false} NamedHasStatus(pars: seq<Paragraph>, unknown: nat, name: nat)
    requires exists i :: 0 <= i < |pars| && pars[i].name == name && pars[i].version != unknown
    ensures LastStatus(pars, unknown, name).Some?
  {
    var n := |pars| - 1;
    if !(pars[n].name == name && pars[n].version != unknown) {
      var i :| 0 <= i < |pars| && pars[i].name == name && pars[i].version != unknown;
      assert pars[..n][i] == pars[i];
      NamedHasStatus(pars[..n], unknown, name);
    }
  }

  /** A name that has come before has an entry. */
  lemma NameStored(slots: seq<Option<Entry>>, p: nat, pars: seq<Paragraph>, unknown: nat, name: nat)
    requires p <= |slots| && StatusIn(slots, p, name) == LastStatus(pars, unknown, name) && name in Names(pars, unknown)
    ensures Stored(NamesOf(slots), p, name)
  {
    var par :| par in pars && par.version != unknown && par.name == name;
    var i :| 0 <= i < |pars| && pars[i] == par;
    NamedHasStatus(pars, unknown, name);
    var s :| 0 <= s < p && NameOf(slots[s]) == Some(name);
    assert NamesOf(slots)[s] == Some(name);
  }

  lemma StatusRoom(slots: seq<Option<Entry>>, next: seq<Option<Entry>>, p: nat, pars: seq<Paragraph>, unknown: nat,
                   par: Paragraph, r: nat)
    requires r < p <= |slots| && par.version != unknown && next == slots[r := Some(Entry(par.name, par.status))]
    requires StatusIn(slots, p, par.name) == LastStatus(pars, unknown, par.name)
    requires slots[r].None? ==> !Stored(NamesOf(slots), p, par.name)
    requires Free(NamesOf(slots), p) + |Names(pars, unknown)| >= p
    ensures Free(NamesOf(next), p) + |Names(pars + [par], unknown)| >= p
  {
    hide StatusIn, LastStatus, Stored;
    var names := NamesOf(slots);
    assert NamesOf(next) == names[r := Some(par.name)];
    PairsMore(pars, unknown, par);
    if slots[r].None? {
      FreeLess(names, p, r, par.name);
      if par.name in Names(pars, unknown) {
        NameStored(slots, p, pars, unknown, par.name);
        assert false;
      }
    } else {
      FreeKept(names, p, r, par.name);
      SubsetSize(Names(pars, unknown), Names(pars + [par], unknown));
    }
  }

  /** The states are those of the paragraphs, and the tables are no fuller than these call for. */
  ghost predicate Current(db: Database, pars: seq<Paragraph>, unknown: nat, from: seq<nat>)
    reads db.packages, db.statuses.slots
  {
    && db.Valid() && db.statuses.Valid() && Indexed(db, db.packages[..], pars, unknown, from)
    && (forall x :: db.StatusOf(x) == LastStatus(pars, unknown, x))
    && Free(db.packages[..], db.p) + |Pairs(pars, unknown)| >= db.p
    && Free(NamesOf(db.statuses.slots[..]), db.statuses.p) + |Names(pars, unknown)| >= db.statuses.p
  }

  lemma CurrentSkip(db: Database, pars: seq<Paragraph>, unknown: nat, from: seq<nat>, par: Paragraph)
    requires Current(db, pars, unknown, from) && par.version == unknown
    ensures Current(db, pars + [par], unknown, from)
  {
    hide Database.Valid, StatusTable.Valid, Indexed;
    IndexedSkip(db, db.packages[..], pars, unknown, from, par);
    PairsMore(pars, unknown, par);
    assert Pairs(pars, unknown) + {} == Pairs(pars, unknown) && Names(pars, unknown) + {} == Names(pars, unknown);
    assert (pars + [par])[..|pars|] == pars;
  }

  lemma RoomLeft(db: Database, pars: seq<Paragraph>, unknown: nat, from: seq<nat>)
    requires Current(db, pars, unknown, from)
    requires |Pairs(pars, unknown)| < db.p && |Names(pars, unknown)| < db.statuses.p
    ensures db.HasRoom() && db.StatusReady()
  {
    hide Indexed, TableOk, LastStatus;
    SomeNone(db.packages[..], db.p);
    var s :| 0 <= s < db.p && db.packages[..][s].None?;
    assert db.packages[s].None?;
    SomeNone(NamesOf(db.statuses.slots[..]), db.statuses.p);
    var t :| 0 <= t < db.statuses.p && NamesOf(db.statuses.slots[..])[t].None?;
    assert db.statuses.slots[t].None?;
  }

  /** One turn of the loop of index_status_file. */
  method IndexParagraph(db: Database, par: Paragraph, unknown: nat, ghost pars: seq<Paragraph>, ghost from: seq<nat>)
    returns (ghost from': seq<nat>)
    requires Current(db, pars, unknown, from) && ParagraphOk(par)
    requires |Pairs(pars, unknown)| < db.p && |Names(pars, unknown)| < db.statuses.p
    modifies db.packages, db.statuses.slots
    ensures Current(db, pars + [par], unknown, from')
  {
    hide Database.Valid, StatusTable.Valid, Indexed, Pairs, Names, TableOk, DepsOk, Flat, Database.HasRoom, Database.StatusReady,
         Database.Matches, Stored, Stops;
    if par.version == unknown {
      CurrentSkip(db, pars, unknown, from, par);
      return from;
    }
    RoomLeft(db, pars, unknown, from);
    db.ValidSize();
    db.statuses.Size();
    IndexedSize(db, db.packages[..], pars, unknown, from);
    var edges := FillEdges(par.lines);
    var pkg := Package(par.name, par.version, edges);
    ghost var slots, entries := db.packages[..], db.statuses.slots[..];
    var num := db.AddPackage(pkg);
    from' := from[num := |pars|];
    IndexedAdd(db, slots, pars, unknown, from, par, pkg, num);
    PackageRoom(db, slots, pars, unknown, from, par, pkg, num);
    db.StatusStops(par.name);
    var r := db.statuses.Put(par.name, par.status);
    StatusRoom(entries, db.statuses.slots[..], db.statuses.p, pars, unknown, par, r);
    assert (pars + [par])[..|pars|] == pars;
    assert db.Valid();
    assert db.statuses.Valid();
    assert Indexed(db, db.packages[..], pars + [par], unknown, from');
    assert Free(db.packages[..], db.p) + |Pairs(pars + [par], unknown)| >= db.p;
    assert forall x :: db.StatusOf(x) == LastStatus(pars + [par], unknown, x);
  }

  /** The entries of the packages by slot. */
  ghost function DepsBySlot(slots: seq<Option<Package>>, pars: seq<Paragraph>, p: nat, from: seq<nat>): (r: seq<seq<Dep>>)
    requires |from| == p <= |slots|
    ensures |r| == p
    ensures forall s :: 0 <= s < p && from[s] < |pars| ==> r[s] == LineDeps(pars[from[s]].lines)
  {
    seq(p, s requires 0 <= s < p => if from[s] < |pars| then LineDeps(pars[from[s]].lines) else [])
  }

  lemma IndexedListed(db: Database, pars: seq<Paragraph>, unknown: nat, from: seq<nat>)
    requires Indexed(db, db.packages[..], pars, unknown, from) && db.p < db.packages.Length
    ensures db.Listed(DepsBySlot(db.packages[..], pars, db.p, from))
    ensures forall s :: 0 <= s < db.p && db.packages[s].Some? ==> from[s] < |pars|
  {
    hide Kept, Flat, DepsOk, LineDeps;
    var slots := db.packages[..];
    forall s | 0 <= s < db.p && db.packages[s].Some?
      ensures from[s] < |pars| && DepsOk(LineDeps(pars[from[s]].lines))
              && db.packages[s].value.edges == Flat(LineDeps(pars[from[s]].lines))
    {
      assert Holds(slots, pars, unknown, from, s);
      assert slots[s] == db.packages[s];
    }
  }

  /**
   The packages of all paragraphs and then the check: it succeeds exactly when, for every package whose
   last state asks for it to be installed, every dependency and one alternative of every group is met.
   */
  method IndexAndCheck(db: Database, pars: seq<Paragraph>, unknown: nat) returns (ok: bool, ghost from: seq<nat>)
    requires db.Valid() && db.statuses.Valid() && forall i :: 0 <= i < |pars| ==> ParagraphOk(pars[i])
    requires (forall s :: 0 <= s < db.p ==> db.packages[s].None?)
             && forall s :: 0 <= s < db.statuses.p ==> db.statuses.slots[s].None?
    requires |Pairs(pars, unknown)| < db.p && |Names(pars, unknown)| < db.statuses.p
    modifies db.packages, db.statuses.slots
    ensures db.Valid() && Indexed(db, db.packages[..], pars, unknown, from)
    ensures forall x :: db.StatusOf(x) == LastStatus(pars, unknown, x)
    ensures forall s :: 0 <= s < db.p && db.packages[s].Some? ==> from[s] < |pars|
    ensures ok <==> forall s :: 0 <= s < db.p && db.Wanted(s) ==> db.AllMet(LineDeps(pars[from[s]].lines))
  {
    hide Database.Valid, StatusTable.Valid, Indexed, Pairs, Names, Database.HasRoom, Database.StatusReady, Database.AllMet,
         LineDeps, Database.Listed, Database.StatusOf, Current;
    from := seq(db.p, _ => 0);
    assert pars[..0] == [];
    CurrentNothing(db, unknown, from);
    for i := 0 to |pars|
      invariant Current(db, pars[..i], unknown, from)
    {
      PairsPrefix(pars, unknown, i);
      assert pars[..i + 1] == pars[..i] + [pars[i]];
      from := IndexParagraph(db, pars[i], unknown, pars[..i], from);
    }
    assert pars[..|pars|] == pars;
    CurrentParts(db, pars, unknown, from);
    RoomLeft(db, pars, unknown, from);
    IndexedListed(db, pars, unknown, from);
    ghost var deps := DepsBySlot(db.packages[..], pars, db.p, from);
    ok := db.CheckDeps(deps);
    assert forall s :: 0 <= s < db.p && db.Wanted(s) ==> deps[s] == LineDeps(pars[from[s]].lines);
  }

  lemma CurrentNothing(db: Database, unknown: nat, from: seq<nat>)
    requires db.Valid() && db.statuses.Valid() && |from| == db.p
    requires (forall s :: 0 <= s < db.p ==> db.packages[s].None?)
             && forall s :: 0 <= s < db.statuses.p ==> db.statuses.slots[s].None?
    ensures Current(db, [], unknown, from)
  {
    hide TableOk, IsPrime;
    IndexedNothing(db, db.packages[..], unknown, from);
    AllFree(db.packages[..], db.p);
    AllFree(NamesOf(db.statuses.slots[..]), db.statuses.p);
  }

  lemma CurrentParts(db: Database, pars: seq<Paragraph>, unknown: nat, from: seq<nat>)
    requires Current(db, pars, unknown, from)
    ensures db.Valid() && db.statuses.Valid() && Indexed(db, db.packages[..], pars, unknown, from)
    ensures (forall x :: db.StatusOf(x) == LastStatus(pars, unknown, x))
    ensures db.p < db.packages.Length && |from| == db.p
  {
    hide TableOk, IsPrime, LastStatus, Database.StatusOf, Kept, Holds;
  }
}
