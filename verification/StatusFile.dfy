/**
 What the dependency check says about a status file (archival/dpkg.c, index_status_file and check_deps), in
 terms of its text alone: no indices and no tables.
 */
module StatusFile {
  import opened Options
  import opened Probing
  import opened Interning
  import opened Versions
  import opened Statuses
  import opened Dependencies
  import opened PackageIndex
  import opened StatusText

  /** The paragraph is the last one for its name and version. */
  ghost predicate Live(ts: seq<TextParagraph>, i: nat, num: string -> int)
    requires i < |ts|
  {
    && ts[i].version != "unknown"
    && forall j :: i < j < |ts| && ts[j].version != "unknown" && ts[j].name == ts[i].name ==>
         !TestVersion(ts[j].version, ts[i].version, VerEqual, num)
  }

  /** The state of a package: what the last paragraph about it says, of those that have a version. */
  ghost function StateOf(ts: seq<TextParagraph>, name: string): Option<Status> {
    if ts == [] then None
    else
      var last := ts[|ts| - 1];
      if last.name == name && last.version != "unknown" then Some(last.status) else StateOf(ts[..|ts| - 1], name)
  }

  ghost predicate InState(ts: seq<TextParagraph>, name: string, kind: Kind) {
    match StateOf(ts, name)
    case None => false
    case Some(st) => if kind == PreDepends then st.installed else kind == Depends && st.install
  }

  /** Some alternative of the field has the name. */
  predicate FieldNames(f: TextField, name: string) {
    exists a :: 0 <= a < |f.alts| && f.alts[a].name == name
  }

  predicate LineOffers(l: TextLine, name: string) {
    l.kind == Provides && exists k :: 0 <= k < |l.fields| && FieldNames(l.fields[k], name)
  }

  predicate Offers(par: TextParagraph, name: string) {
    exists l :: 0 <= l < |par.lines| && LineOffers(par.lines[l], name)
  }

  /** Package i meets the dependency, by its name and version or because it provides the name. */
  ghost predicate Meets(ts: seq<TextParagraph>, i: nat, e: TextEdge, kind: Kind, num: string -> int)
    requires i < |ts|
  {
    && Live(ts, i, num) && InState(ts, ts[i].name, kind)
    && ((ts[i].name == e.name && TestVersion(ts[i].version, e.version, e.op, num)) || Offers(ts[i], e.name))
  }

  ghost predicate TextMet(ts: seq<TextParagraph>, e: TextEdge, kind: Kind, num: string -> int) {
    exists i :: 0 <= i < |ts| && Meets(ts, i, e, kind, num)
  }

  ghost predicate FieldMet(ts: seq<TextParagraph>, f: TextField, kind: Kind, num: string -> int) {
    exists a :: 0 <= a < |f.alts| && TextMet(ts, f.alts[a], kind, num)
  }

  ghost predicate LineMet(ts: seq<TextParagraph>, l: TextLine, num: string -> int) {
    IsDepend(l.kind) ==> forall k :: 0 <= k < |l.fields| ==> FieldMet(ts, l.fields[k], l.kind, num)
  }

  /** Every field of every dependency line of a package that is wanted has an alternative that is met. */
  ghost predicate Consistent(ts: seq<TextParagraph>, num: string -> int) {
    forall i :: 0 <= i < |ts| && Live(ts, i, num) && InState(ts, ts[i].name, Depends) ==>
      forall l :: 0 <= l < |ts[i].lines| ==> LineMet(ts, ts[i].lines[l], num)
  }

  /** The names and versions of the packages. */
  ghost function TextPairs(ts: seq<TextParagraph>): set<(string, string)> {
    set t | t in ts && t.version != "unknown" :: (t.name, t.version)
  }

  ghost function TextNames(ts: seq<TextParagraph>): set<string> {
    set t | t in ts && t.version != "unknown" :: t.name
  }

  /** Equal indices mean equal strings. */
  lemma SameIs(names: seq<Option<string>>, a: nat, x: string, b: nat, y: string)
    requires Distinct(names) && Is(names, a, x) && Is(names, b, y)
    ensures a == b <==> x == y
  {
  }

  lemma {:induction false} StateRead(pars: seq<Paragraph>, ts: seq<TextParagraph>, names: seq<Option<string>>, unknown: nat,
                                     id: nat, name: string)
    requires AllRead(pars, ts, names) && Distinct(names) && Is(names, unknown, "unknown") && Is(names, id, name)
    ensures LastStatus(pars, unknown, id) == StateOf(ts, name)
    decreases |ts|
  {
    hide LineReads, Distinct, Is;
    if ts != [] {
      var n := |ts| - 1;
      StateRead(pars[..n], ts[..n], names, unknown, id, name);
      assert Reads(pars[n], ts[n], names);
      SameIs(names, pars[n].name, ts[n].name, id, name);
      SameIs(names, pars[n].version, ts[n].version, unknown, "unknown");
    }
  }

  lemma TextPairsMore(ts: seq<TextParagraph>, t: TextParagraph)
    ensures TextPairs(ts + [t]) == TextPairs(ts) + (if t.version != "unknown" then {(t.name, t.version)} else {})
    ensures TextNames(ts + [t]) == TextNames(ts) + (if t.version != "unknown" then {t.name} else {})
  {
    var more := ts + [t];
    assert more[|ts|] == t;
    forall x | x in ts
      ensures x in more
    {
    }
  }

  lemma AddSize<K>(a: set<K>, x: K)
    ensures |a + {x}| == |a| + if x in a then 0 else 1
  {
    if x in a {
      assert a + {x} == a;
    }
  }

  lemma InPairs(pars: seq<Paragraph>, unknown: nat, name: nat, version: nat)
    ensures (name, version) in Pairs(pars, unknown) <==>
            exists i :: 0 <= i < |pars| && pars[i].version != unknown && pars[i].name == name && pars[i].version == version
    ensures name in PackageIndex.Names(pars, unknown) <==>
            exists i :: 0 <= i < |pars| && pars[i].version != unknown && pars[i].name == name
  {
    forall i | 0 <= i < |pars|
      ensures pars[i] in pars
    {
    }
  }

  lemma InTextPairs(ts: seq<TextParagraph>, name: string, version: string)
    ensures (name, version) in TextPairs(ts) <==>
            exists i :: 0 <= i < |ts| && ts[i].version != "unknown" && ts[i].name == name && ts[i].version == version
    ensures name in TextNames(ts) <==> exists i :: 0 <= i < |ts| && ts[i].version != "unknown" && ts[i].name == name
  {
    forall i | 0 <= i < |ts|
      ensures ts[i] in ts
    {
    }
  }

  lemma ReadFront(pars: seq<Paragraph>, ts: seq<TextParagraph>, names: seq<Option<string>>)
    requires AllRead(pars, ts, names)
    ensures |pars| == |ts|
    ensures ts != [] ==> var n := |ts| - 1; AllRead(pars[..n], ts[..n], names) && Reads(pars[n], ts[n], names)
  {
    hide Reads;
  }

  /** There are as many pairs of indices as of strings. */
  lemma {:induction false} PairsRead(pars: seq<Paragraph>, ts: seq<TextParagraph>, names: seq<Option<string>>, unknown: nat)
    requires AllRead(pars, ts, names) && Distinct(names) && Is(names, unknown, "unknown")
    ensures |Pairs(pars, unknown)| == |TextPairs(ts)| && |PackageIndex.Names(pars, unknown)| == |TextNames(ts)|
    decreases |ts|
  {
    hide AllRead, Reads, Distinct, Is, Pairs, TextPairs, PackageIndex.Names, TextNames;
    ReadFront(pars, ts, names);
    if ts == [] {
      NoPairs(unknown);
    } else {
      var n := |ts| - 1;
      var par, t := pars[n], ts[n];
      PairsRead(pars[..n], ts[..n], names, unknown);
      assert pars == pars[..n] + [par] && ts == ts[..n] + [t];
      PairsMore(pars[..n], unknown, par);
      TextPairsMore(ts[..n], t);
      PairRead(pars[..n], ts[..n], names, unknown, par, t);
      if par.version != unknown {
        AddSize(Pairs(pars[..n], unknown), (par.name, par.version));
        AddSize(TextPairs(ts[..n]), (t.name, t.version));
        AddSize(PackageIndex.Names(pars[..n], unknown), par.name);
        AddSize(TextNames(ts[..n]), t.name);
      } else {
        NothingAdded(Pairs(pars[..n], unknown), PackageIndex.Names(pars[..n], unknown));
        NothingAdded(TextPairs(ts[..n]), TextNames(ts[..n]));
      }
    }
  }

  lemma NothingAdded<J, K>(a: set<J>, b: set<K>)
    ensures a + {} == a && b + {} == b
  {
  }

  lemma NoPairs(unknown: nat)
    ensures Pairs([], unknown) == {} && PackageIndex.Names([], unknown) == {} && TextPairs([]) == {} && TextNames([]) == {}
  {
  }

  lemma PairRead(pars: seq<Paragraph>, ts: seq<TextParagraph>, names: seq<Option<string>>, unknown: nat,
                 par: Paragraph, t: TextParagraph)
    requires AllRead(pars, ts, names) && Distinct(names) && Is(names, unknown, "unknown") && Reads(par, t, names)
    ensures par.version == unknown <==> t.version == "unknown"
    ensures (par.name, par.version) in Pairs(pars, unknown) <==> (t.name, t.version) in TextPairs(ts)
    ensures par.name in PackageIndex.Names(pars, unknown) <==> t.name in TextNames(ts)
  {
    hide LineReads, Distinct, Is, Pairs, TextPairs, PackageIndex.Names, TextNames;
    SameIs(names, par.version, t.version, unknown, "unknown");
    forall i | 0 <= i < |ts|
      ensures pars[i].version == unknown <==> ts[i].version == "unknown"
      ensures pars[i].name == par.name <==> ts[i].name == t.name
      ensures pars[i].version == par.version <==> ts[i].version == t.version
    {
      assert Reads(pars[i], ts[i], names);
      SameIs(names, pars[i].version, ts[i].version, unknown, "unknown");
      SameIs(names, pars[i].name, ts[i].name, par.name, t.name);
      SameIs(names, pars[i].version, ts[i].version, par.version, t.version);
    }
    InPairs(pars, unknown, par.name, par.version);
    InTextPairs(ts, t.name, t.version);
  }

  /** Some edge says that the name is provided. */
  predicate Provided(es: seq<Edge>, needle: nat) {
    exists j :: 0 <= j < |es| && es[j].kind == Provides && es[j].name == needle
  }

  lemma ProvidedAppend(a: seq<Edge>, b: seq<Edge>, needle: nat)
    ensures Provided(a + b, needle) <==> Provided(a, needle) || Provided(b, needle)
  {
    var c := a + b;
    if Provided(c, needle) {
      var j :| 0 <= j < |c| && c[j].kind == Provides && c[j].name == needle;
      assert if j < |a| then c[j] == a[j] else c[j] == b[j - |a|];
    }
    if Provided(a, needle) {
      var j :| 0 <= j < |a| && a[j].kind == Provides && a[j].name == needle;
      assert c[j] == a[j];
    }
    if Provided(b, needle) {
      var j :| 0 <= j < |b| && b[j].kind == Provides && b[j].name == needle;
      assert c[|a| + j] == b[j];
    }
  }

  lemma FieldIsOk(f: Field, t: TextField, k: Kind, names: seq<Option<string>>)
    requires FieldReads(f, t, k, names) && k != OrPreDepends && k != OrDepends && t.alts != [] && (!t.barred ==> |t.alts| == 1)
    ensures FieldOk(f, k)
  {
  }

  lemma LineIsOk(l: Line, t: TextLine, names: seq<Option<string>>)
    requires LineReads(l, t, names) && TextLineOk(t)
    ensures LineOk(l)
  {
    hide FieldReads, FieldOk;
    forall i | 0 <= i < |l.fields|
      ensures FieldOk(l.fields[i], l.kind)
    {
      FieldIsOk(l.fields[i], t.fields[i], t.kind, names);
    }
  }

  lemma FieldProvides(f: Field, t: TextField, k: Kind, names: seq<Option<string>>, needle: nat, name: string)
    requires FieldReads(f, t, k, names) && Distinct(names) && Is(names, needle, name) && FieldOk(f, k)
    ensures DepsOk(DepsOf(f, k))
    ensures Provided(Flat(DepsOf(f, k)), needle) <==> k == Provides && FieldNames(t, name)
  {
    hide Distinct, Is, Flat, DepsOf, DepsOk;
    FieldEdges(f, k);
    ProvidedAppend(Counter(f, k, |f.alts|), f.alts, needle);
    forall a | 0 <= a < |t.alts|
      ensures f.alts[a].kind == k && (f.alts[a].name == needle <==> t.alts[a].name == name)
    {
      assert EdgeReads(f.alts[a], t.alts[a], k, names);
      SameIs(names, f.alts[a].name, t.alts[a].name, needle, name);
    }
  }

  /** Some field of the first n names it. */
  predicate SomeField(t: TextLine, n: nat, name: string)
    requires n <= |t.fields|
  {
    exists k :: 0 <= k < n && FieldNames(t.fields[k], name)
  }

  lemma {:induction false} LineProvides(l: Line, t: TextLine, n: nat, names: seq<Option<string>>, needle: nat, name: string)
    requires LineReads(l, t, names) && Distinct(names) && Is(names, needle, name) && LineOk(l) && n <= |t.fields|
    ensures DepsOk(AllDeps(l.fields[..n], l.kind))
    ensures Provided(Flat(AllDeps(l.fields[..n], l.kind)), needle) <==> l.kind == Provides && SomeField(t, n, name)
  {
    hide Distinct, Is, DepsOk, FieldReads, FieldOk, DepsOf, FieldNames;
    if n == 0 {
      NoDeps();
      assert l.fields[..0] == [];
    } else {
      hide Flat;
      LineProvides(l, t, n - 1, names, needle, name);
      FieldProvides(l.fields[n - 1], t.fields[n - 1], t.kind, names, needle, name);
      assert l.fields[..n][..n - 1] == l.fields[..n - 1];
      var a, b := AllDeps(l.fields[..n - 1], l.kind), DepsOf(l.fields[n - 1], l.kind);
      FlatAppend(a, b);
      ProvidedAppend(Flat(a), Flat(b), needle);
    }
  }

  predicate SomeLine(t: TextParagraph, n: nat, name: string)
    requires n <= |t.lines|
  {
    exists l :: 0 <= l < n && LineOffers(t.lines[l], name)
  }

  lemma {:induction false} LinesProvide(lines: seq<Line>, t: TextParagraph, n: nat, names: seq<Option<string>>, needle: nat, name: string)
    requires |lines| == |t.lines| && (forall i :: 0 <= i < |lines| ==> LineReads(lines[i], t.lines[i], names))
    requires Distinct(names) && Is(names, needle, name) && TextOk(t) && n <= |lines|
    ensures DepsOk(LineDeps(lines[..n])) && (Provided(Flat(LineDeps(lines[..n])), needle) <==> SomeLine(t, n, name))
  {
    hide Distinct, Is, DepsOk, LineReads, LineOk, TextLineOk, AllDeps, LineOffers;
    if n == 0 {
      NoDeps();
      assert lines[..0] == [];
    } else {
      hide Flat;
      var l := lines[n - 1];
      LinesProvide(lines, t, n - 1, names, needle, name);
      LineIsOk(l, t.lines[n - 1], names);
      OneLine(l, t.lines[n - 1], names, needle, name);
      assert lines[..n][..n - 1] == lines[..n - 1];
      var a, b := LineDeps(lines[..n - 1]), AllDeps(l.fields, l.kind);
      FlatAppend(a, b);
      ProvidedAppend(Flat(a), Flat(b), needle);
    }
  }

  lemma OneLine(l: Line, t: TextLine, names: seq<Option<string>>, needle: nat, name: string)
    requires LineReads(l, t, names) && Distinct(names) && Is(names, needle, name) && LineOk(l)
    ensures DepsOk(AllDeps(l.fields, l.kind)) && (Provided(Flat(AllDeps(l.fields, l.kind)), needle) <==> LineOffers(t, name))
  {
    hide Distinct, Is, DepsOk, LineOk, Flat, AllDeps, FieldNames, FieldReads;
    LineProvides(l, t, |l.fields|, names, needle, name);
    assert l.fields[..|l.fields|] == l.fields;
  }

  /** The strings with their indices. */
  ghost predicate Texts(db: Database, names: seq<Option<string>>) {
    forall id :: 0 <= id < |names| && names[id].Some? ==> db.text(id) == names[id].value
  }

  /** The tables hold the file. */
  ghost predicate Tabled(db: Database, pars: seq<Paragraph>, ts: seq<TextParagraph>, names: seq<Option<string>>, unknown: nat,
                         from: seq<nat>)
    reads db.packages, db.statuses.slots
  {
    && AllRead(pars, ts, names) && Distinct(names) && Is(names, unknown, "unknown") && Texts(db, names)
    && (forall i :: 0 <= i < |ts| ==> TextOk(ts[i]))
    && db.p < db.packages.Length && Indexed(db, db.packages[..], pars, unknown, from)
    && forall x :: db.StatusOf(x) == LastStatus(pars, unknown, x)
  }

  /** A package in the table is that of a paragraph. */
  lemma SlotRead(db: Database, pars: seq<Paragraph>, ts: seq<TextParagraph>, names: seq<Option<string>>, unknown: nat,
                 from: seq<nat>, s: nat)
    requires Tabled(db, pars, ts, names, unknown, from) && s < db.p && db.packages[s].Some?
    ensures |from| == db.p && |pars| == |ts| && from[s] < |ts| && ts[from[s]].version != "unknown"
    ensures var pkg, i := db.packages[s].value, from[s];
            && DepsOk(LineDeps(pars[i].lines)) && pkg == Package(pars[i].name, pars[i].version, Flat(LineDeps(pars[i].lines)))
            && Reads(pars[i], ts[i], names)
  {
    hide Reads, DepsOk, Flat, Apart, Kept, LastStatus, Database.StatusOf, Distinct, Texts, Is;
    assert Holds(db.packages[..], pars, unknown, from, s);
    var i := from[s];
    VersionRead(pars[i], ts[i], names, unknown);
  }

  lemma VersionRead(par: Paragraph, t: TextParagraph, names: seq<Option<string>>, unknown: nat)
    requires Reads(par, t, names) && Distinct(names) && Is(names, unknown, "unknown")
    ensures par.version == unknown <==> t.version == "unknown"
  {
    SameIs(names, par.version, t.version, unknown, "unknown");
  }

  /** Matching seen on the strings. */
  lemma MatchRead(db: Database, pkg: Package, par: Paragraph, t: TextParagraph, names: seq<Option<string>>,
                  nid: nat, name: string, vid: nat, version: string, op: Operator)
    requires Reads(par, t, names) && Distinct(names) && Texts(db, names) && Is(names, nid, name) && Is(names, vid, version)
    requires pkg.name == par.name && pkg.version == par.version
    ensures db.Matches(pkg, nid, vid, op) <==> t.name == name && TestVersion(t.version, version, op, db.num)
  {
    hide LineReads, TestVersion;
    SameIs(names, par.name, t.name, nid, name);
  }

  /** It is the last one for its name and version. */
  lemma SlotIsLive(db: Database, pars: seq<Paragraph>, ts: seq<TextParagraph>, names: seq<Option<string>>, unknown: nat,
                   from: seq<nat>, s: nat)
    requires Tabled(db, pars, ts, names, unknown, from) && s < db.p && db.packages[s].Some?
    ensures |from| == db.p && from[s] < |ts| && Live(ts, from[s], db.num)
  {
    hide Reads, DepsOk, Flat, Apart, LastStatus, Database.StatusOf, Distinct, Texts, Is, Database.Matches, Holds, Kept, LineDeps;
    SlotRead(db, pars, ts, names, unknown, from, s);
    var i, pkg := from[s], db.packages[s].value;
    forall j | i < j < |ts| && ts[j].version != "unknown" && ts[j].name == ts[i].name
      ensures !TestVersion(ts[j].version, ts[i].version, VerEqual, db.num)
    {
      if TestVersion(ts[j].version, ts[i].version, VerEqual, db.num) {
        var b := Package(pars[j].name, pars[j].version, []);
        ReadParts(pars[i], ts[i], names);
        VersionRead(pars[j], ts[j], names, unknown);
        MatchRead(db, b, pars[j], ts[j], names, pkg.name, ts[i].name, pkg.version, ts[i].version, VerEqual);
        LaterSlot(db, db.packages[..], pars, unknown, from, s, b, j);
      }
    }
  }

  lemma ReadParts(par: Paragraph, t: TextParagraph, names: seq<Option<string>>)
    requires Reads(par, t, names)
    ensures Is(names, par.name, t.name) && Is(names, par.version, t.version)
  {
  }

  /** A later paragraph with an equal version would have the slot. */
  lemma LaterSlot(db: Database, slots: seq<Option<Package>>, pars: seq<Paragraph>, unknown: nat, from: seq<nat>, s: nat,
                  b: Package, j: nat)
    requires Indexed(db, slots, pars, unknown, from) && s < db.p && slots[s].Some? && j < |pars|
    requires pars[j].version != unknown && b.name == pars[j].name && b.version == pars[j].version
    requires db.Matches(b, slots[s].value.name, slots[s].value.version, VerEqual)
    ensures j <= from[s]
  {
    hide Database.Matches, Holds;
    assert Kept(db, slots, pars, from, j);
    var t :| 0 <= t < db.p && slots[t].Some? && j <= from[t]
             && db.Matches(slots[t].value, pars[j].name, pars[j].version, VerEqual);
    MatchesBack(db, slots[t].value, b);
    MatchesCarry(db, b, slots[t].value, slots[s].value.name, slots[s].value.version);
  }

  lemma LiveHasSlot(db: Database, pars: seq<Paragraph>, ts: seq<TextParagraph>, names: seq<Option<string>>, unknown: nat,
                    from: seq<nat>, i: nat) returns (s: nat)
    requires Tabled(db, pars, ts, names, unknown, from) && i < |ts| && Live(ts, i, db.num)
    ensures |from| == db.p && s < db.p && db.packages[s].Some? && from[s] == i
  {
    hide Reads, DepsOk, Flat, Apart, LastStatus, Database.StatusOf, Distinct, Texts, Is, Database.Matches, Holds, LineDeps;
    var slots := db.packages[..];
    VersionRead(pars[i], ts[i], names, unknown);
    assert Kept(db, slots, pars, from, i);
    s :| 0 <= s < db.p && slots[s].Some? && i <= from[s] && db.Matches(slots[s].value, pars[i].name, pars[i].version, VerEqual);
    SlotRead(db, pars, ts, names, unknown, from, s);
    var j := from[s];
    ReadParts(pars[i], ts[i], names);
    MatchRead(db, db.packages[s].value, pars[j], ts[j], names, pars[i].name, ts[i].name, pars[i].version, ts[i].version, VerEqual);
  }

  /** A slot meets an edge exactly if its paragraph does. */
  lemma SlotMeets(db: Database, pars: seq<Paragraph>, ts: seq<TextParagraph>, names: seq<Option<string>>, unknown: nat,
                  from: seq<nat>, s: nat, e: Edge, t: TextEdge)
    requires Tabled(db, pars, ts, names, unknown, from) && s < db.p && db.packages[s].Some? && EdgeReads(e, t, e.kind, names)
    ensures |from| == db.p && from[s] < |ts|
    ensures db.MetBy(s, e) || db.MetByProvider(s, e) <==> Meets(ts, from[s], t, e.kind, db.num)
  {
    hide Indexed, Distinct, Texts, Is, Database.Matches, LineReads, LastStatus, StateOf, Live, TestVersion, DepsOk, Flat, LineDeps,
         Database.StatusOf, Offers, Provided;
    SlotRead(db, pars, ts, names, unknown, from, s);
    SlotIsLive(db, pars, ts, names, unknown, from, s);
    var i, pkg := from[s], db.packages[s].value;
    MatchRead(db, pkg, pars[i], ts[i], names, e.name, t.name, e.version, t.version, e.op);
    StateRead(pars, ts, names, unknown, pkg.name, ts[i].name);
    OffersRead(db, pkg, pars[i], ts[i], names, e.name, t.name);
  }

  lemma OffersRead(db: Database, pkg: Package, par: Paragraph, t: TextParagraph, names: seq<Option<string>>, needle: nat, name: string)
    requires Reads(par, t, names) && TextOk(t) && Distinct(names) && Is(names, needle, name)
    requires DepsOk(LineDeps(par.lines)) && pkg.edges == Flat(LineDeps(par.lines))
    ensures db.Providing(pkg, needle) <==> Offers(t, name)
  {
    hide Distinct, Is, LineReads, DepsOk, Flat, LineDeps, TextOk;
    LinesProvide(par.lines, t, |par.lines|, names, needle, name);
    assert par.lines[..|par.lines|] == par.lines;
    assert db.Providing(pkg, needle) <==> Provided(pkg.edges, needle);
    assert Offers(t, name) <==> SomeLine(t, |t.lines|, name);
  }

  lemma EdgeMet(db: Database, pars: seq<Paragraph>, ts: seq<TextParagraph>, names: seq<Option<string>>, unknown: nat,
                from: seq<nat>, e: Edge, t: TextEdge)
    requires Tabled(db, pars, ts, names, unknown, from) && EdgeReads(e, t, e.kind, names)
    ensures db.p < db.packages.Length && (db.Met(e) <==> TextMet(ts, t, e.kind, db.num))
  {
    hide Tabled, EdgeReads, Database.MetBy, Database.MetByProvider, Meets;
    TabledSize(db, pars, ts, names, unknown, from);
    if db.Met(e) {
      var s :| 0 <= s < db.p && (db.MetBy(s, e) || db.MetByProvider(s, e));
      MetHasPackage(db, s, e);
      SlotMeets(db, pars, ts, names, unknown, from, s, e, t);
    }
    if TextMet(ts, t, e.kind, db.num) {
      var i :| 0 <= i < |ts| && Meets(ts, i, t, e.kind, db.num);
      MeetsLive(ts, i, t, e.kind, db.num);
      var s := LiveHasSlot(db, pars, ts, names, unknown, from, i);
      SlotMeets(db, pars, ts, names, unknown, from, s, e, t);
    }
  }

  lemma TabledSize(db: Database, pars: seq<Paragraph>, ts: seq<TextParagraph>, names: seq<Option<string>>, unknown: nat, from: seq<nat>)
    requires Tabled(db, pars, ts, names, unknown, from)
    ensures db.p < db.packages.Length && |pars| == |ts|
  {
  }

  lemma MetHasPackage(db: Database, s: nat, e: Edge)
    requires s < db.packages.Length && (db.MetBy(s, e) || db.MetByProvider(s, e))
    ensures db.packages[s].Some?
  {
  }

  lemma MeetsLive(ts: seq<TextParagraph>, i: nat, e: TextEdge, kind: Kind, num: string -> int)
    requires i < |ts| && Meets(ts, i, e, kind, num)
    ensures Live(ts, i, num)
  {
  }

  lemma MetAppend(db: Database, a: seq<Dep>, b: seq<Dep>)
    requires db.p < db.packages.Length
    ensures db.AllMet(a + b) <==> db.AllMet(a) && db.AllMet(b)
  {
    hide Database.DepMet;
    var c := a + b;
    if db.AllMet(c) {
      assert forall i :: 0 <= i < |a| ==> c[i] == a[i];
      assert forall i :: 0 <= i < |b| ==> c[|a| + i] == b[i];
    }
  }

  /** The entries of a field are met exactly if one of its alternatives is, or it is no dependency. */
  lemma FieldMetRead(db: Database, pars: seq<Paragraph>, ts: seq<TextParagraph>, names: seq<Option<string>>, unknown: nat,
                     from: seq<nat>, f: Field, t: TextField, k: Kind)
    requires Tabled(db, pars, ts, names, unknown, from) && FieldReads(f, t, k, names) && FieldOk(f, k)
    ensures db.p < db.packages.Length
    ensures db.AllMet(DepsOf(f, k)) <==> (IsDepend(k) ==> FieldMet(ts, t, k, db.num))
  {
    hide Tabled, EdgeReads, Database.Met, TextMet;
    TabledSize(db, pars, ts, names, unknown, from);
    forall a | 0 <= a < |t.alts|
      ensures db.Met(f.alts[a]) <==> TextMet(ts, t.alts[a], k, db.num)
    {
      assert EdgeReads(f.alts[a], t.alts[a], k, names);
      EdgeMet(db, pars, ts, names, unknown, from, f.alts[a], t.alts[a]);
    }
    var ds := DepsOf(f, k);
    if IsDepend(k) && f.barred {
      assert ds == [AnyOf(k, f.name, f.alts)];
      assert db.AllMet(ds) <==> db.DepMet(ds[0]);
    } else {
      assert db.AllMet(ds) <==> forall a :: 0 <= a < |f.alts| ==> (IsDepend(k) ==> db.Met(f.alts[a])) by {
        assert forall a :: 0 <= a < |f.alts| ==> (db.DepMet(ds[a]) <==> (IsDepend(k) ==> db.Met(f.alts[a])));
      }
      assert IsDepend(k) ==> |f.alts| == 1 && (FieldMet(ts, t, k, db.num) <==> TextMet(ts, t.alts[0], k, db.num));
    }
  }

  lemma {:induction false} LineMetRead(db: Database, pars: seq<Paragraph>, ts: seq<TextParagraph>, names: seq<Option<string>>,
                                       unknown: nat, from: seq<nat>, l: Line, t: TextLine, n: nat)
    requires Tabled(db, pars, ts, names, unknown, from) && LineReads(l, t, names) && LineOk(l) && n <= |t.fields|
    ensures db.p < db.packages.Length
    ensures db.AllMet(AllDeps(l.fields[..n], l.kind)) <==>
            (IsDepend(t.kind) ==> forall k :: 0 <= k < n ==> FieldMet(ts, t.fields[k], t.kind, db.num))
    decreases n
  {
    hide Tabled, FieldReads, FieldOk, FieldMet, DepsOf, Database.DepMet;
    TabledSize(db, pars, ts, names, unknown, from);
    if n == 0 {
      assert l.fields[..0] == [];
    } else {
      hide Database.AllMet;
      LineMetRead(db, pars, ts, names, unknown, from, l, t, n - 1);
      FieldMetRead(db, pars, ts, names, unknown, from, l.fields[n - 1], t.fields[n - 1], t.kind);
      assert l.fields[..n][..n - 1] == l.fields[..n - 1];
      MetAppend(db, AllDeps(l.fields[..n - 1], l.kind), DepsOf(l.fields[n - 1], l.kind));
    }
  }

  lemma WholeLineMet(db: Database, pars: seq<Paragraph>, ts: seq<TextParagraph>, names: seq<Option<string>>,
                     unknown: nat, from: seq<nat>, l: Line, t: TextLine)
    requires Tabled(db, pars, ts, names, unknown, from) && LineReads(l, t, names) && TextLineOk(t)
    ensures db.p < db.packages.Length && (db.AllMet(AllDeps(l.fields, l.kind)) <==> LineMet(ts, t, db.num))
  {
    hide Tabled, FieldReads, LineOk, TextLineOk, AllDeps, Database.AllMet, FieldMet;
    LineIsOk(l, t, names);
    LineMetRead(db, pars, ts, names, unknown, from, l, t, |l.fields|);
    assert l.fields[..|l.fields|] == l.fields;
  }

  lemma {:induction false} LinesMetRead(db: Database, pars: seq<Paragraph>, ts: seq<TextParagraph>, names: seq<Option<string>>,
                                        unknown: nat, from: seq<nat>, par: Paragraph, t: TextParagraph, n: nat)
    requires Tabled(db, pars, ts, names, unknown, from) && Reads(par, t, names) && TextOk(t) && n <= |t.lines|
    ensures db.p < db.packages.Length
    ensures db.AllMet(LineDeps(par.lines[..n])) <==> forall l :: 0 <= l < n ==> LineMet(ts, t.lines[l], db.num)
    decreases n
  {
    hide Tabled, LineReads, TextLineOk, LineMet, AllDeps, Database.DepMet, Is;
    TabledSize(db, pars, ts, names, unknown, from);
    if n == 0 {
      assert par.lines[..0] == [];
    } else {
      hide Database.AllMet;
      var l := par.lines[n - 1];
      LinesMetRead(db, pars, ts, names, unknown, from, par, t, n - 1);
      WholeLineMet(db, pars, ts, names, unknown, from, l, t.lines[n - 1]);
      assert par.lines[..n][..n - 1] == par.lines[..n - 1];
      MetAppend(db, LineDeps(par.lines[..n - 1]), AllDeps(l.fields, l.kind));
    }
  }

  /** What a package in the table needs, seen on the file. */
  lemma SlotNeeds(db: Database, pars: seq<Paragraph>, ts: seq<TextParagraph>, names: seq<Option<string>>,
                  unknown: nat, from: seq<nat>, s: nat)
    requires Tabled(db, pars, ts, names, unknown, from) && s < db.p && db.packages[s].Some?
    ensures |from| == db.p && |pars| == |ts| && from[s] < |ts|
    ensures db.Wanted(s) <==> InState(ts, ts[from[s]].name, Depends)
    ensures db.AllMet(LineDeps(pars[from[s]].lines)) <==>
            forall l :: 0 <= l < |ts[from[s]].lines| ==> LineMet(ts, ts[from[s]].lines[l], db.num)
  {
    hide Distinct, Texts, Is, LineReads, LastStatus, StateOf, LineMet, LineDeps, Database.AllMet, Indexed, DepsOk, Flat, TextLineOk,
         Database.StatusOf;
    SlotRead(db, pars, ts, names, unknown, from, s);
    var i := from[s];
    StateRead(pars, ts, names, unknown, pars[i].name, ts[i].name);
    LinesMetRead(db, pars, ts, names, unknown, from, pars[i], ts[i], |ts[i].lines|);
    assert pars[i].lines[..|pars[i].lines|] == pars[i].lines;
  }

  /** The answer of the check, seen on the file. */
  lemma AnswerRead(db: Database, pars: seq<Paragraph>, ts: seq<TextParagraph>, names: seq<Option<string>>,
                   unknown: nat, from: seq<nat>)
    requires Tabled(db, pars, ts, names, unknown, from)
    ensures |from| == db.p < db.packages.Length && forall s :: 0 <= s < db.p && db.packages[s].Some? ==> from[s] < |pars|
    ensures (forall s :: 0 <= s < db.p && db.Wanted(s) ==> db.AllMet(LineDeps(pars[from[s]].lines))) <==> Consistent(ts, db.num)
  {
    hide Tabled, LineMet, Live, InState, LineDeps, Database.AllMet, Database.StatusOf;
    TabledFrom(db, pars, ts, names, unknown, from);
    forall s | 0 <= s < db.p && db.packages[s].Some?
      ensures from[s] < |pars| == |ts| && Live(ts, from[s], db.num)
      ensures db.Wanted(s) <==> InState(ts, ts[from[s]].name, Depends)
      ensures db.AllMet(LineDeps(pars[from[s]].lines)) <==>
              forall l :: 0 <= l < |ts[from[s]].lines| ==> LineMet(ts, ts[from[s]].lines[l], db.num)
    {
      SlotIsLive(db, pars, ts, names, unknown, from, s);
      SlotNeeds(db, pars, ts, names, unknown, from, s);
    }
    if forall s :: 0 <= s < db.p && db.Wanted(s) ==> db.AllMet(LineDeps(pars[from[s]].lines)) {
      forall i | 0 <= i < |ts| && Live(ts, i, db.num) && InState(ts, ts[i].name, Depends)
        ensures forall l :: 0 <= l < |ts[i].lines| ==> LineMet(ts, ts[i].lines[l], db.num)
      {
        var s := LiveHasSlot(db, pars, ts, names, unknown, from, i);
        assert db.Wanted(s);
      }
    }
  }

  lemma TabledFrom(db: Database, pars: seq<Paragraph>, ts: seq<TextParagraph>, names: seq<Option<string>>, unknown: nat, from: seq<nat>)
    requires Tabled(db, pars, ts, names, unknown, from)
    ensures |from| == db.p < db.packages.Length && |pars| == |ts|
  {
    hide Apart, Kept, Holds;
  }

  lemma AllParagraphsOk(pars: seq<Paragraph>, ts: seq<TextParagraph>, names: seq<Option<string>>)
    requires AllRead(pars, ts, names) && forall i :: 0 <= i < |ts| ==> TextOk(ts[i])
    ensures forall i :: 0 <= i < |pars| ==> ParagraphOk(pars[i])
  {
    hide LineReads, TextLineOk, LineOk;
    forall i | 0 <= i < |pars|
      ensures ParagraphOk(pars[i])
    {
      assert Reads(pars[i], ts[i], names);
      forall l | 0 <= l < |pars[i].lines|
        ensures LineOk(pars[i].lines[l])
      {
        LineIsOk(pars[i].lines[l], ts[i].lines[l], names);
      }
    }
  }

  /** The string with an index. */
  function TextAt(names: seq<Option<string>>, id: nat): string {
    if id < |names| && names[id].Some? then names[id].value else ""
  }

  /**
   From the text of a status file to the answer: the strings are interned, the paragraphs indexed and the
   dependencies checked.  The answer is yes exactly if every package that is wanted has what it needs.
   */
  method CheckFile(table: NameTable, ts: seq<TextParagraph>, packagePrime: nat, statusPrime: nat, num: string -> int,
                   ghost all: set<string>)
    returns (ok: bool)
    requires Roomy(table, all) && "unknown" in all && (forall i :: 0 <= i < |ts| ==> ParagraphIn(ts[i], all) && TextOk(ts[i]))
    requires IsPrime(packagePrime) && IsPrime(statusPrime)
    requires |TextPairs(ts)| < packagePrime && |TextNames(ts)| < statusPrime
    modifies table.slots
    ensures Roomy(table, all) && (ok <==> Consistent(ts, num))
  {
    hide Roomy, TextPairs, TextNames, Consistent, Reads, Distinct, Is, ParagraphIn, TextOk, Indexed, Pairs, PackageIndex.Names, ParagraphOk,
         LineDeps, Database.AllMet, Database.StatusOf, LastStatus, Database.Valid, StatusTable.Valid, IsPrime, NameTable.Valid, AllRead;
    RoomyShape(table, all);
    var pars, unknown := InternAll(table, ts, all);
    var names := table.slots[..table.p];
    DistinctNames(table, all);
    AllParagraphsOk(pars, ts, names);
    PairsRead(pars, ts, names, unknown);
    var hash := table.hash;
    var db := new Database(packagePrime, statusPrime, (id: nat) => hash(TextAt(names, id)), (id: nat) => TextAt(names, id), num);
    ghost var from;
    ok, from := IndexAndCheck(db, pars, unknown);
    db.ValidSize();
    AnswerRead(db, pars, ts, names, unknown, from);
  }

  lemma DistinctNames(table: NameTable, all: set<string>)
    requires Roomy(table, all)
    ensures table.slots.Length == table.p + 1 && Distinct(Strings(table))
  {
    TableDistinct(table);
  }
}
