/**
 The paragraphs of a status file as text, and with the indices of their strings (archival/dpkg.c,
 search_name_hashtable as fill_package_struct and add_split_dependencies use it).
 */
module StatusText {
  import opened Options
  import opened Interning
  import opened Versions
  import opened Statuses
  import opened Dependencies
  import opened PackageIndex

  datatype TextEdge = TextEdge(name: string, version: string, op: Operator)

  datatype TextField = TextField(whole: string, barred: bool, alts: seq<TextEdge>)

  datatype TextLine = TextLine(kind: Kind, fields: seq<TextField>)

  datatype TextParagraph = TextParagraph(name: string, version: string, lines: seq<TextLine>, status: Status)

  /** A field has alternatives, more than one only with a bar; a line has one of the kinds of the file. */
  predicate TextLineOk(l: TextLine) {
    && l.kind != OrPreDepends && l.kind != OrDepends
    && forall i :: 0 <= i < |l.fields| ==> l.fields[i].alts != [] && (!l.fields[i].barred ==> |l.fields[i].alts| == 1)
  }

  predicate TextOk(par: TextParagraph) {
    forall i :: 0 <= i < |par.lines| ==> TextLineOk(par.lines[i])
  }

  /** The strings are all among these. */
  ghost predicate FieldIn(f: TextField, all: set<string>) {
    f.whole in all && forall i :: 0 <= i < |f.alts| ==> f.alts[i].name in all && f.alts[i].version in all
  }

  ghost predicate LineIn(l: TextLine, all: set<string>) {
    forall i :: 0 <= i < |l.fields| ==> FieldIn(l.fields[i], all)
  }

  ghost predicate ParagraphIn(par: TextParagraph, all: set<string>) {
    par.name in all && par.version in all && forall i :: 0 <= i < |par.lines| ==> LineIn(par.lines[i], all)
  }

  /** The index stands for the string. */
  predicate Is(names: seq<Option<string>>, id: nat, key: string) {
    id < |names| && names[id] == Some(key)
  }

  ghost predicate EdgeReads(e: Edge, t: TextEdge, k: Kind, names: seq<Option<string>>) {
    e.kind == k && e.op == t.op && Is(names, e.name, t.name) && Is(names, e.version, t.version)
  }

  ghost predicate FieldReads(f: Field, t: TextField, k: Kind, names: seq<Option<string>>) {
    && f.barred == t.barred && |f.alts| == |t.alts| && Is(names, f.name, t.whole)
    && forall i :: 0 <= i < |t.alts| ==> EdgeReads(f.alts[i], t.alts[i], k, names)
  }

  ghost predicate LineReads(l: Line, t: TextLine, names: seq<Option<string>>) {
    l.kind == t.kind && |l.fields| == |t.fields| && forall i :: 0 <= i < |t.fields| ==> FieldReads(l.fields[i], t.fields[i], t.kind, names)
  }

  ghost predicate Reads(par: Paragraph, t: TextParagraph, names: seq<Option<string>>) {
    && Is(names, par.name, t.name) && Is(names, par.version, t.version) && par.status == t.status
    && |par.lines| == |t.lines| && forall i :: 0 <= i < |t.lines| ==> LineReads(par.lines[i], t.lines[i], names)
  }

  ghost predicate AllRead(pars: seq<Paragraph>, ts: seq<TextParagraph>, names: seq<Option<string>>) {
    |pars| == |ts| && forall i :: 0 <= i < |ts| ==> Reads(pars[i], ts[i], names)
  }

  /** Indices stay good. */
  ghost predicate Grown(was: seq<Option<string>>, names: seq<Option<string>>) {
    |was| == |names| && forall s :: 0 <= s < |was| && was[s].Some? ==> names[s] == was[s]
  }

  lemma FieldStays(f: Field, t: TextField, k: Kind, was: seq<Option<string>>, names: seq<Option<string>>)
    requires FieldReads(f, t, k, was) && Grown(was, names)
    ensures FieldReads(f, t, k, names)
  {
  }

  lemma LineStays(l: Line, t: TextLine, was: seq<Option<string>>, names: seq<Option<string>>)
    requires LineReads(l, t, was) && Grown(was, names)
    ensures LineReads(l, t, names)
  {
    hide FieldReads, Grown;
    forall i | 0 <= i < |t.fields|
      ensures FieldReads(l.fields[i], t.fields[i], t.kind, names)
    {
      FieldStays(l.fields[i], t.fields[i], t.kind, was, names);
    }
  }

  lemma ReadsStays(par: Paragraph, t: TextParagraph, was: seq<Option<string>>, names: seq<Option<string>>)
    requires Reads(par, t, was) && Grown(was, names)
    ensures Reads(par, t, names)
  {
    hide LineReads;
    forall i | 0 <= i < |t.lines|
      ensures LineReads(par.lines[i], t.lines[i], names)
    {
      LineStays(par.lines[i], t.lines[i], was, names);
    }
  }

  /** The strings stored so far. */
  function Strings(table: NameTable): seq<Option<string>>
    requires table.slots.Length == table.p + 1
    reads table.slots
  {
    table.slots[..table.p]
  }

  /** The table holds strings of the file only, and has a slot for each of them. */
  ghost predicate Roomy(table: NameTable, all: set<string>)
    reads table.slots
  {
    table.Valid() && |all| <= table.p && forall s :: 0 <= s < table.p && table.slots[s].Some? ==> table.slots[s].value in all
  }

  ghost predicate Distinct(names: seq<Option<string>>) {
    forall s, t :: 0 <= s < t < |names| && names[s].Some? && names[t].Some? ==> names[s] != names[t]
  }

  lemma TableDistinct(table: NameTable)
    requires table.Valid()
    ensures Distinct(Strings(table))
  {
    hide TableOk;
    forall s, t | 0 <= s < t < table.p && table.slots[s].Some? && table.slots[t].Some?
      ensures table.slots[s] != table.slots[t]
    {
      OneIndex(table.slots[..], table.hash, table.p, s, t);
    }
  }

  /** As many different strings as slots, none of them the key. */
  lemma {:induction false} Pigeons(names: seq<Option<string>>, all: set<string>)
    requires Distinct(names) && forall s :: 0 <= s < |names| ==> names[s].Some? && names[s].value in all
    ensures |names| <= |all|
    decreases |names|
  {
    if names != [] {
      var n := |names| - 1;
      var key := names[n].value;
      Pigeons(names[..n], all - {key});
    }
  }

  lemma RoomFor(table: NameTable, all: set<string>, key: string)
    requires Roomy(table, all) && key in all
    ensures Stops(table.slots[..], key, table.p)
  {
    hide TableOk;
    if !Stops(table.slots[..], key, table.p) {
      TableDistinct(table);
      Pigeons(Strings(table), all - {key});
    }
  }

  method Intern(table: NameTable, key: string, ghost all: set<string>) returns (id: nat)
    requires Roomy(table, all) && key in all
    modifies table.slots
    ensures Roomy(table, all) && Grown(old(Strings(table)), Strings(table)) && Is(Strings(table), id, key)
  {
    hide TableOk, Stops;
    RoomFor(table, all, key);
    id := table.Search(key);
  }

  method InternEdge(table: NameTable, t: TextEdge, k: Kind, ghost all: set<string>) returns (e: Edge)
    requires Roomy(table, all) && t.name in all && t.version in all
    modifies table.slots
    ensures Roomy(table, all) && Grown(old(Strings(table)), Strings(table)) && EdgeReads(e, t, k, Strings(table))
  {
    hide Roomy, NameTable.Valid;
    RoomyShape(table, all);
    var version := Intern(table, t.version, all);
    RoomyShape(table, all);
    var name := Intern(table, t.name, all);
    e := Edge(k, name, version, t.op);
  }

  lemma RoomyShape(table: NameTable, all: set<string>)
    requires Roomy(table, all)
    ensures table.slots.Length == table.p + 1
  {
  }

  method InternField(table: NameTable, t: TextField, k: Kind, ghost all: set<string>) returns (f: Field)
    requires Roomy(table, all) && FieldIn(t, all)
    modifies table.slots
    ensures Roomy(table, all) && Grown(old(Strings(table)), Strings(table)) && FieldReads(f, t, k, Strings(table))
  {
    hide Roomy, NameTable.Valid;
    RoomyShape(table, all);
    var whole := Intern(table, t.whole, all);
    var alts := [];
    for i := 0 to |t.alts|
      invariant Roomy(table, all) && table.slots.Length == table.p + 1 && |alts| == i
      invariant Grown(old(Strings(table)), Strings(table)) && Is(Strings(table), whole, t.whole)
      invariant forall j :: 0 <= j < i ==> EdgeReads(alts[j], t.alts[j], k, Strings(table))
    {
      var e := InternEdge(table, t.alts[i], k, all);
      alts := alts + [e];
    }
    f := Field(whole, t.barred, alts);
  }

  method InternLine(table: NameTable, t: TextLine, ghost all: set<string>) returns (l: Line)
    requires Roomy(table, all) && LineIn(t, all)
    modifies table.slots
    ensures Roomy(table, all) && Grown(old(Strings(table)), Strings(table)) && LineReads(l, t, Strings(table))
  {
    hide Roomy, NameTable.Valid, FieldReads, FieldIn;
    RoomyShape(table, all);
    var fields := [];
    for i := 0 to |t.fields|
      invariant Roomy(table, all) && table.slots.Length == table.p + 1 && |fields| == i
      invariant Grown(old(Strings(table)), Strings(table))
      invariant forall j :: 0 <= j < i ==> FieldReads(fields[j], t.fields[j], t.kind, Strings(table))
    {
      ghost var was := Strings(table);
      var f := InternField(table, t.fields[i], t.kind, all);
      forall j | 0 <= j < i
        ensures FieldReads(fields[j], t.fields[j], t.kind, Strings(table))
      {
        FieldStays(fields[j], t.fields[j], t.kind, was, Strings(table));
      }
      fields := fields + [f];
    }
    l := Line(t.kind, fields);
  }

  method InternParagraph(table: NameTable, t: TextParagraph, ghost all: set<string>) returns (par: Paragraph)
    requires Roomy(table, all) && ParagraphIn(t, all)
    modifies table.slots
    ensures Roomy(table, all) && Grown(old(Strings(table)), Strings(table)) && Reads(par, t, Strings(table))
  {
    hide Roomy, NameTable.Valid, LineReads, LineIn;
    RoomyShape(table, all);
    var name := Intern(table, t.name, all);
    RoomyShape(table, all);
    var version := Intern(table, t.version, all);
    var lines := [];
    for i := 0 to |t.lines|
      invariant Roomy(table, all) && table.slots.Length == table.p + 1 && |lines| == i
      invariant Grown(old(Strings(table)), Strings(table)) && Is(Strings(table), name, t.name) && Is(Strings(table), version, t.version)
      invariant forall j :: 0 <= j < i ==> LineReads(lines[j], t.lines[j], Strings(table))
    {
      ghost var was := Strings(table);
      var l := InternLine(table, t.lines[i], all);
      forall j | 0 <= j < i
        ensures LineReads(lines[j], t.lines[j], Strings(table))
      {
        LineStays(lines[j], t.lines[j], was, Strings(table));
      }
      lines := lines + [l];
    }
    par := Paragraph(name, version, lines, t.status);
  }

  /** Every string of the file gets its index. */
  method InternAll(table: NameTable, ts: seq<TextParagraph>, ghost all: set<string>) returns (pars: seq<Paragraph>, unknown: nat)
    requires Roomy(table, all) && "unknown" in all && forall i :: 0 <= i < |ts| ==> ParagraphIn(ts[i], all)
    modifies table.slots
    ensures Roomy(table, all) && Grown(old(Strings(table)), Strings(table)) && AllRead(pars, ts, Strings(table))
    ensures Is(Strings(table), unknown, "unknown")
  {
    hide Roomy, NameTable.Valid, Reads, ParagraphIn;
    RoomyShape(table, all);
    unknown := Intern(table, "unknown", all);
    pars := [];
    for i := 0 to |ts|
      invariant Roomy(table, all) && table.slots.Length == table.p + 1 && |pars| == i
      invariant Grown(old(Strings(table)), Strings(table)) && Is(Strings(table), unknown, "unknown")
      invariant forall j :: 0 <= j < i ==> Reads(pars[j], ts[j], Strings(table))
    {
      ghost var was := Strings(table);
      var par := InternParagraph(table, ts[i], all);
      forall j | 0 <= j < i
        ensures Reads(pars[j], ts[j], Strings(table))
      {
        ReadsStays(pars[j], ts[j], was, Strings(table));
      }
      pars := pars + [par];
    }
  }
}
