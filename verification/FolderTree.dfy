/**
 A folder of the repository as an XML tree and back (`PsmSysFolderToXMLHandle`,
 `PsmSysFolderFromXMLHandle` and `loadFolderFromXML` of
 source/PsmFileLoader/psm_flo_parse.c), on values.
 */
module FolderTree {
  import opened CStrings
  import opened Numbers
  import opened RecordXml

  // ---------- folders ----------

  datatype Folder = Folder(ftype: nat, ctype: nat, permission: u32, records: seq<Record>, subs: seq<Sub>)

  datatype Sub = Sub(name: string, folder: Folder)

  const FOLDER_TYPES: seq<string> := ["storage", "guarded", "dynamic", "session"]
  const FOLDER_CONTENTS: seq<string> := ["category", "table2D", "table3D", "chartPie", "chartBar", "graph"]

  const STORAGE: nat := 1

  /** The loader's buffer for the name of a folder, without its NUL. */
  const FOLDER_NAME_SIZE: nat := 128

  /** A folder just added. */
  const EMPTY := Folder(STORAGE, 0, ALL_ACCESS, [], [])

  /** The first of some named things with that name, or their number. */
  function FirstNamed<T>(xs: seq<T>, nameOf: T -> string, name: string): (k: nat)
    ensures k <= |xs|
    ensures k < |xs| ==> nameOf(xs[k]) == name
    ensures forall i :: 0 <= i < k ==> nameOf(xs[i]) != name
  {
    if xs == [] || nameOf(xs[0]) == name then 0 else 1 + FirstNamed(xs[1..], nameOf, name)
  }

  function RecordAt(rs: seq<Record>, name: string): (k: nat)
    ensures k <= |rs|
    ensures k < |rs| ==> rs[k].name == name
    ensures forall i :: 0 <= i < k ==> rs[i].name != name
  {
    FirstNamed(rs, (r: Record) => r.name, name)
  }

  function SubAt(ss: seq<Sub>, name: string): (k: nat)
    ensures k <= |ss|
    ensures k < |ss| ==> ss[k].name == name
    ensures forall i :: 0 <= i < k ==> ss[i].name != name
  {
    FirstNamed(ss, (s: Sub) => s.name, name)
  }

  /** `AddRecord2`: the record of that name is replaced, a new one comes last. */
  function PutRecord(f: Folder, r: Record): Folder {
    var k := RecordAt(f.records, r.name);
    f.(records := if k < |f.records| then f.records[k := r] else f.records + [r])
  }

  /** The subfolder of that name, if there is one. */
  function GetSub(f: Folder, name: string): Option<Folder> {
    var k := SubAt(f.subs, name);
    if k < |f.subs| then Some(f.subs[k].folder) else None
  }

  /** `AddFolder`: the subfolder of that name, or a new one. */
  function AddedSub(f: Folder, name: string): Folder {
    match GetSub(f, name) case Some(g) => g case None => EMPTY
  }

  function PutSub(f: Folder, name: string, g: Folder): Folder {
    var k := SubAt(f.subs, name);
    f.(subs := if k < |f.subs| then f.subs[k := Sub(name, g)] else f.subs + [Sub(name, g)])
  }

  // ---------- writing ----------

  /** The memory the writer reads is there, in the whole tree. */
  predicate TreeSized(f: Folder)
    decreases f
  {
    && f.ctype <= |FOLDER_CONTENTS|
    && (forall i :: 0 <= i < |f.records| ==> Sized(f.records[i]))
    && (forall i :: 0 <= i < |f.subs| ==> TreeSized(f.subs[i].folder))
  }

  function FolderAttrs(attrs: map<AttrName, Attr>, f: Folder): map<AttrName, Attr>
    requires f.ctype <= |FOLDER_CONTENTS|
  {
    var a := if f.permission == ALL_ACCESS then attrs else attrs[AccessAttr := Num(f.permission)];
    if f.ctype == 0 then a else a[ContentAttr := Text(FOLDER_CONTENTS[f.ctype - 1])]
  }

  function WriteRecords(rs: seq<Record>): (xs: seq<Xml>)
    requires forall i :: 0 <= i < |rs| ==> Sized(rs[i])
    ensures |xs| == |rs|
  {
    if rs == [] then [] else WriteRecords(rs[..|rs| - 1]) + [WriteRecord(rs[|rs| - 1])]
  }

  /** `PsmSysFolderToXMLHandle`: attributes, then one child a record, then one a subfolder. */
  function WriteInto(x: Xml, f: Folder): Xml
    requires TreeSized(f)
    decreases f, 0
  {
    x.(attrs := FolderAttrs(x.attrs, f), children := x.children + WriteRecords(f.records) + WriteSubs(f.subs))
  }

  function WriteSubs(ss: seq<Sub>): (xs: seq<Xml>)
    requires forall i :: 0 <= i < |ss| ==> TreeSized(ss[i].folder)
    ensures |xs| == |ss|
    decreases ss, 0
  {
    if ss == [] then [] else WriteSubs(ss[..|ss| - 1]) + [WriteSub(ss[|ss| - 1])]
  }

  function WriteSub(s: Sub): Xml
    requires TreeSized(s.folder)
    decreases s, 0
  {
    WriteInto(Xml(FolderTag, map[NameAttr := Text(s.name)], NoData, []), s.folder)
  }

  // ---------- loading ----------

  /** How a load ends: at the last child, at a child that failed, or outside the model. */
  datatype Ending = Done | Stopped | Beyond

  datatype Loaded = Loaded(folder: Folder, ending: Ending)

  /** The attributes of a folder's node, applied to the folder. */
  function Dressed(f: Folder, attrs: map<AttrName, Attr>): Folder {
    var ftype := FolderTypeOf(attrs);
    var ctype := FolderContentOf(attrs);
    Folder(if ftype != 0 then ftype else f.ftype, if ctype != 0 then ctype else f.ctype,
           AccessOf(attrs, f.permission), f.records, f.subs)
  }

  function FolderTypeOf(attrs: map<AttrName, Attr>): nat {
    var s := TextAttr(attrs, TypeAttr, FOLDER_NAME_SIZE);
    if s.None? then 0 else Position(FOLDER_TYPES, s.value)
  }

  function FolderContentOf(attrs: map<AttrName, Attr>): nat {
    var s := TextAttr(attrs, ContentAttr, FOLDER_NAME_SIZE);
    if s.None? then 0 else Position(FOLDER_CONTENTS, s.value)
  }

  function LoadRecordInto(f: Folder, x: Xml, cap: nat): Loaded {
    match LoadRecord(x, cap)
    case Added(r) => Loaded(PutRecord(f, r), Done)
    case Skipped => Loaded(f, Done)
    case Failed => Loaded(f, Stopped)
    case Unseen => Loaded(f, Beyond)
  }

  /** `loadFolderFromXML`: what was loaded before a failure stays. */
  function LoadFolderInto(f: Folder, x: Xml, cap: nat): Loaded
    decreases x, 0
  {
    var name := TextAttr(x.attrs, NameAttr, FOLDER_NAME_SIZE);
    if name.None? then Loaded(f, Stopped)
    else
      var r := LoadInto(Dressed(AddedSub(f, name.value), x.attrs), x.children, cap);
      Loaded(PutSub(f, name.value, r.folder), r.ending)
  }

  /** A child that is neither a folder nor a record is outside the model. */
  function LoadChild(f: Folder, x: Xml, cap: nat): Loaded
    decreases x, 1
  {
    match x.tag
    case FolderTag => LoadFolderInto(f, x, cap)
    case RecordTag => LoadRecordInto(f, x, cap)
    case OtherTag(_) => Loaded(f, Beyond)
  }

  /** `PsmSysFolderFromXMLHandle`: the children in order, up to the first that fails. */
  function LoadInto(f: Folder, xs: seq<Xml>, cap: nat): Loaded
    decreases xs, 0
  {
    if xs == [] then Loaded(f, Done)
    else
      var r := LoadInto(f, xs[..|xs| - 1], cap);
      if r.ending != Done then r else LoadChild(r.folder, xs[|xs| - 1], cap)
  }

  // ---------- what a load leaves alone ----------

  lemma {:induction false} LoadAppend(f: Folder, xs: seq<Xml>, ys: seq<Xml>, cap: nat)
    ensures var r := LoadInto(f, xs, cap);
            LoadInto(f, xs + ys, cap) == if r.ending != Done then r else LoadInto(r.folder, ys, cap)
    decreases |ys|
  {
    hide LoadChild;
    if ys == [] {
      assert xs + ys == xs;
    } else {
      var n := |ys| - 1;
      LoadAppend(f, xs, ys[..n], cap);
      assert (xs + ys)[..|xs + ys| - 1] == xs + ys[..n];
      assert (xs + ys)[|xs + ys| - 1] == ys[n];
    }
  }

  /** A child adds at most one record and one subfolder, and leaves the folder's own attributes. */
  lemma ChildAddsOne(f: Folder, x: Xml, cap: nat)
    ensures var g := LoadChild(f, x, cap).folder;
            && |g.records| <= |f.records| + 1 && |g.subs| <= |f.subs| + 1
            && g.ftype == f.ftype && g.ctype == f.ctype && g.permission == f.permission
    ensures x.tag.FolderTag? ==> LoadChild(f, x, cap).folder.records == f.records
    ensures x.tag.RecordTag? ==> LoadChild(f, x, cap).folder.subs == f.subs
  {
    hide LoadRecord, Dressed, AddedSub, LoadInto;
  }

  lemma {:induction false} LoadAddsOneEach(f: Folder, xs: seq<Xml>, cap: nat)
    ensures var g := LoadInto(f, xs, cap).folder;
            && |g.records| <= |f.records| + |xs| && |g.subs| <= |f.subs| + |xs|
            && g.ftype == f.ftype && g.ctype == f.ctype && g.permission == f.permission
    ensures (forall i :: 0 <= i < |xs| ==> xs[i].tag.FolderTag?) ==> LoadInto(f, xs, cap).folder.records == f.records
    ensures (forall i :: 0 <= i < |xs| ==> xs[i].tag.RecordTag?) ==> LoadInto(f, xs, cap).folder.subs == f.subs
    decreases |xs|
  {
    hide LoadChild;
    if xs == [] {
    } else {
      var n := |xs| - 1;
      LoadAddsOneEach(f, xs[..n], cap);
      ChildAddsOne(LoadInto(f, xs[..n], cap).folder, xs[n], cap);
      assert forall i :: 0 <= i < n ==> xs[..n][i] == xs[i];
    }
  }

  // ---------- the tree round trip ----------

  predicate DistinctRecords(rs: seq<Record>) {
    forall i, j :: 0 <= i < j < |rs| ==> rs[i].name != rs[j].name
  }

  predicate DistinctSubs(ss: seq<Sub>) {
    forall i, j :: 0 <= i < j < |ss| ==> ss[i].name != ss[j].name
  }

  /** Siblings have different names, in the whole tree. */
  predicate Distinct(f: Folder)
    decreases f
  {
    && DistinctRecords(f.records) && DistinctSubs(f.subs)
    && (forall i :: 0 <= i < |f.subs| ==> Distinct(f.subs[i].folder))
  }

  /** Every record of the tree has a writer. */
  predicate Writable(f: Folder)
    decreases f
  {
    && (forall i :: 0 <= i < |f.records| ==> HasWriter(f.records[i]))
    && (forall i :: 0 <= i < |f.subs| ==> Writable(f.subs[i].folder))
  }

  predicate WellFormed(f: Folder) {
    Distinct(f) && Writable(f)
  }

  /** All that is below a folder comes back: see `TreeRoundTripIff`. */
  ghost predicate Restorable(f: Folder, cap: nat)
    requires TreeSized(f)
    decreases f, 1
  {
    && (forall i :: 0 <= i < |f.records| ==> Faithful(f.records[i], cap))
    && (forall i :: 0 <= i < |f.subs| ==> SubRestorable(f.subs[i], cap))
  }

  /** A subfolder whose name the loader's buffer holds, of the type new folders have. */
  ghost predicate SubRestorable(s: Sub, cap: nat)
    requires TreeSized(s.folder)
    decreases s, 0
  {
    |s.name| <= FOLDER_NAME_SIZE && s.folder.ftype == STORAGE && Restorable(s.folder, cap)
  }

  lemma RecordStepIff(p: Folder, f: Folder, rs: seq<Record>, r: Record, cap: nat)
    requires Sized(r) && HasWriter(r) && cap >= TEXT_BUFFER
    requires |p.records| <= |rs| && forall i :: 0 <= i < |rs| ==> rs[i].name != r.name
    ensures LoadChild(p, WriteRecord(r), cap) == Loaded(f.(records := rs + [r]), Done)
       <==> p == f.(records := rs) && Faithful(r, cap)
  {
    RecordRoundTripIff(r, cap);
    assert WriteRecord(r).tag == RecordTag;
    hide LoadRecord, WriteRecord, Faithful, Sized, HasWriter;
    match LoadRecord(WriteRecord(r), cap) {
      case Added(q) =>
        var k := RecordAt(p.records, q.name);
        if k == |p.records| {
          assert p.records + [q] == rs + [r] ==> p.records == rs && q == r by {
            assert (p.records + [q])[|p.records|] == q && (rs + [r])[|rs|] == r;
            assert (p.records + [q])[..|p.records|] == p.records && (rs + [r])[..|rs|] == rs;
          }
        } else {
          assert |PutRecord(p, q).records| == |p.records|;
        }
      case _ =>
    }
  }

  ghost predicate AllRecords(rs: seq<Record>, cap: nat)
    requires forall i :: 0 <= i < |rs| ==> Sized(rs[i])
  {
    forall i :: 0 <= i < |rs| ==> Faithful(rs[i], cap)
  }

  lemma AllRecordsSnoc(rs: seq<Record>, cap: nat)
    requires forall i :: 0 <= i < |rs| ==> Sized(rs[i])
    ensures rs == [] ==> AllRecords(rs, cap)
    ensures rs != [] ==>
              (AllRecords(rs, cap) <==> AllRecords(rs[..|rs| - 1], cap) && Faithful(rs[|rs| - 1], cap))
  {
    hide Faithful, Sized;
    if rs != [] && AllRecords(rs, cap) {
      assert forall i :: 0 <= i < |rs| - 1 ==> rs[..|rs| - 1][i] == rs[i];
    }
    if rs != [] && AllRecords(rs[..|rs| - 1], cap) {
      assert forall i :: 0 <= i < |rs| - 1 ==> rs[i] == rs[..|rs| - 1][i];
    }
  }

  lemma {:induction false} RecordsIff(f: Folder, rs: seq<Record>, cap: nat)
    requires f.records == [] && cap >= TEXT_BUFFER && DistinctRecords(rs)
    requires forall i :: 0 <= i < |rs| ==> Sized(rs[i]) && HasWriter(rs[i])
    ensures LoadInto(f, WriteRecords(rs), cap) == Loaded(f.(records := rs), Done)
       <==> AllRecords(rs, cap)
    decreases |rs|
  {
    hide LoadChild, WriteRecord, Faithful, Sized, HasWriter, AllRecords;
    assert rs == [] ==> AllRecords(rs, cap) by { AllRecordsSnoc(rs, cap); }
    if rs == [] {
    } else {
      var n := |rs| - 1;
      var xs := WriteRecords(rs);
      assert xs[..n] == WriteRecords(rs[..n]) && xs[n] == WriteRecord(rs[n]);
      RecordsIff(f, rs[..n], cap);
      LoadAddsOneEach(f, xs[..n], cap);
      var p := LoadInto(f, xs[..n], cap);
      RecordStepIff(p.folder, f, rs[..n], rs[n], cap);
      assert rs[..n] + [rs[n]] == rs;
      AllRecordsSnoc(rs, cap);
    }
  }

  lemma FolderContentsDiffer(i: nat, j: nat)
    requires i < 6 && j < 6 && i != j
    ensures !SameNoCase(FOLDER_CONTENTS[i], FOLDER_CONTENTS[j])
  {
    var a, b := FOLDER_CONTENTS[i], FOLDER_CONTENTS[j];
    if |a| == |b| {
      var k := if |a| == 7 then 5 else 7;
      assert LowerChar(a[k]) != LowerChar(b[k]);
    }
  }

  lemma FolderContentNames(c: nat)
    requires 1 <= c <= |FOLDER_CONTENTS|
    ensures |FOLDER_CONTENTS[c - 1]| <= 8 && Position(FOLDER_CONTENTS, FOLDER_CONTENTS[c - 1]) == c
  {
    forall j | 0 <= j < 6 && j != c - 1 ensures !SameNoCase(FOLDER_CONTENTS[j], FOLDER_CONTENTS[c - 1]) {
      FolderContentsDiffer(j, c - 1);
    }
    PositionOfUnlike(FOLDER_CONTENTS, c - 1);
  }

  /** The attributes a subfolder's node is left with. */
  lemma SubAttrs(s: Sub)
    requires s.folder.ctype <= |FOLDER_CONTENTS|
    ensures var a := FolderAttrs(map[NameAttr := Text(s.name)], s.folder);
            && NameAttr in a && a[NameAttr] == Text(s.name) && TypeAttr !in a
            && (if s.folder.ctype == 0 then ContentAttr !in a
                else ContentAttr in a && a[ContentAttr] == Text(FOLDER_CONTENTS[s.folder.ctype - 1]))
            && (if s.folder.permission == ALL_ACCESS then AccessAttr !in a
                else AccessAttr in a && a[AccessAttr] == Num(s.folder.permission))
  {
    hide FOLDER_CONTENTS;
  }

  /** A name as it is read into the loader's buffer. */
  function HeldName(name: string): Option<string> {
    if |name| <= FOLDER_NAME_SIZE then Some(name) else None
  }

  /** What those attributes make of a new folder. */
  lemma SubDressed(s: Sub, x: Xml)
    requires s.folder.ctype <= |FOLDER_CONTENTS| && x.attrs == FolderAttrs(map[NameAttr := Text(s.name)], s.folder)
    ensures TextAttr(x.attrs, NameAttr, FOLDER_NAME_SIZE) == HeldName(s.name)
    ensures Dressed(EMPTY, x.attrs) == Folder(STORAGE, s.folder.ctype, s.folder.permission, [], [])
  {
    hide Position, FOLDER_CONTENTS, FOLDER_TYPES, FolderAttrs, SameNoCase;
    SubAttrs(s);
    if s.folder.ctype != 0 {
      FolderContentNames(s.folder.ctype);
    }
  }

  /** The node of a subfolder: its name, its children, and what it makes of a new folder. */
  lemma WrittenSub(s: Sub, cap: nat)
    requires TreeSized(s.folder)
    ensures var x := WriteSub(s);
            && x.tag == FolderTag
            && x.children == WriteRecords(s.folder.records) + WriteSubs(s.folder.subs)
            && TextAttr(x.attrs, NameAttr, FOLDER_NAME_SIZE) == HeldName(s.name)
            && Dressed(EMPTY, x.attrs) == Folder(STORAGE, s.folder.ctype, s.folder.permission, [], [])
  {
    hide WriteRecords, WriteSubs, FolderAttrs, Dressed, TextAttr, FOLDER_CONTENTS, FOLDER_NAME_SIZE;
    assert WriteSub(s) == WriteInto(Xml(FolderTag, map[NameAttr := Text(s.name)], NoData, []), s.folder);
    SubDressed(s, WriteSub(s));
  }

  lemma {:induction false} SubStepIff(p: Folder, f: Folder, ss: seq<Sub>, s: Sub, cap: nat)
    requires TreeSized(s.folder) && WellFormed(s.folder) && cap >= TEXT_BUFFER
    requires |p.subs| <= |ss| && forall i :: 0 <= i < |ss| ==> ss[i].name != s.name
    ensures LoadChild(p, WriteSub(s), cap) == Loaded(f.(subs := ss + [s]), Done)
       <==> p == f.(subs := ss) && SubRestorable(s, cap)
    decreases s, 1
  {
    WrittenSub(s, cap);
    var x := WriteSub(s);
    var e := Folder(STORAGE, s.folder.ctype, s.folder.permission, [], []);
    ContentsIff(e, s.folder, cap);
    LoadAddsOneEach(e, x.children, cap);
    hide WriteSub, Dressed, LoadInto, Restorable, WellFormed, TreeSized;
    if |s.name| <= FOLDER_NAME_SIZE {
      var k := SubAt(p.subs, s.name);
      if k == |p.subs| {
        var r := LoadInto(e, x.children, cap);
        assert LoadChild(p, x, cap) == Loaded(p.(subs := p.subs + [Sub(s.name, r.folder)]), r.ending);
        LastOfSubs(p.subs, Sub(s.name, r.folder), ss, s);
      } else {
        assert |LoadChild(p, x, cap).folder.subs| == |p.subs|;
      }
    }
  }

  lemma LastOfSubs(a: seq<Sub>, x: Sub, b: seq<Sub>, y: Sub)
    ensures a + [x] == b + [y] <==> a == b && x == y
  {
    if a + [x] == b + [y] {
      assert (a + [x])[|a|] == x && (b + [y])[|b|] == y;
      assert (a + [x])[..|a|] == a && (b + [y])[..|b|] == b;
    }
  }

  ghost predicate AllSubs(ss: seq<Sub>, cap: nat)
    requires forall i :: 0 <= i < |ss| ==> TreeSized(ss[i].folder)
  {
    forall i :: 0 <= i < |ss| ==> SubRestorable(ss[i], cap)
  }

  lemma AllSubsSnoc(ss: seq<Sub>, cap: nat)
    requires forall i :: 0 <= i < |ss| ==> TreeSized(ss[i].folder)
    ensures ss == [] ==> AllSubs(ss, cap)
    ensures ss != [] ==>
              (AllSubs(ss, cap) <==> AllSubs(ss[..|ss| - 1], cap) && SubRestorable(ss[|ss| - 1], cap))
  {
    hide SubRestorable, TreeSized;
    if ss != [] && AllSubs(ss, cap) {
      assert forall i :: 0 <= i < |ss| - 1 ==> ss[..|ss| - 1][i] == ss[i];
    }
    if ss != [] && AllSubs(ss[..|ss| - 1], cap) {
      assert forall i :: 0 <= i < |ss| - 1 ==> ss[i] == ss[..|ss| - 1][i];
    }
  }

  lemma {:induction false} SubsIff(f: Folder, ss: seq<Sub>, cap: nat)
    requires f.subs == [] && cap >= TEXT_BUFFER && DistinctSubs(ss)
    requires forall i :: 0 <= i < |ss| ==> TreeSized(ss[i].folder) && WellFormed(ss[i].folder)
    ensures LoadInto(f, WriteSubs(ss), cap) == Loaded(f.(subs := ss), Done)
       <==> AllSubs(ss, cap)
    decreases ss, 0
  {
    hide LoadChild, WriteSub, SubRestorable, TreeSized, WellFormed, AllSubs;
    assert ss == [] ==> AllSubs(ss, cap) by { AllSubsSnoc(ss, cap); }
    if ss == [] {
    } else {
      var n := |ss| - 1;
      var xs := WriteSubs(ss);
      assert xs[..n] == WriteSubs(ss[..n]) && xs[n] == WriteSub(ss[n]);
      SubsIff(f, ss[..n], cap);
      LoadAddsOneEach(f, xs[..n], cap);
      var p := LoadInto(f, xs[..n], cap);
      SubStepIff(p.folder, f, ss[..n], ss[n], cap);
      assert ss[..n] + [ss[n]] == ss;
      AllSubsSnoc(ss, cap);
    }
  }

  lemma {:induction false} RecordTags(rs: seq<Record>)
    requires forall i :: 0 <= i < |rs| ==> Sized(rs[i])
    ensures forall i :: 0 <= i < |rs| ==> WriteRecords(rs)[i].tag.RecordTag?
    decreases |rs|
  {
    hide WriteData, Sized;
    if rs == [] {
    } else {
      RecordTags(rs[..|rs| - 1]);
    }
  }

  lemma {:induction false} SubTags(ss: seq<Sub>)
    requires forall i :: 0 <= i < |ss| ==> TreeSized(ss[i].folder)
    ensures forall i :: 0 <= i < |ss| ==> WriteSubs(ss)[i].tag.FolderTag?
    decreases |ss|
  {
    if ss == [] {
    } else {
      SubTags(ss[..|ss| - 1]);
      assert WriteSub(ss[|ss| - 1]).tag == FolderTag;
      hide WriteSub;
    }
  }

  /** The children written for a folder, loaded into a folder without any, give all of them back exactly when ... */
  lemma {:induction false} ContentsIff(e: Folder, f: Folder, cap: nat)
    requires e.records == [] && e.subs == [] && TreeSized(f) && WellFormed(f) && cap >= TEXT_BUFFER
    ensures LoadInto(e, WriteRecords(f.records) + WriteSubs(f.subs), cap)
              == Loaded(e.(records := f.records, subs := f.subs), Done)
       <==> Restorable(f, cap)
    decreases f, 0
  {
    hide LoadInto, WriteRecords, WriteSubs, Faithful, SubRestorable, HasWriter, DistinctRecords, DistinctSubs;
    var rs, ss := WriteRecords(f.records), WriteSubs(f.subs);
    LoadAppend(e, rs, ss, cap);
    RecordTags(f.records);
    SubTags(f.subs);
    RecordsIff(e, f.records, cap);
    var p := LoadInto(e, rs, cap);
    LoadAddsOneEach(e, rs, cap);
    LoadAddsOneEach(p.folder, ss, cap);
    SubsIff(p.folder, f.subs, cap);
  }

  /**
   A tree written to an empty node and loaded into an empty folder gives back the tree, up to
   the root's own type, content type and permission, exactly when in the whole tree every
   record comes back, and every subfolder has a name of at most 128 characters and the storage
   type (the type of a folder is never written).
   */
  lemma TreeRoundTripIff(f: Folder, x: Xml, cap: nat)
    requires TreeSized(f) && WellFormed(f) && cap >= TEXT_BUFFER && x.children == []
    ensures LoadInto(EMPTY, WriteInto(x, f).children, cap)
              == Loaded(EMPTY.(records := f.records, subs := f.subs), Done)
       <==> Restorable(f, cap)
  {
    hide LoadInto, WriteRecords, WriteSubs, FolderAttrs, Restorable, WellFormed;
    ContentsIff(EMPTY, f, cap);
    assert WriteInto(x, f).children == WriteRecords(f.records) + WriteSubs(f.subs);
  }
}
