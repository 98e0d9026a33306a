/**
 What the nodes of a document do to a folder when they are loaded into it, one by one, and
 which nodes a folder is written as (source/PsmFileLoader/psm_flo_parse.c).
 */
module FolderLaws {
  import opened CStrings
  import opened Numbers
  import opened RecordXml
  import opened NodeLaws
  import opened FolderTree

  // ---------- names ----------

  /** The names of folder types and content types. */
  lemma FolderTypeNumbers()
    ensures Position(FOLDER_TYPES, "storage") == 1 && Position(FOLDER_TYPES, "guarded") == 2
    ensures Position(FOLDER_TYPES, "dynamic") == 3 && Position(FOLDER_TYPES, "session") == 4
  {
    forall i: nat, j: nat | i < 4 && j < 4 && i != j ensures !SameNoCase(FOLDER_TYPES[i], FOLDER_TYPES[j]) {
      FolderTypesDiffer(i, j);
    }
    hide SameNoCase, Position;
    PositionOfUnlike(FOLDER_TYPES, 0);
    PositionOfUnlike(FOLDER_TYPES, 1);
    PositionOfUnlike(FOLDER_TYPES, 2);
    PositionOfUnlike(FOLDER_TYPES, 3);
    assert FOLDER_TYPES[0] == "storage" && FOLDER_TYPES[1] == "guarded";
    assert FOLDER_TYPES[2] == "dynamic" && FOLDER_TYPES[3] == "session";
  }

  lemma FolderTypesDiffer(i: nat, j: nat)
    requires i < 4 && j < 4 && i != j
    ensures !SameNoCase(FOLDER_TYPES[i], FOLDER_TYPES[j])
  {
    assert LowerChar(FOLDER_TYPES[i][2]) != LowerChar(FOLDER_TYPES[j][2]);
  }

  lemma FolderContentNumbers()
    ensures Position(FOLDER_CONTENTS, "category") == 1 && Position(FOLDER_CONTENTS, "table2D") == 2
    ensures Position(FOLDER_CONTENTS, "table3D") == 3 && Position(FOLDER_CONTENTS, "chartPie") == 4
    ensures Position(FOLDER_CONTENTS, "chartBar") == 5 && Position(FOLDER_CONTENTS, "graph") == 6
  {
    FolderContentNames(1);
    FolderContentNames(2);
    FolderContentNames(3);
    FolderContentNames(4);
    FolderContentNames(5);
    FolderContentNames(6);
    hide Position;
    assert FOLDER_CONTENTS[0] == "category" && FOLDER_CONTENTS[1] == "table2D" && FOLDER_CONTENTS[2] == "table3D";
    assert FOLDER_CONTENTS[3] == "chartPie" && FOLDER_CONTENTS[4] == "chartBar" && FOLDER_CONTENTS[5] == "graph";
  }

  // ---------- one node ----------

  /** The first record, and the first subfolder, of a name. */
  ghost predicate RecordIs(f: Folder, name: string, k: nat) {
    k < |f.records| && f.records[k].name == name && forall i :: 0 <= i < k ==> f.records[i].name != name
  }

  ghost predicate NoRecord(f: Folder, name: string) {
    forall i :: 0 <= i < |f.records| ==> f.records[i].name != name
  }

  ghost predicate SubIs(f: Folder, name: string, k: nat) {
    k < |f.subs| && f.subs[k].name == name && forall i :: 0 <= i < k ==> f.subs[i].name != name
  }

  ghost predicate NoSub(f: Folder, name: string) {
    forall i :: 0 <= i < |f.subs| ==> f.subs[i].name != name
  }

  lemma LoadOne(f: Folder, x: Xml, cap: nat)
    ensures LoadInto(f, [x], cap) == LoadChild(f, x, cap)
    ensures LoadInto(f, [], cap) == Loaded(f, Done)
  {
    hide LoadChild;
    assert [x][..0] == [];
  }

  /** A record takes the place of the one of its name, or comes last. */
  lemma RecordNodeLoads(f: Folder, x: Xml, cap: nat, r: Record, k: nat)
    requires x.tag == RecordTag && LoadRecord(x, cap) == Added(r) && (RecordIs(f, r.name, k) || NoRecord(f, r.name))
    ensures LoadInto(f, [x], cap) ==
            Loaded(f.(records := if RecordIs(f, r.name, k) then f.records[k := r] else f.records + [r]), Done)
  {
    hide LoadRecord, LoadInto;
    LoadOne(f, x, cap);
    var m := RecordAt(f.records, r.name);
    hide RecordAt;
    assert RecordIs(f, r.name, k) ==> m == k;
  }

  /** A skipped record changes nothing; a failed one ends the load and changes nothing. */
  lemma RecordNodeLeaves(f: Folder, x: Xml, cap: nat)
    requires x.tag == RecordTag
    ensures LoadRecord(x, cap) == Skipped ==> LoadInto(f, [x], cap) == Loaded(f, Done)
    ensures LoadRecord(x, cap) == Failed ==> LoadInto(f, [x], cap) == Loaded(f, Stopped)
  {
    hide LoadRecord, LoadInto;
    LoadOne(f, x, cap);
  }

  /** `g` is `f` with the type, content type and permission the attributes name; others are kept. */
  predicate Wears(attrs: map<AttrName, Attr>, f: Folder, g: Folder) {
    && g.records == f.records && g.subs == f.subs
    && (if !NoText(attrs, TypeAttr, 128) && Position(FOLDER_TYPES, attrs[TypeAttr].s) > 0
        then g.ftype == Position(FOLDER_TYPES, attrs[TypeAttr].s) else g.ftype == f.ftype)
    && (if !NoText(attrs, ContentAttr, 128) && Position(FOLDER_CONTENTS, attrs[ContentAttr].s) > 0
        then g.ctype == Position(FOLDER_CONTENTS, attrs[ContentAttr].s) else g.ctype == f.ctype)
    && (if AccessAttr in attrs && attrs[AccessAttr].Num? then g.permission == attrs[AccessAttr].n
        else g.permission == f.permission)
  }

  /** A folder whose name is missing or longer than 128 characters fails. */
  lemma FolderNodeFails(f: Folder, x: Xml, cap: nat)
    requires x.tag == FolderTag && NoText(x.attrs, NameAttr, 128)
    ensures LoadInto(f, [x], cap) == Loaded(f, Stopped)
  {
    hide LoadInto, Dressed;
    LoadOne(f, x, cap);
  }

  lemma DressedWears(attrs: map<AttrName, Attr>, f: Folder)
    ensures Wears(attrs, f, Dressed(f, attrs))
  {
    hide Position, FOLDER_TYPES, FOLDER_CONTENTS;
  }

  lemma WearsOne(attrs: map<AttrName, Attr>, f: Folder, g: Folder)
    requires Wears(attrs, f, g)
    ensures g == Dressed(f, attrs)
  {
    hide Position, FOLDER_TYPES, FOLDER_CONTENTS;
  }

  /** A subfolder that is there is loaded into: what it has stays, and it keeps its place. */
  lemma KnownFolderNodeLoads(f: Folder, x: Xml, cap: nat, name: string, k: nat, g: Folder)
    requires x.tag == FolderTag && NameAttr in x.attrs && x.attrs[NameAttr] == Text(name) && |name| <= 128
    requires SubIs(f, name, k) && Wears(x.attrs, f.subs[k].folder, g)
    ensures var r := LoadInto(g, x.children, cap);
            LoadInto(f, [x], cap) == Loaded(f.(subs := f.subs[k := Sub(name, r.folder)]), r.ending)
  {
    WearsOne(x.attrs, f.subs[k].folder, g);
    LoadOne(f, x, cap);
    hide LoadInto, Dressed, Wears;
    var m := SubAt(f.subs, name);
    hide SubAt;
    assert m == k;
  }

  /** A new one is a storage folder with all permissions until its node says otherwise, and comes last. */
  lemma NewFolderNodeLoads(f: Folder, x: Xml, cap: nat, name: string, g: Folder)
    requires x.tag == FolderTag && NameAttr in x.attrs && x.attrs[NameAttr] == Text(name) && |name| <= 128
    requires NoSub(f, name) && Wears(x.attrs, Folder(1, 0, ALL_ACCESS, [], []), g)
    ensures var r := LoadInto(g, x.children, cap);
            LoadInto(f, [x], cap) == Loaded(f.(subs := f.subs + [Sub(name, r.folder)]), r.ending)
  {
    WearsOne(x.attrs, EMPTY, g);
    LoadOne(f, x, cap);
    hide LoadInto, Dressed, Wears;
    var m := SubAt(f.subs, name);
    hide SubAt;
    assert m == |f.subs|;
  }

  // ---------- what a load leaves alone ----------

  /** No node of the list names the record. */
  ghost predicate Unmentioned(xs: seq<Xml>, cap: nat, name: string) {
    forall i :: 0 <= i < |xs| && LoadRecord(xs[i], cap).Added? ==> LoadRecord(xs[i], cap).r.name != name
  }

  /** The records that are there keep their places and names, and those no node names their contents. */
  lemma {:induction false} LoadKeepsRecords(f: Folder, xs: seq<Xml>, cap: nat, i: nat)
    requires i < |f.records|
    ensures var g := LoadInto(f, xs, cap).folder;
            && i < |g.records| && g.records[i].name == f.records[i].name
            && (Unmentioned(xs, cap, f.records[i].name) ==> g.records[i] == f.records[i])
    decreases |xs|
  {
    hide LoadRecord, LoadChild;
    if xs == [] {
    } else {
      var n := |xs| - 1;
      LoadKeepsRecords(f, xs[..n], cap, i);
      ChildKeepsRecord(LoadInto(f, xs[..n], cap).folder, xs[n], cap, i);
      assert Unmentioned(xs, cap, f.records[i].name) ==> Unmentioned(xs[..n], cap, f.records[i].name);
    }
  }

  lemma ChildKeepsRecord(f: Folder, x: Xml, cap: nat, i: nat)
    requires i < |f.records|
    ensures var g := LoadChild(f, x, cap).folder;
            && i < |g.records| && g.records[i].name == f.records[i].name
            && (Unmentioned([x], cap, f.records[i].name) ==> g.records[i] == f.records[i])
            && (LoadRecord(x, cap).Added? ==>
                  LoadRecord(x, cap).r.name != f.records[i].name ==> g.records[i] == f.records[i])
            && (!LoadRecord(x, cap).Added? ==> g.records[i] == f.records[i])
  {
    hide LoadRecord, LoadInto, Dressed;
    if x.tag.RecordTag? && LoadRecord(x, cap).Added? {
      assert [x][0] == x;
      hide RecordAt;
    }
  }

  // ---------- the nodes a folder is written as ----------

  /** The children of a written folder: what was there, then its records, then its subfolders, in order. */
  lemma WrittenChildren(x: Xml, f: Folder)
    requires TreeSized(f)
    ensures var y := WriteInto(x, f);
            && y.tag == x.tag && y.data == x.data && |y.children| == |x.children| + |f.records| + |f.subs|
            && y.children[..|x.children|] == x.children
            && (forall i :: 0 <= i < |f.records| ==> y.children[|x.children| + i] == WriteRecord(f.records[i]))
            && (forall i :: 0 <= i < |f.subs| ==>
                  y.children[|x.children| + |f.records| + i] == WriteSub(f.subs[i]))
  {
    forall i: nat | i < |f.records| ensures WriteRecords(f.records)[i] == WriteRecord(f.records[i]) {
      RecordNodeAt(f.records, i);
    }
    forall i: nat | i < |f.subs| ensures WriteSubs(f.subs)[i] == WriteSub(f.subs[i]) {
      SubNodeAt(f.subs, i);
    }
    hide WriteRecords, WriteSubs, WriteRecord, WriteSub, FolderAttrs, Sized;
  }

  lemma {:induction false} RecordNodeAt(rs: seq<Record>, i: nat)
    requires i < |rs| && forall j :: 0 <= j < |rs| ==> Sized(rs[j])
    ensures WriteRecords(rs)[i] == WriteRecord(rs[i])
    decreases |rs|
  {
    hide WriteRecord, Sized;
    if i < |rs| - 1 {
      RecordNodeAt(rs[..|rs| - 1], i);
    }
  }

  lemma {:induction false} SubNodeAt(ss: seq<Sub>, i: nat)
    requires i < |ss| && forall j :: 0 <= j < |ss| ==> TreeSized(ss[j].folder)
    ensures WriteSubs(ss)[i] == WriteSub(ss[i])
    decreases |ss|
  {
    hide WriteSub;
    if i < |ss| - 1 {
      SubNodeAt(ss[..|ss| - 1], i);
    }
  }

  /** A written node: the content type unless it is the default, the permission unless it is all, no type. */
  lemma WrittenFolderAttrs(x: Xml, f: Folder, a: AttrName)
    requires TreeSized(f)
    ensures var y := WriteInto(x, f);
            && (a == NameAttr || a == TypeAttr ==>
                  (a in y.attrs <==> a in x.attrs) && (a in x.attrs ==> y.attrs[a] == x.attrs[a]))
            && (f.ctype > 0 ==>
                  ContentAttr in y.attrs && y.attrs[ContentAttr] == Text(FOLDER_CONTENTS[f.ctype - 1]))
            && (f.ctype == 0 ==> (ContentAttr in y.attrs <==> ContentAttr in x.attrs))
            && (f.permission != ALL_ACCESS ==> AccessAttr in y.attrs && y.attrs[AccessAttr] == Num(f.permission))
            && (f.permission == ALL_ACCESS ==> (AccessAttr in y.attrs <==> AccessAttr in x.attrs))
  {
    hide WriteRecords, WriteSubs, FOLDER_CONTENTS;
  }

  /** The node of a subfolder holds its name. */
  lemma SubNodeIs(s: Sub)
    requires TreeSized(s.folder)
    ensures WriteSub(s) == WriteInto(Xml(FolderTag, map[NameAttr := Text(s.name)], NoData, []), s.folder)
  {
    hide WriteInto;
  }
}
