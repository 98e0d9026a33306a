/**
 The folder translator of source/PsmFileLoader/psm_flo_parse.c as it runs: it writes a
 folder of the repository into a document node and loads a document node into a folder,
 opening and closing a handle for every subfolder.
 */
module Translator {
  import opened CStrings
  import opened RecordXml
  import opened FolderTree
  import opened FolderPaths
  import opened FolderRepository
  import opened XmlNodes
  import opened RecordIO

  // ---------- writing ----------

  lemma WriteRecordsStep(rs: seq<Record>, i: nat)
    requires i < |rs| && forall k :: 0 <= k < |rs| ==> Sized(rs[k])
    ensures WriteRecords(rs[..i + 1]) == WriteRecords(rs[..i]) + [WriteRecord(rs[i])]
  {
    assert rs[..i + 1][..i] == rs[..i];
  }

  lemma WriteSubsStep(ss: seq<Sub>, i: nat)
    requires i < |ss| && forall k :: 0 <= k < |ss| ==> TreeSized(ss[k].folder)
    ensures WriteSubs(ss[..i + 1]) == WriteSubs(ss[..i]) + [WriteSub(ss[i])]
  {
    assert ss[..i + 1][..i] == ss[..i];
  }

  /** What a written folder is made of. */
  lemma WrittenParts(v: Xml, f: Folder)
    requires TreeSized(f)
    ensures f.ctype <= |FOLDER_CONTENTS| && forall i :: 0 <= i < |f.records| ==> Sized(f.records[i])
    ensures forall i :: 0 <= i < |f.subs| ==> TreeSized(f.subs[i].folder)
    ensures WriteInto(v, f) == v.(attrs := FolderAttrs(v.attrs, f),
                                  children := v.children + WriteRecords(f.records) + WriteSubs(f.subs))
  {
    hide FolderAttrs, WriteRecords, WriteSubs, FOLDER_CONTENTS;
  }

  lemma NoSubs()
    ensures WriteSubs([]) == []
  {
  }

  /** The records of a folder, one node each. */
  method RecordsToXml(rs: seq<Record>, x: XmlNode)
    requires x.Valid() && forall i :: 0 <= i < |rs| ==> Sized(rs[i])
    modifies x
    ensures x.Valid() && fresh(x.repr - old(x.repr))
    ensures x.value == old(x.value).(children := old(x.value).children + WriteRecords(rs))
  {
    hide WriteRecord, Sized;
    for i := 0 to |rs|
      invariant x.Valid() && fresh(x.repr - old(x.repr))
      invariant x.value == old(x.value).(children := old(x.value).children + WriteRecords(rs[..i]))
    {
      AddRecordToXml(rs[i], x);
      WriteRecordsStep(rs, i);
    }
    assert rs[..|rs|] == rs;
  }

  /** `QueryFolder`, and the attributes it leaves on the node. */
  method FolderAttrsToXml(f: Folder, x: XmlNode)
    requires x.Valid() && f.ctype <= |FOLDER_CONTENTS|
    modifies x`attrs, x`value
    ensures x.Valid() && x.value == old(x.value).(attrs := FolderAttrs(old(x.value).attrs, f))
  {
    hide FOLDER_CONTENTS;
    if f.permission != ALL_ACCESS {
      x.SetAttr(AccessAttr, Num(f.permission));
    }
    if f.ctype != 0 {
      x.SetAttr(ContentAttr, Text(FOLDER_CONTENTS[f.ctype - 1]));
    }
  }

  /** `PsmSysFolderToXMLHandle`: the node becomes the written folder, and every handle opened is closed. */
  method FolderToXml(repo: Repository, h: Handle, x: XmlNode)
    requires repo.Valid() && repo.Live(h) && x.Valid()
    requires TreeSized(repo.At(h)) && Distinct(repo.At(h))
    modifies repo`open, repo`next, x
    ensures repo.Valid() && repo.open == old(repo.open)
    ensures x.Valid() && fresh(x.repr - old(x.repr))
    ensures x.value == WriteInto(old(x.value), old(repo.At(h)))
    decreases repo.At(h)
  {
    var f := repo.At(h);
    ghost var v := x.value;
    WrittenParts(v, f);
    hide TreeSized, Distinct, Sized, FolderAttrs, WriteRecords, WriteSubs, WriteInto, FOLDER_CONTENTS;
    FolderAttrsToXml(f, x);
    RecordsToXml(f.records, x);
    SubsToXml(repo, h, f, x);
  }

  /** The loop over the subfolders. */
  method SubsToXml(repo: Repository, h: Handle, f: Folder, x: XmlNode)
    requires repo.Valid() && repo.Live(h) && x.Valid()
    requires f == repo.At(h) && TreeSized(f) && Distinct(f)
    modifies repo`open, repo`next, x
    ensures repo.Valid() && repo.open == old(repo.open)
    ensures x.Valid() && fresh(x.repr - old(x.repr))
    ensures x.value == old(x.value).(children := old(x.value).children + WriteSubs(f.subs))
    decreases f, 0, 2
  {
    WrittenParts(x.value, f);
    hide TreeSized, Distinct, Sized, WriteInto, WriteSub, WriteSubs, WriteRecords, FolderAttrs, GetAt, FOLDER_CONTENTS;
    NoSubs();
    assert f.subs[..0] == [];
    ghost var v := x.value;
    for i := 0 to |f.subs|
      invariant repo.Valid() && repo.open == old(repo.open)
      invariant x.Valid() && fresh(x.repr - old(x.repr))
      invariant x.value == v.(children := v.children + WriteSubs(f.subs[..i]))
    {
      SubToXml(repo, h, f, i, x);
      WriteSubsStep(f.subs, i);
    }
    assert f.subs[..|f.subs|] == f.subs;
  }

  /** One subfolder: its node is attached and then filled from the opened folder. */
  method SubToXml(repo: Repository, h: Handle, f: Folder, i: nat, x: XmlNode)
    requires repo.Valid() && repo.Live(h) && x.Valid()
    requires f == repo.At(h) && TreeSized(f) && Distinct(f) && i < |f.subs|
    modifies repo`open, repo`next, x
    ensures repo.Valid() && repo.open == old(repo.open)
    ensures x.Valid() && fresh(x.repr - old(x.repr))
    ensures x.value == old(x.value).(children := old(x.value).children + [WriteSub(f.subs[i])])
    decreases f, 0, 1
  {
    assert TreeSized(f.subs[i].folder);
    hide *;
    var n := x.AttachNew(FolderTag);
    FillFolder(repo, h, f, i, n);
    x.Settle(n);
  }

  /** The node is named; the subfolder is opened by its name, written into the node, and closed. */
  method FillFolder(repo: Repository, h: Handle, f: Folder, i: nat, n: XmlNode)
    requires repo.Valid() && repo.Live(h) && n.Valid()
    requires f == repo.At(h) && TreeSized(f) && Distinct(f) && i < |f.subs|
    requires n.value == Xml(FolderTag, map[], NoData, [])
    modifies repo`open, repo`next, n
    ensures repo.Valid() && repo.open == old(repo.open)
    ensures n.Valid() && fresh(n.repr - old(n.repr)) && n.value == WriteSub(f.subs[i])
    decreases f, 0, 0
  {
    assert TreeSized(f.subs[i].folder) && Distinct(f.subs[i].folder) && DistinctSubs(f.subs);
    ghost var s := f.subs[i];
    n.SetAttr(NameAttr, Text(f.subs[i].name));
    assert map[][NameAttr := Text(s.name)] == map[NameAttr := Text(s.name)];
    assert WriteSub(s) == WriteInto(n.value, s.folder);
    SubAtFound(f.subs, s.name, i);
    assert GetSub(f, s.name) == Some(s.folder);
    hide TreeSized, Distinct, GetSub, GetAt, WriteInto, WriteSub;
    ChildGet(repo.root, repo.open[h], s.name);
    var c := repo.OpenFolder(h, f.subs[i].name);
    if c.Some? {
      FolderToXml(repo, c.value, n);
      repo.CloseFolder(c.value);
    }
  }

  // ---------- loading ----------

  /** A document whose nodes below the root are all folders and records. */
  predicate Tagged(x: Xml)
    decreases x
  {
    forall i :: 0 <= i < |x.children| ==>
                  !x.children[i].tag.OtherTag? && (x.children[i].tag.FolderTag? ==> Tagged(x.children[i]))
  }

  /**
   A document that also has no NUL in its texts, and whose values are of the kind their types
   ask for, so that what loading it does is known.
   */
  predicate Known(x: Xml, cap: nat)
    decreases x, 0
  {
    forall i :: 0 <= i < |x.children| ==> KnownChild(x.children[i], cap)
  }

  predicate KnownChild(c: Xml, cap: nat)
    decreases c, 1
  {
    match c.tag
    case FolderTag => Known(c, cap)
    case RecordTag => KnownRecord(c, cap)
    case OtherTag(_) => false
  }

  predicate KnownRecord(c: Xml, cap: nat) {
    NoNul(c.data) && LoadRecord(c, cap) != Unseen
  }

  lemma {:induction false} KnownIsTagged(x: Xml, cap: nat)
    requires Known(x, cap)
    ensures Tagged(x)
    decreases x
  {
    hide KnownRecord;
    forall i | 0 <= i < |x.children| && x.children[i].tag.FolderTag? ensures Tagged(x.children[i]) {
      assert KnownChild(x.children[i], cap);
      KnownIsTagged(x.children[i], cap);
    }
    assert forall i :: 0 <= i < |x.children| ==> KnownChild(x.children[i], cap);
  }

  /** A load that stops at a child goes no further. */
  lemma LoadStops(f: Folder, xs: seq<Xml>, i: nat, cap: nat)
    requires i <= |xs| && LoadInto(f, xs[..i], cap).ending != Done
    ensures LoadInto(f, xs, cap) == LoadInto(f, xs[..i], cap)
  {
    LoadAppend(f, xs[..i], xs[i..], cap);
    assert xs[..i] + xs[i..] == xs;
  }

  lemma LoadStep(f: Folder, xs: seq<Xml>, i: nat, cap: nat)
    requires i < |xs| && LoadInto(f, xs[..i], cap).ending == Done
    ensures LoadInto(f, xs[..i + 1], cap) == LoadChild(LoadInto(f, xs[..i], cap).folder, xs[i], cap)
  {
    hide LoadChild;
    assert xs[..i + 1][..i] == xs[..i];
  }

  /**
   `loadRecordFromXML`.  What the document library makes of data of another kind is any outcome:
   a value is added or not, and the load goes on or fails.
   */
  method LoadRecordFromXml(repo: Repository, h: Handle, x: XmlNode, cap: nat) returns (ok: bool)
    requires repo.Live(h) && x.Valid()
    modifies repo`root
    ensures repo.Live(h) && repo.root == PutAt(old(repo.root), repo.open[h], repo.At(h))
    ensures repo.At(h).(records := []) == old(repo.At(h)).(records := [])
    ensures KnownRecord(x.value, cap) ==>
              LoadRecordInto(old(repo.At(h)), x.value, cap) == Loaded(repo.At(h), if ok then Done else Stopped)
  {
    hide LoadValue, TextAttr, TypeOfNode, ContentOfNode, AccessOf, NoNul, GetAt, PutAt;
    PutAtFacts(repo.root, repo.open[h], repo.At(h));
    var name := TextAttr(x.attrs, NameAttr, cap);
    if name.None? {
      return false;
    }
    var rtype := TypeOfNode(x.attrs, cap);
    if rtype == 0 {
      return false;
    }
    var ctype := ContentOfNode(x.attrs, cap);
    var permission := AccessOf(x.attrs, ALL_ACCESS);
    var v := OtherData;
    if NoNul(x.data) {
      v := ReadValue(rtype, ctype, x.data, cap);
    }
    if v.OtherData? {
      v, ok := *, *;
    } else {
      ok := !v.BadValue?;
    }
    if v.Got? {
      repo.AddRecord(h, Record(name.value, rtype, ctype, permission, v.p));
    }
  }

  /** The attributes of a folder's node, set on the folder. */
  method DressFolder(repo: Repository, c: Handle, x: XmlNode)
    requires repo.Live(c) && x.Valid()
    modifies repo`root
    ensures repo.Live(c) && repo.At(c) == Dressed(old(repo.At(c)), x.value.attrs)
    ensures repo.root == PutAt(old(repo.root), repo.open[c], Dressed(old(repo.At(c)), x.value.attrs))
  {
    hide FolderTypeOf, FolderContentOf, GetAt, PutAt;
    ghost var root, p, f := repo.root, repo.open[c], repo.At(c);
    PutAtFacts(root, p, f);
    var ftype := FolderTypeOf(x.attrs);
    if ftype != 0 {
      repo.SetFolderType(c, ftype);
    }
    ghost var f1 := repo.At(c);
    var ctype := FolderContentOf(x.attrs);
    if ctype != 0 {
      repo.SetContentType(c, ctype);
    }
    ghost var f2 := repo.At(c);
    PutPut(root, p, f1, f2);
    if AccessAttr in x.attrs && x.attrs[AccessAttr].Num? {
      repo.SetPermission(c, x.attrs[AccessAttr].n);
    }
    PutPut(root, p, f2, repo.At(c));
  }

  /** Adding a subfolder, dressing it and loading it comes to putting what was loaded. */
  lemma FolderLoaded(root: Folder, p: Path, name: string, a: Folder, d: Folder, g: Folder)
    requires Has(root, p)
    ensures var f := GetAt(root, p).value;
            var r1 := PutAt(root, p, PutSub(f, name, a));
            && Has(r1, p + [name]) && Has(PutAt(r1, p + [name], d), p + [name])
            && PutAt(PutAt(r1, p + [name], d), p + [name], g) == PutAt(root, p, PutSub(f, name, g))
            && Has(PutAt(root, p, PutSub(f, name, g)), p)
  {
    hide GetSub, PutSub, GetAt, PutAt;
    var f := GetAt(root, p).value;
    AddThenChange(root, p, name, a, d);
    AddThenChange(root, p, name, a, g);
    PutPut(PutAt(root, p, PutSub(f, name, a)), p + [name], d, g);
    PutAtFacts(root, p, PutSub(f, name, g));
  }

  /** `loadFolderFromXML`: the subfolder's handle is closed whether or not the load went well. */
  method LoadFolderFromXml(repo: Repository, h: Handle, x: XmlNode, cap: nat) returns (ok: bool)
    requires repo.Valid() && repo.Live(h) && x.Valid() && Tagged(x.value)
    modifies repo
    ensures repo.Valid() && repo.open == old(repo.open) && repo.Live(h)
    ensures repo.root == PutAt(old(repo.root), repo.open[h], repo.At(h))
    ensures Known(x.value, cap) ==>
              LoadFolderInto(old(repo.At(h)), x.value, cap) == Loaded(repo.At(h), if ok then Done else Stopped)
    decreases x.value, 1
  {
    hide TextAttr, Dressed, LoadInto, Known, Tagged, AddedSub, PutSub, GetAt, PutAt;
    PutAtFacts(repo.root, repo.open[h], repo.At(h));
    var name := TextAttr(x.attrs, NameAttr, FOLDER_NAME_SIZE);
    if name.None? {
      return false;
    }
    ok := LoadNamedFolder(repo, h, x, cap, name.value);
  }

  /** The subfolder of that name is opened, dressed, loaded and closed. */
  method LoadNamedFolder(repo: Repository, h: Handle, x: XmlNode, cap: nat, name: string) returns (ok: bool)
    requires repo.Valid() && repo.Live(h) && x.Valid() && Tagged(x.value)
    modifies repo
    ensures repo.Valid() && repo.open == old(repo.open) && repo.Live(h)
    ensures repo.root == PutAt(old(repo.root), repo.open[h], repo.At(h))
    ensures Known(x.value, cap) ==>
              var f := old(repo.At(h));
              var r := LoadInto(Dressed(AddedSub(f, name), x.value.attrs), x.value.children, cap);
              repo.At(h) == PutSub(f, name, r.folder) && r.ending == if ok then Done else Stopped
    decreases x.value, 0, 1
  {
    hide TextAttr, Dressed, LoadInto, Known, Tagged, AddedSub, PutSub, GetAt, PutAt;
    ghost var root, p, f := repo.root, repo.open[h], repo.At(h);
    var c := repo.AddFolder(h, name);
    DressFolder(repo, c, x);
    ok := FolderFromXml(repo, c, x, cap);
    ghost var g := repo.At(c);
    repo.CloseFolder(c);
    ghost var a := AddedSub(f, name);
    FolderLoaded(root, p, name, a, Dressed(a, x.value.attrs), g);
    PutAtFacts(root, p, PutSub(f, name, g));
  }

  /** `PsmSysFolderFromXMLHandle`: child by child, up to the first failure; no handle is left open. */
  method FolderFromXml(repo: Repository, h: Handle, x: XmlNode, cap: nat) returns (ok: bool)
    requires repo.Valid() && repo.Live(h) && x.Valid() && Tagged(x.value)
    modifies repo
    ensures repo.Valid() && repo.open == old(repo.open) && repo.Live(h)
    ensures repo.root == PutAt(old(repo.root), repo.open[h], repo.At(h))
    ensures Known(x.value, cap) ==>
              LoadInto(old(repo.At(h)), x.value.children, cap) == Loaded(repo.At(h), if ok then Done else Stopped)
    decreases x.value, 0, 0
  {
    hide GetAt, PutAt, LoadChild, LoadInto;
    ghost var root, p, f, xs := repo.root, repo.open[h], repo.At(h), x.value.children;
    ghost var known := Known(x.value, cap);
    PutAtFacts(root, p, f);
    LoadNothing(f, xs, cap);
    for i := 0 to |x.children|
      invariant repo.Valid() && repo.open == old(repo.open) && repo.Live(h)
      invariant repo.root == PutAt(root, p, repo.At(h))
      invariant known ==> LoadInto(f, xs[..i], cap) == Loaded(repo.At(h), Done)
    {
      ghost var g := repo.At(h);
      assert known ==> KnownChild(xs[i], cap);
      if known {
        LoadStep(f, xs, i, cap);
      }
      ok := ChildFromXml(repo, h, x.children[i], cap);
      PutPut(root, p, g, repo.At(h));
      if !ok {
        if known {
          LoadStops(f, xs, i + 1, cap);
        }
        return;
      }
    }
    ok := true;
    assert xs[..|xs|] == xs;
  }

  lemma LoadNothing(f: Folder, xs: seq<Xml>, cap: nat)
    ensures LoadInto(f, xs[..0], cap) == Loaded(f, Done)
  {
  }

  /** One round of the loop: the child is loaded as what its name says. */
  method ChildFromXml(repo: Repository, h: Handle, c: XmlNode, cap: nat) returns (ok: bool)
    requires repo.Valid() && repo.Live(h) && c.Valid()
    requires !c.value.tag.OtherTag? && (c.value.tag.FolderTag? ==> Tagged(c.value))
    modifies repo
    ensures repo.Valid() && repo.open == old(repo.open) && repo.Live(h)
    ensures repo.root == PutAt(old(repo.root), repo.open[h], repo.At(h))
    ensures KnownChild(c.value, cap) ==>
              LoadChild(old(repo.At(h)), c.value, cap) == Loaded(repo.At(h), if ok then Done else Stopped)
    decreases c.value, 2
  {
    hide GetAt, PutAt, LoadFolderInto, LoadRecordInto, LoadRecord, Tagged;
    if c.tag.FolderTag? {
      ok := LoadFolderFromXml(repo, h, c, cap);
    } else {
      ok := LoadRecordFromXml(repo, h, c, cap);
    }
  }
}
