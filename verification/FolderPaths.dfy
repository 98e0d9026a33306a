/** Folders below a folder, by path. */
module FolderPaths {
  import opened CStrings
  import opened FolderTree

  type Path = seq<string>

  function GetAt(f: Folder, p: Path): Option<Folder> {
    if p == [] then Some(f)
    else match GetSub(f, p[0]) case None => None case Some(g) => GetAt(g, p[1..])
  }

  predicate Has(f: Folder, p: Path) {
    GetAt(f, p).Some?
  }

  /** `f` with the folder at `p` replaced by `g`. */
  function PutAt(f: Folder, p: Path, g: Folder): Folder
    requires Has(f, p)
  {
    if p == [] then g else PutSub(f, p[0], PutAt(GetSub(f, p[0]).value, p[1..], g))
  }

  lemma SubAtFound(ss: seq<Sub>, name: string, k: nat)
    requires k < |ss| && ss[k].name == name && forall i :: 0 <= i < k ==> ss[i].name != name
    ensures SubAt(ss, name) == k
  {
  }

  lemma PutSubFacts(f: Folder, name: string, g: Folder, h: Folder)
    ensures GetSub(PutSub(f, name, g), name) == Some(g)
    ensures PutSub(PutSub(f, name, g), name, h) == PutSub(f, name, h)
    ensures GetSub(f, name) == Some(g) ==> PutSub(f, name, g) == f
  {
    var k := SubAt(f.subs, name);
    SubAtFound(PutSub(f, name, g).subs, name, k);
    hide SubAt;
    if GetSub(f, name) == Some(g) {
      assert f.subs[k] == Sub(name, g);
    }
  }

  lemma {:induction false} PutAtFacts(f: Folder, p: Path, g: Folder)
    requires Has(f, p)
    ensures GetAt(PutAt(f, p, g), p) == Some(g)
    ensures PutAt(f, p, GetAt(f, p).value) == f
    decreases |p|
  {
    hide GetSub, PutSub;
    if p == [] {
    } else {
      var s := GetSub(f, p[0]).value;
      PutAtFacts(s, p[1..], g);
      PutSubFacts(f, p[0], PutAt(s, p[1..], g), g);
      PutSubFacts(f, p[0], s, s);
    }
  }

  lemma {:induction false} PutPut(f: Folder, p: Path, g: Folder, h: Folder)
    requires Has(f, p)
    ensures Has(PutAt(f, p, g), p) && PutAt(PutAt(f, p, g), p, h) == PutAt(f, p, h)
    decreases |p|
  {
    hide GetSub, PutSub;
    PutAtFacts(f, p, g);
    if p == [] {
    } else {
      var s := GetSub(f, p[0]).value;
      PutPut(s, p[1..], g, h);
      PutSubFacts(f, p[0], PutAt(s, p[1..], g), PutAt(s, p[1..], h));
    }
  }

  /** A subfolder of the folder at `p` is the folder at `p + [name]`. */
  lemma {:induction false} ChildGet(f: Folder, p: Path, name: string)
    requires Has(f, p)
    ensures GetAt(f, p + [name]) == GetSub(GetAt(f, p).value, name)
    decreases |p|
  {
    hide GetSub;
    if p != [] {
      assert (p + [name])[0] == p[0] && (p + [name])[1..] == p[1..] + [name];
      ChildGet(GetSub(f, p[0]).value, p[1..], name);
    } else {
      assert GetAt(f, [] + [name]) == GetSub(f, name) by {
        assert ([] + [name])[1..] == [];
      }
    }
  }

  lemma {:induction false} ChildPut(f: Folder, p: Path, name: string, h: Folder)
    requires Has(f, p) && Has(f, p + [name])
    ensures PutAt(f, p + [name], h) == PutAt(f, p, PutSub(GetAt(f, p).value, name, h))
    decreases |p|
  {
    hide GetSub, PutSub;
    ChildGet(f, p, name);
    if p != [] {
      assert (p + [name])[0] == p[0] && (p + [name])[1..] == p[1..] + [name];
      ChildGet(GetSub(f, p[0]).value, p[1..], name);
      ChildPut(GetSub(f, p[0]).value, p[1..], name, h);
    } else {
      assert (p + [name])[0] == name && (p + [name])[1..] == [];
    }
  }

  /** Adding a subfolder and then changing it is adding it as changed. */
  lemma AddThenChange(f: Folder, p: Path, name: string, g: Folder, h: Folder)
    requires Has(f, p)
    ensures var f1 := PutAt(f, p, PutSub(GetAt(f, p).value, name, g));
            && Has(f1, p + [name]) && GetAt(f1, p + [name]) == Some(g)
            && PutAt(f1, p + [name], h) == PutAt(f, p, PutSub(GetAt(f, p).value, name, h))
  {
    hide GetSub, PutSub, GetAt, PutAt;
    var s := GetAt(f, p).value;
    var f1 := PutAt(f, p, PutSub(s, name, g));
    PutAtFacts(f, p, PutSub(s, name, g));
    PutSubFacts(s, name, g, h);
    ChildGet(f1, p, name);
    ChildPut(f1, p, name, h);
    PutPut(f, p, PutSub(s, name, g), PutSub(s, name, h));
  }

  // ---------- what a change of one folder leaves alone ----------

  /** The other subfolders, the records and the folder's attributes stay. */
  lemma PutSubKeeps(f: Folder, name: string, g: Folder, other: string)
    requires name != other
    ensures GetSub(PutSub(f, name, g), other) == GetSub(f, other)
    ensures PutSub(f, name, g).(subs := []) == f.(subs := [])
  {
    var k, m := SubAt(f.subs, name), SubAt(f.subs, other);
    var ss := PutSub(f, name, g).subs;
    hide SubAt;
    assert forall i :: 0 <= i < |f.subs| && i != k ==> ss[i] == f.subs[i];
    if m < |f.subs| {
      SubAtFound(ss, other, m);
    } else {
      var j := SubAt(ss, other);
      assert forall i :: 0 <= i < |ss| ==> ss[i].name != other;
    }
  }

  /** The two paths part somewhere. */
  predicate Apart(p: Path, q: Path) {
    p != [] && q != [] && (p[0] != q[0] || Apart(p[1..], q[1..]))
  }

  /** A folder that is not below or above the changed one stays. */
  lemma {:induction false} PutAtKeepsOthers(f: Folder, p: Path, g: Folder, q: Path)
    requires Has(f, p) && Apart(p, q)
    ensures GetAt(PutAt(f, p, g), q) == GetAt(f, q)
    decreases |p|
  {
    hide GetSub, PutSub;
    var s := GetSub(f, p[0]).value;
    var t := PutAt(s, p[1..], g);
    if p[0] != q[0] {
      PutSubKeeps(f, p[0], t, q[0]);
    } else {
      PutAtKeepsOthers(s, p[1..], g, q[1..]);
      PutSubFacts(f, p[0], t, t);
    }
  }

  /** One above it keeps its records and attributes. */
  lemma {:induction false} PutAtKeepsAbove(f: Folder, p: Path, g: Folder, q: Path)
    requires Has(f, p) && q < p
    ensures Has(f, q) && Has(PutAt(f, p, g), q)
    ensures GetAt(PutAt(f, p, g), q).value.(subs := []) == GetAt(f, q).value.(subs := [])
    decreases |p|
  {
    hide GetSub, PutSub;
    var s := GetSub(f, p[0]).value;
    var t := PutAt(s, p[1..], g);
    if q == [] {
      PutSubKeeps(f, p[0], t, p[0] + ".");
    } else {
      PutAtKeepsAbove(s, p[1..], g, q[1..]);
      PutSubFacts(f, p[0], t, t);
    }
  }
}
