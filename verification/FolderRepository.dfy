/**
 The folder repository behind the interface the translator calls: one tree, and open
 folders named by handles.  A handle is given out once, and closing needs an open one, so
 nothing can be closed twice.
 */
module FolderRepository {
  import opened CStrings
  import opened Numbers
  import opened RecordXml
  import opened FolderTree
  import opened FolderPaths

  type Handle = nat

  class Repository {
    var root: Folder
    var open: map<Handle, Path>
    var next: Handle

    constructor ()
      ensures Valid() && root == EMPTY && open == map[]
    {
      root, open, next := EMPTY, map[], 0;
    }

    /** Handles yet to be given out are not open. */
    ghost predicate Valid()
      reads this
    {
      forall h :: h in open ==> h < next
    }

    /** An open handle of a folder that exists. */
    ghost predicate Live(h: Handle)
      reads this
    {
      h in open && Has(root, open[h])
    }

    function At(h: Handle): Folder
      requires Live(h)
      reads this
    {
      GetAt(root, open[h]).value
    }

    method Open(p: Path) returns (h: Handle)
      requires Valid() && Has(root, p)
      modifies `open, `next
      ensures Valid() && h !in old(open) && open == old(open)[h := p] && Live(h)
    {
      h := next;
      open, next := open[h := p], next + 1;
    }

    /** `OpenFolder` of a subfolder. */
    method OpenFolder(h: Handle, name: string) returns (c: Option<Handle>)
      requires Valid() && Live(h)
      modifies `open, `next
      ensures Valid()
      ensures c.Some? <==> old(GetSub(At(h), name)).Some?
      ensures c.None? ==> open == old(open)
      ensures c.Some? ==> c.value !in old(open) && open == old(open)[c.value := old(open)[h] + [name]]
    {
      ChildGet(root, open[h], name);
      if Has(root, open[h] + [name]) {
        var n := Open(open[h] + [name]);
        c := Some(n);
      } else {
        c := None;
      }
    }

    /** `AddFolder`: the subfolder, made if there is none, and opened. */
    method AddFolder(h: Handle, name: string) returns (c: Handle)
      requires Valid() && Live(h)
      modifies this
      ensures Valid() && c !in old(open) && open == old(open)[c := old(open)[h] + [name]]
      ensures root == PutAt(old(root), old(open)[h], PutSub(old(At(h)), name, AddedSub(old(At(h)), name)))
      ensures Live(c) && At(c) == AddedSub(old(At(h)), name)
    {
      ghost var p, f := open[h], At(h);
      Replace(h, PutSub(At(h), name, AddedSub(At(h), name)));
      PutSubFacts(f, name, AddedSub(f, name), EMPTY);
      ChildGet(root, p, name);
      c := Open(open[h] + [name]);
    }

    /** `CloseFolder`. */
    method CloseFolder(h: Handle)
      requires Valid() && h in open
      modifies `open
      ensures Valid() && open == old(open) - {h}
    {
      open := open - {h};
    }

    /** The folder of a handle becomes another; the rest of the tree stays. */
    method Replace(h: Handle, f: Folder)
      requires Live(h)
      modifies `root
      ensures root == PutAt(old(root), open[h], f) && Live(h) && At(h) == f
    {
      PutAtFacts(root, open[h], f);
      root := PutAt(root, open[h], f);
    }

    /** `AddRecord2`. */
    method AddRecord(h: Handle, r: Record)
      requires Live(h)
      modifies `root
      ensures root == PutAt(old(root), open[h], PutRecord(old(At(h)), r)) && Live(h)
      ensures At(h) == PutRecord(old(At(h)), r)
    {
      Replace(h, PutRecord(At(h), r));
    }

    /** `SetRfoFolderType`. */
    method SetFolderType(h: Handle, ftype: nat)
      requires Live(h)
      modifies `root
      ensures root == PutAt(old(root), open[h], old(At(h)).(ftype := ftype)) && Live(h)
      ensures At(h) == old(At(h)).(ftype := ftype)
    {
      Replace(h, At(h).(ftype := ftype));
    }

    /** `SetRfoRenderAttr` with a content type. */
    method SetContentType(h: Handle, ctype: nat)
      requires Live(h)
      modifies `root
      ensures root == PutAt(old(root), open[h], old(At(h)).(ctype := ctype)) && Live(h)
      ensures At(h) == old(At(h)).(ctype := ctype)
    {
      Replace(h, At(h).(ctype := ctype));
    }

    /** `SetRfoPermission`. */
    method SetPermission(h: Handle, permission: u32)
      requires Live(h)
      modifies `root
      ensures root == PutAt(old(root), open[h], old(At(h)).(permission := permission)) && Live(h)
      ensures At(h) == old(At(h)).(permission := permission)
    {
      Replace(h, At(h).(permission := permission));
    }
  }
}
