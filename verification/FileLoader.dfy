/**
 Loading and saving the registry file (source/PsmFileLoader/psm_flo_control.c): the
 folder under which the configuration lives is translated from and to a stored document.
 */
module FileLoader {
  import opened RecordXml
  import opened FolderTree
  import opened FolderPaths
  import opened FolderRepository
  import opened XmlNodes
  import opened SaveAndLoad
  import opened Translator

  /** What reading the current configuration and parsing it gives. */
  datatype Stored = Missing | Garbled | Document(x: Xml)

  datatype Status = Success | NotReady | AccessDenied | NotRead | BadFormat | NotLoaded | NotEncoded | NotSaved

  const PROVISION: Path := ["Configuration", "Provision"]

  /** The node a save starts from. */
  const ROOT_NODE := Xml(OtherTag("Provision"), map[], NoData, [])

  /** `AnscXmlDomParseString`, once the text is well formed: the nodes of a document. */
  method BuildNodes(x: Xml) returns (n: XmlNode)
    ensures n.Valid() && fresh(n.repr) && n.value == x
    decreases x
  {
    n := new XmlNode(x.tag);
    n.SetData(x.data);
    n.attrs := x.attrs;
    n.value := n.value.(attrs := x.attrs);
    for i := 0 to |x.children|
      invariant n.Valid() && fresh(n.repr) && n.value == Xml(x.tag, x.attrs, x.data, x.children[..i])
    {
      var c := BuildNodes(x.children[i]);
      n.AddChild(c);
      n.Settle(c);
      assert x.children[..i + 1] == x.children[..i] + [x.children[i]];
    }
  }

  class FileLoader {
    const repo: Repository
    const cap: nat
    var active: bool
    /** How often write access to the repository is held. */
    var writers: int
    var stored: Stored

    constructor (repo: Repository, cap: nat, stored: Stored)
      ensures this.repo == repo && this.cap == cap && this.stored == stored && active && writers == 0
    {
      this.repo, this.cap, this.stored, active, writers := repo, cap, stored, true, 0;
    }

    /**
     `PsmFloLoadRegFile`: whichever way it ends, no handle stays open and the tree outside the
     folder is untouched; a document whose values are known is loaded as it says.
     */
    method LoadRegFile() returns (status: Status)
      requires repo.Valid() && (stored.Document? ==> Tagged(stored.x))
      modifies repo
      ensures repo.Valid() && repo.open == old(repo.open)
      ensures !active || !Has(old(repo.root), PROVISION) || !stored.Document? ==> repo.root == old(repo.root)
      ensures !active ==> status == NotReady
      ensures active && !Has(old(repo.root), PROVISION) ==> status == AccessDenied
      ensures active && Has(old(repo.root), PROVISION) ==>
                && Has(repo.root, PROVISION)
                && Ends(status, old(GetAt(repo.root, PROVISION).value), GetAt(repo.root, PROVISION).value)
                && repo.root == PutAt(old(repo.root), PROVISION, GetAt(repo.root, PROVISION).value)
    {
      hide LoadInto, GetAt, PutAt, Known, Tagged, PROVISION, Ends;
      if !active {
        return NotReady;
      }
      if !Has(repo.root, PROVISION) {
        return AccessDenied;
      }
      var h := repo.Open(PROVISION);
      status := LoadStored(h);
      repo.CloseFolder(h);
    }

    /** The status of a load, and what became of the folder it loaded into. */
    ghost predicate Ends(status: Status, before: Folder, after: Folder)
      reads this
    {
      match stored
      case Missing => status == NotRead && after == before
      case Garbled => status == BadFormat && after == before
      case Document(x) =>
        && (status == Success || status == NotLoaded)
        && (Known(x, cap) ==>
              LoadInto(before, x.children, cap) == Loaded(after, if status == Success then Done else Stopped))
    }

    /** Between opening the folder and closing it. */
    method LoadStored(h: Handle) returns (status: Status)
      requires repo.Valid() && repo.Live(h) && (stored.Document? ==> Tagged(stored.x))
      modifies repo
      ensures repo.Valid() && repo.open == old(repo.open) && repo.Live(h)
      ensures Ends(status, old(repo.At(h)), repo.At(h))
      ensures repo.root == PutAt(old(repo.root), repo.open[h], repo.At(h))
      ensures !stored.Document? ==> repo.root == old(repo.root)
    {
      hide LoadInto, Known, Tagged, PutAt, GetAt;
      PutAtFacts(repo.root, repo.open[h], repo.At(h));
      match stored {
        case Missing => status := NotRead;
        case Garbled => status := BadFormat;
        case Document(x) =>
          var n := BuildNodes(x);
          var ok := FolderFromXml(repo, h, n, cap);
          status := if ok then Success else NotLoaded;
      }
    }

    /** `AcqWriteAccess`; `granted` is its answer. */
    method AcquireWrite(granted: bool)
      modifies `writers
      ensures writers == old(writers) + if granted then 1 else 0
    {
      if granted {
        writers := writers + 1;
      }
    }

    /** `RelWriteAccess`. */
    method ReleaseWrite()
      modifies `writers
      ensures writers == old(writers) - 1
    {
      writers := writers - 1;
    }

    /** The folder of a handle, translated and encoded. */
    method EncodeFolder(h: Handle) returns (x: Xml)
      requires repo.Valid() && repo.Live(h) && TreeSized(repo.At(h)) && Distinct(repo.At(h))
      modifies repo`open, repo`next
      ensures repo.Valid() && repo.open == old(repo.open) && x == WriteInto(ROOT_NODE, repo.At(h)) && Tagged(x)
    {
      WrittenTagged(ROOT_NODE, repo.At(h));
      hide WriteInto, TreeSized, Distinct, Tagged;
      var n := new XmlNode(OtherTag("Provision"));
      FolderToXml(repo, h, n);
      x := Read(n);
    }

    /**
     `PsmFloSaveRegFile`; `granted` and `regranted` are the answers of the lock, `encoded` that
     of encoding the document, `saved` that of the configuration manager, and `left` what its
     failed save leaves to be read.  Whichever way it ends, every handle is closed and the
     repository keeps its tree.  Write access is given back as often as it was taken, unless
     taking it again after the save is refused: that answer is not looked at, and the access
     is given back once too often.
     */
    method SaveRegFile(granted: bool, encoded: bool, saved: bool, left: Stored, regranted: bool)
        returns (status: Status)
      requires repo.Valid()
      requires Has(repo.root, PROVISION) ==>
                 TreeSized(GetAt(repo.root, PROVISION).value) && Distinct(GetAt(repo.root, PROVISION).value)
      modifies repo`open, repo`next, `writers, `stored
      ensures repo.Valid() && repo.open == old(repo.open)
      ensures status == if !active then NotReady
                        else if !granted || !Has(repo.root, PROVISION) then AccessDenied
                        else if !encoded then NotEncoded
                        else if !saved then NotSaved else Success
      ensures writers == old(writers) - if (status == Success || status == NotSaved) && !regranted then 1 else 0
      ensures stored == if status == Success then Document(WriteInto(ROOT_NODE, GetAt(repo.root, PROVISION).value))
                        else if status == NotSaved then left
                        else old(stored)
      ensures status == Success ==> Tagged(stored.x)
    {
      hide WriteInto, GetAt, PROVISION, TreeSized, Distinct, ROOT_NODE, Tagged;
      if !active {
        return NotReady;
      }
      AcquireWrite(granted);
      if !granted {
        return AccessDenied;
      }
      if !Has(repo.root, PROVISION) {
        ReleaseWrite();
        return AccessDenied;
      }
      var h := repo.Open(PROVISION);
      var x := EncodeFolder(h);
      if encoded {
        ReleaseWrite();
        stored := if saved then Document(x) else left;
        AcquireWrite(regranted);
      }
      repo.CloseFolder(h);
      ReleaseWrite();
      status := if !encoded then NotEncoded else if saved then Success else NotSaved;
    }
  }

  /** `AnscXmlDomNodeEncode`: the document of a node. */
  method Read(n: XmlNode) returns (x: Xml)
    requires n.Valid()
    ensures x == n.value
    decreases n.repr
  {
    var xs := [];
    for i := 0 to |n.children|
      invariant xs == n.value.children[..i]
    {
      var c := Read(n.children[i]);
      xs := xs + [c];
    }
    x := Xml(n.tag, n.attrs, n.data, xs);
  }
}
