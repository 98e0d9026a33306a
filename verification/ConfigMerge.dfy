/**
 What the boot-time merge of the configuration sources means
 (source/Ssp/ssp_cfmif.c): which source each name's record comes from, and that a
 second boot rewrites the file the first one wrote, byte for byte.
 */
module ConfigMerge {
  import opened CStrings
  import opened RecordText
  import opened ConfigText
  import opened RecordChains

  /** An entry of `parm_present_table`: a parameter and its name in the bootstrap file. */
  datatype Watch = Watch(name: string, partnerName: string)

  /**
   Everything the merge reads beside the current and backup files.  None stands for a
   source that cannot be read; `bootstrap` maps partner names to their active values.
   */
  datatype Inputs = Inputs(custom: Option<seq<Param>>, def: Option<string>, partners: Option<seq<Param>>,
                           watch: seq<Watch>, bootstrap: Option<map<string, string>>)

  /** The present flags after `IsParameterMissed`: a flag, once set, stays set. */
  function Flags(t: Table, watch: seq<Watch>, flags: seq<bool>): (f: seq<bool>)
    requires |t| == SIZE && |flags| == |watch|
    ensures |f| == |watch|
    ensures forall i :: 0 <= i < |watch| ==> f[i] == (flags[i] || Lookup(t, watch[i].name).Some?)
  {
    seq(|watch|, i requires 0 <= i < |watch| => flags[i] || Lookup(t, watch[i].name).Some?)
  }

  /** The record, if any, that `merge_missing_Partner_params` inserts for one entry. */
  function BootRec(w: Watch, present: bool, bootstrap: map<string, string>): seq<Rec> {
    if present || w.name == "" || w.partnerName !in bootstrap then []
    else [Rec(w.name, "astr", None, Some(bootstrap[w.partnerName]))]
  }

  function BootRecs(watch: seq<Watch>, flags: seq<bool>, bootstrap: map<string, string>): (rs: seq<Rec>)
    requires |flags| == |watch|
    ensures AllNamed(rs)
  {
    if watch == [] then []
    else BootRec(watch[0], flags[0], bootstrap) + BootRecs(watch[1..], flags[1..], bootstrap)
  }

  /** The file that is loaded: the current one, or the backup when the current one cannot be opened. */
  function Source(cur: Option<string>, bak: Option<string>): Option<string> {
    if cur.Some? then cur else bak
  }

  /** The table before the bootstrap values are considered. */
  function MergedParts(src: Option<string>, inp: Inputs): (t: Table)
    ensures |t| == SIZE
  {
    var t0 := AppendAll(Empty(), FileRecs(src));
    var t1 := InsertAll(t0, GivenRecs(inp.custom), false);
    var t2 := InsertAll(t1, FileRecs(inp.def), false);
    InsertAll(t2, GivenRecs(inp.partners), true)
  }

  /** The table after `merge_missing_Partner_params`. */
  function Bootstrapped(t: Table, watch: seq<Watch>, bootstrap: Option<map<string, string>>, flags: seq<bool>)
    : (t': Table)
    requires |t| == SIZE && |flags| == |watch|
    ensures |t'| == SIZE
  {
    if bootstrap.None? then t
    else InsertAll(t, BootRecs(watch, Flags(t, watch, flags), bootstrap.value), false)
  }

  /** The table `ssp_CfmReadCurConfig` flushes. */
  function Merged(src: Option<string>, inp: Inputs, flags: seq<bool>): (t: Table)
    requires |flags| == |inp.watch|
    ensures |t| == SIZE
  {
    Bootstrapped(MergedParts(src, inp), inp.watch, inp.bootstrap, flags)
  }

  // ---------- which source a record comes from ----------

  /** The first of two choices that is there. */
  function Or(a: Option<Rec>, b: Option<Rec>): Option<Rec> {
    if a.Some? then a else b
  }

  /** The bootstrap value of a name: that of its first entry not yet flagged that has one. */
  function BootValue(name: string, watch: seq<Watch>, flags: seq<bool>, bootstrap: Option<map<string, string>>)
    : Option<Rec>
    requires |flags| == |watch|
  {
    if watch == [] || bootstrap.None? then None
    else Or(First(BootRec(watch[0], flags[0], bootstrap.value), name),
            BootValue(name, watch[1..], flags[1..], bootstrap))
  }

  lemma {:induction false} FirstConcat(a: seq<Rec>, b: seq<Rec>, name: string)
    ensures First(a + b, name) == Or(First(a, name), First(b, name))
    decreases a
  {
    if a == [] {
      assert a + b == b;
    } else {
      assert (a + b)[1..] == a[1..] + b;
      FirstConcat(a[1..], b, name);
    }
  }

  lemma {:induction false} BootValueIsFirst(name: string, watch: seq<Watch>, flags: seq<bool>,
                                            bootstrap: map<string, string>)
    requires |flags| == |watch|
    ensures First(BootRecs(watch, flags, bootstrap), name) == BootValue(name, watch, flags, Some(bootstrap))
    decreases watch
  {
    if watch == [] {
    } else {
      BootValueIsFirst(name, watch[1..], flags[1..], bootstrap);
      FirstConcat(BootRec(watch[0], flags[0], bootstrap), BootRecs(watch[1..], flags[1..], bootstrap), name);
      hide BootRec;
    }
  }

  /** A name that is present is flagged, so only names that no other source has get a bootstrap value. */
  lemma {:induction false} NoBootValueWhenPresent(name: string, watch: seq<Watch>, flags: seq<bool>,
                                                  bootstrap: map<string, string>)
    requires |flags| == |watch|
    requires forall i :: 0 <= i < |watch| && watch[i].name == name ==> flags[i]
    ensures First(BootRecs(watch, flags, bootstrap), name) == None
    decreases watch
  {
    if watch == [] {
    } else {
      NoBootValueWhenPresent(name, watch[1..], flags[1..], bootstrap);
      FirstConcat(BootRec(watch[0], flags[0], bootstrap), BootRecs(watch[1..], flags[1..], bootstrap), name);
    }
  }

  lemma LookupEmpty(name: string)
    ensures Lookup(Empty(), name) == None
  {
    hide Bucket;
  }

  lemma LookupParts(src: Option<string>, inp: Inputs, name: string)
    ensures Lookup(MergedParts(src, inp), name) ==
            Or(Last(GivenRecs(inp.partners), name),
               Or(First(FileRecs(src), name),
                  Or(First(GivenRecs(inp.custom), name), First(FileRecs(inp.def), name))))
  {
    hide Lookup, InsertAll, AppendAll, First, Last, FileRecs, GivenRecs;
    var t0 := AppendAll(Empty(), FileRecs(src));
    LookupEmpty(name);
    LookupAppendAll(Empty(), FileRecs(src), name);
    var t1 := InsertAll(t0, GivenRecs(inp.custom), false);
    LookupInsertAllKeep(t0, GivenRecs(inp.custom), name);
    var t2 := InsertAll(t1, FileRecs(inp.def), false);
    LookupInsertAllKeep(t1, FileRecs(inp.def), name);
    LookupInsertAllOver(t2, GivenRecs(inp.partners), name);
  }

  /**
   Merge meaning: each name's record is the last partner override if there is one, else the
   first in the loaded file, else the first custom one, else the first default one, else the
   bootstrap value of an entry whose flag was not set before.
   */
  lemma MergeMeaning(src: Option<string>, inp: Inputs, flags: seq<bool>, name: string)
    requires |flags| == |inp.watch|
    ensures Lookup(Merged(src, inp, flags), name) ==
            Or(Last(GivenRecs(inp.partners), name),
               Or(First(FileRecs(src), name),
                  Or(First(GivenRecs(inp.custom), name),
                     Or(First(FileRecs(inp.def), name),
                        BootValue(name, inp.watch, Flags(MergedParts(src, inp), inp.watch, flags), inp.bootstrap)))))
  {
    var t := MergedParts(src, inp);
    LookupParts(src, inp, name);
    hide MergedParts, Lookup, InsertAll, BootRecs, First, Last, FileRecs, GivenRecs;
    var f := Flags(t, inp.watch, flags);
    match inp.bootstrap {
      case None =>
      case Some(b) =>
        LookupInsertAllKeep(t, BootRecs(inp.watch, f, b), name);
        BootValueIsFirst(name, inp.watch, f, b);
    }
  }

  // ---------- the shape of the merged table ----------

  lemma {:induction false} FileRecsNamed(text: string)
    ensures AllNamed(ParseText(text))
    decreases |text|
  {
    if text == "" {
    } else {
      var n := FgetsLength(text);
      FileRecsNamed(text[n..]);
      LineRecNamed(text[..n]);
      hide FgetsLength, LineRecord;
    }
  }

  lemma LineRecNamed(line: string)
    ensures AllNamed(LineRecord(line))
  {
    ParseYieldsClean(CStr(line, 0));
    hide ParseLine, CStr;
  }

  lemma GivenFileNamed(file: Option<string>)
    ensures AllNamed(FileRecs(file))
  {
    if file.Some? {
      FileRecsNamed(file.value);
    }
    hide ParseText;
  }

  lemma MergedWellFormed(src: Option<string>, inp: Inputs, flags: seq<bool>)
    requires |flags| == |inp.watch|
    ensures WellFormed(MergedParts(src, inp)) && WellFormed(Merged(src, inp, flags))
  {
    hide InsertAll, AppendAll, WellFormed, BootRecs, FileRecs, GivenRecs;
    GivenFileNamed(src);
    GivenFileNamed(inp.def);
    var t0 := AppendAll(Empty(), FileRecs(src));
    AppendAllWellFormed(Empty(), FileRecs(src));
    var t1 := InsertAll(t0, GivenRecs(inp.custom), false);
    InsertAllWellFormed(t0, GivenRecs(inp.custom), false);
    var t2 := InsertAll(t1, FileRecs(inp.def), false);
    InsertAllWellFormed(t1, FileRecs(inp.def), false);
    var t3 := InsertAll(t2, GivenRecs(inp.partners), true);
    InsertAllWellFormed(t2, GivenRecs(inp.partners), true);
    if inp.bootstrap.Some? {
      InsertAllWellFormed(t3, BootRecs(inp.watch, Flags(t3, inp.watch, flags), inp.bootstrap.value), false);
    }
  }

  ghost predicate DistinctRecs(rs: seq<Rec>) {
    forall i, j :: 0 <= i < j < |rs| ==> rs[i].name != rs[j].name
  }

  lemma {:induction false} InBucketNames(rs: seq<Rec>, i: nat)
    ensures forall r :: r in InBucket(rs, i) ==> r in rs
    decreases rs
  {
    if rs == [] {
    } else {
      InBucketNames(rs[1..], i);
    }
  }

  lemma {:induction false} DistinctInBucket(rs: seq<Rec>, i: nat)
    requires DistinctRecs(rs)
    ensures DistinctChain(InBucket(rs, i))
    decreases rs
  {
    if rs == [] {
    } else {
      DistinctInBucket(rs[1..], i);
      InBucketNames(rs[1..], i);
      InBucketCons(rs, i);
      hide Bucket, InBucket;
      assert forall r :: r in rs[1..] ==> r.name != rs[0].name;
    }
  }

  /** If the loaded file names each record once, so does the merged table. */
  lemma MergedDistinct(src: Option<string>, inp: Inputs, flags: seq<bool>)
    requires |flags| == |inp.watch| && DistinctRecs(FileRecs(src))
    ensures Distinct(Merged(src, inp, flags))
  {
    hide InsertAll, AppendAll, BootRecs, FileRecs, GivenRecs, DistinctChain, InBucket;
    var t0 := AppendAll(Empty(), FileRecs(src));
    forall i | 0 <= i < SIZE ensures DistinctChain(t0[i]) {
      AppendAllChain(Empty(), FileRecs(src), i);
      DistinctInBucket(FileRecs(src), i);
      assert [] + InBucket(FileRecs(src), i) == InBucket(FileRecs(src), i);
    }
    hide Distinct;
    var t1 := InsertAll(t0, GivenRecs(inp.custom), false);
    InsertAllDistinct(t0, GivenRecs(inp.custom), false);
    var t2 := InsertAll(t1, FileRecs(inp.def), false);
    InsertAllDistinct(t1, FileRecs(inp.def), false);
    var t3 := InsertAll(t2, GivenRecs(inp.partners), true);
    InsertAllDistinct(t2, GivenRecs(inp.partners), true);
    if inp.bootstrap.Some? {
      InsertAllDistinct(t3, BootRecs(inp.watch, Flags(t3, inp.watch, flags), inp.bootstrap.value), false);
    }
  }

  // ---------- the second boot ----------

  /** Every record of the list has its name in the table. */
  ghost predicate AllPresent(t: Table, rs: seq<Rec>)
    requires |t| == SIZE
  {
    forall i :: 0 <= i < |rs| ==> Lookup(t, rs[i].name).Some?
  }

  /** Every record of the list is the one its name finds. */
  ghost predicate AllInForce(t: Table, rs: seq<Rec>)
    requires |t| == SIZE
  {
    forall i :: 0 <= i < |rs| ==> Lookup(t, rs[i].name) == Some(rs[i])
  }

  lemma InsertIdle(t: Table, r: Rec, overwrite: bool)
    requires |t| == SIZE
    requires if overwrite then Lookup(t, r.name) == Some(r) else Lookup(t, r.name).Some?
    ensures RecordChains.Insert(t, r, overwrite) == t
  {
    hide Bucket;
    var c := t[Bucket(r.name)];
    var k := IndexOf(c, r.name).value;
    assert overwrite ==> c[k := r] == c;
    assert t[Bucket(r.name) := c] == t;
  }

  lemma {:induction false} InsertPresentIdle(t: Table, rs: seq<Rec>)
    requires |t| == SIZE && AllPresent(t, rs)
    ensures InsertAll(t, rs, false) == t
    decreases rs
  {
    hide Lookup, RecordChains.Insert;
    if rs == [] {
    } else {
      InsertIdle(t, rs[0], false);
      InsertPresentIdle(t, rs[1..]);
    }
  }

  lemma {:induction false} InsertInForceIdle(t: Table, rs: seq<Rec>)
    requires |t| == SIZE && AllInForce(t, rs)
    ensures InsertAll(t, rs, true) == t
    decreases rs
  {
    hide Lookup, RecordChains.Insert;
    if rs == [] {
    } else {
      InsertIdle(t, rs[0], true);
      InsertInForceIdle(t, rs[1..]);
    }
  }

  lemma {:induction false} FirstFinds(rs: seq<Rec>, i: nat)
    requires i < |rs|
    ensures First(rs, rs[i].name).Some?
    decreases rs
  {
    if i > 0 {
      FirstFinds(rs[1..], i - 1);
    }
  }

  function NormOption(r: Option<Rec>): Option<Rec> {
    match r case None => None case Some(r) => Some(Norm(r))
  }

  lemma LookupNorm(t: Table, name: string)
    requires |t| == SIZE
    ensures Lookup(NormTable(t), name) == NormOption(Lookup(t, name))
  {
    var c := t[Bucket(name)];
    hide Bucket, Norm;
    NormKeepsNames(c);
    match IndexOf(c, name) {
      case None =>
      case Some(k) => IndexOfIs(NormAll(c), name, k);
    }
  }

  lemma NormKeepsNames(c: Chain)
    ensures forall i :: 0 <= i < |c| ==> NormAll(c)[i].name == c[i].name
  {
  }

  /** Reading the flushed file and merging the same custom and default records changes nothing. */
  lemma RereadParts(src: Option<string>, inp: Inputs, flags: seq<bool>, partners: Option<seq<Param>>)
    requires |flags| == |inp.watch| && TableLoadable(Merged(src, inp, flags))
    requires AllInForce(NormTable(Merged(src, inp, flags)), GivenRecs(partners))
    ensures var t := Merged(src, inp, flags);
            MergedParts(Some(FlushText(Flat(t))), inp.(partners := partners)) == NormTable(t)
  {
    hide *;
    var t := Merged(src, inp, flags);
    var n := NormTable(t);
    MergedWellFormed(src, inp, flags);
    TableRoundTrip(t);
    forall i | 0 <= i < |GivenRecs(inp.custom)| ensures Lookup(n, GivenRecs(inp.custom)[i].name).Some? {
      CustomPresent(src, inp, flags, i);
    }
    forall i | 0 <= i < |FileRecs(inp.def)| ensures Lookup(n, FileRecs(inp.def)[i].name).Some? {
      DefaultPresent(src, inp, flags, i);
    }
    PartsIdle(FlushText(Flat(t)), inp.(partners := partners), n);
  }

  lemma PartsIdle(text: string, inp: Inputs, n: Table)
    requires |n| == SIZE && AppendAll(Empty(), ParseText(text)) == n
    requires forall i :: 0 <= i < |GivenRecs(inp.custom)| ==> Lookup(n, GivenRecs(inp.custom)[i].name).Some?
    requires forall i :: 0 <= i < |FileRecs(inp.def)| ==> Lookup(n, FileRecs(inp.def)[i].name).Some?
    requires AllInForce(n, GivenRecs(inp.partners))
    ensures MergedParts(Some(text), inp) == n
  {
    hide ParseText, GivenRecs, Lookup, AppendAll, InsertAll;
    InsertPresentIdle(n, GivenRecs(inp.custom));
    InsertPresentIdle(n, FileRecs(inp.def));
    InsertInForceIdle(n, GivenRecs(inp.partners));
  }

  lemma CustomPresent(src: Option<string>, inp: Inputs, flags: seq<bool>, i: nat)
    requires |flags| == |inp.watch| && i < |GivenRecs(inp.custom)|
    ensures Lookup(NormTable(Merged(src, inp, flags)), GivenRecs(inp.custom)[i].name).Some?
  {
    hide Merged, NormTable, Lookup, GivenRecs, FileRecs, First, Last, BootValue, MergedParts;
    FirstFinds(GivenRecs(inp.custom), i);
    MergeMeaning(src, inp, flags, GivenRecs(inp.custom)[i].name);
    LookupNorm(Merged(src, inp, flags), GivenRecs(inp.custom)[i].name);
  }

  lemma DefaultPresent(src: Option<string>, inp: Inputs, flags: seq<bool>, i: nat)
    requires |flags| == |inp.watch| && i < |FileRecs(inp.def)|
    ensures Lookup(NormTable(Merged(src, inp, flags)), FileRecs(inp.def)[i].name).Some?
  {
    hide Merged, NormTable, Lookup, GivenRecs, FileRecs, First, Last, BootValue, MergedParts;
    FirstFinds(FileRecs(inp.def), i);
    MergeMeaning(src, inp, flags, FileRecs(inp.def)[i].name);
    LookupNorm(Merged(src, inp, flags), FileRecs(inp.def)[i].name);
  }

  /** An entry with a bootstrap value that was not flagged before the merge is present after it. */
  lemma {:induction false} BootValueFound(watch: seq<Watch>, flags: seq<bool>, bootstrap: map<string, string>, i: nat)
    requires |flags| == |watch| && i < |watch|
    requires !flags[i] && watch[i].name != "" && watch[i].partnerName in bootstrap
    ensures BootValue(watch[i].name, watch, flags, Some(bootstrap)).Some?
    decreases watch
  {
    if i > 0 {
      BootValueFound(watch[1..], flags[1..], bootstrap, i - 1);
    }
  }

  lemma {:induction false} NoBootRecs(watch: seq<Watch>, flags: seq<bool>, bootstrap: map<string, string>)
    requires |flags| == |watch|
    requires forall i :: 0 <= i < |watch| ==> flags[i] || watch[i].name == "" || watch[i].partnerName !in bootstrap
    ensures BootRecs(watch, flags, bootstrap) == []
    decreases watch
  {
    if watch == [] {
    } else {
      NoBootRecs(watch[1..], flags[1..], bootstrap);
    }
  }

  /** With fresh flags the first boot leaves the bootstrap nothing to add in the second. */
  lemma RebootstrapIdle(src: Option<string>, inp: Inputs, flags: seq<bool>, flags2: seq<bool>)
    requires |flags| == |flags2| == |inp.watch| && forall i :: 0 <= i < |flags| ==> !flags[i]
    ensures var n := NormTable(Merged(src, inp, flags)); Bootstrapped(n, inp.watch, inp.bootstrap, flags2) == n
  {
    var t, parts := Merged(src, inp, flags), MergedParts(src, inp);
    var n := NormTable(t);
    match inp.bootstrap {
      case None =>
      case Some(b) =>
        var f, f2 := Flags(parts, inp.watch, flags), Flags(n, inp.watch, flags2);
        hide Merged, MergedParts, NormTable, Lookup, BootValue, First, Last, FileRecs, GivenRecs, InsertAll, BootRecs;
        forall i | 0 <= i < |inp.watch|
          ensures f2[i] || inp.watch[i].name == "" || inp.watch[i].partnerName !in b
        {
          WatchedPresent(src, inp, flags, b, i);
        }
        NoBootRecs(inp.watch, f2, b);
        InsertPresentIdle(n, []);
    }
  }

  lemma WatchedPresent(src: Option<string>, inp: Inputs, flags: seq<bool>, b: map<string, string>, i: nat)
    requires |flags| == |inp.watch| && inp.bootstrap == Some(b) && i < |inp.watch| && !flags[i]
    ensures Lookup(NormTable(Merged(src, inp, flags)), inp.watch[i].name).Some?
         || inp.watch[i].name == "" || inp.watch[i].partnerName !in b
  {
    var name := inp.watch[i].name;
    var f := Flags(MergedParts(src, inp), inp.watch, flags);
    LookupParts(src, inp, name);
    MergeMeaning(src, inp, flags, name);
    LookupNorm(Merged(src, inp, flags), name);
    hide Merged, MergedParts, NormTable, Lookup, BootValue, First, Last, FileRecs, GivenRecs;
    if !f[i] && name != "" && inp.watch[i].partnerName in b {
      BootValueFound(inp.watch, f, b, i);
    }
  }

  lemma {:induction false} PrintNorm(rs: seq<Rec>)
    ensures PrintRecs(NormAll(rs)) == PrintRecs(rs)
    decreases rs
  {
    if rs == [] {
    } else {
      PrintNorm(rs[1..]);
      assert NormAll(rs)[1..] == NormAll(rs[1..]);
      assert PrintRec(Norm(rs[0])) == PrintRec(rs[0]);
      hide PrintRec, Norm;
    }
  }

  /**
   Boot fixpoint: after a first boot with fresh flags whose records the file format can carry,
   a second boot with the same custom, default and bootstrap inputs writes the identical file,
   whatever its flags, provided its partner overrides (if any) are already in force.
   */
  lemma BootFixpoint(src: Option<string>, inp: Inputs, flags: seq<bool>, partners: Option<seq<Param>>,
                     flags2: seq<bool>)
    requires |flags| == |flags2| == |inp.watch| && forall i :: 0 <= i < |flags| ==> !flags[i]
    requires TableLoadable(Merged(src, inp, flags))
    requires AllInForce(NormTable(Merged(src, inp, flags)), GivenRecs(partners))
    ensures var file := FlushText(Flat(Merged(src, inp, flags)));
            FlushText(Flat(Merged(Some(file), inp.(partners := partners), flags2))) == file
  {
    var t := Merged(src, inp, flags);
    var n := NormTable(t);
    RereadParts(src, inp, flags, partners);
    RebootstrapIdle(src, inp, flags, flags2);
    NormFlat(t, 0);
    PrintNorm(Flat(t));
    hide NormTable, FlatFrom, PrintRecs, MergedParts, InsertAll, BootRecs, Flags;
    assert Merged(Some(FlushText(Flat(t))), inp.(partners := partners), flags2) == n;
  }

  // ---------- loadable sources give a loadable table ----------

  /** Every record that some source can contribute is loadable. */
  ghost predicate SourcesLoadable(src: Option<string>, inp: Inputs) {
    && AllLoadable(FileRecs(src)) && AllLoadable(FileRecs(inp.def))
    && AllLoadable(GivenRecs(inp.custom)) && AllLoadable(GivenRecs(inp.partners))
    && (inp.bootstrap.Some? ==> WatchLoadable(inp.watch, inp.bootstrap.value))
  }

  ghost predicate WatchLoadable(watch: seq<Watch>, bootstrap: map<string, string>) {
    forall i :: 0 <= i < |watch| ==> AllLoadable(BootRec(watch[i], false, bootstrap))
  }

  lemma InsertKeepsLoadable(t: Table, r: Rec, overwrite: bool)
    requires |t| == SIZE && TableLoadable(t) && Loadable(r)
    ensures TableLoadable(RecordChains.Insert(t, r, overwrite))
  {
    hide Loadable, Bucket;
  }

  lemma AppendKeepsLoadable(t: Table, r: Rec)
    requires |t| == SIZE && TableLoadable(t) && Loadable(r)
    ensures TableLoadable(RecordChains.Append(t, r))
  {
    hide Loadable, Bucket;
  }

  lemma {:induction false} InsertAllLoadable(t: Table, rs: seq<Rec>, overwrite: bool)
    requires |t| == SIZE && TableLoadable(t) && AllLoadable(rs)
    ensures TableLoadable(InsertAll(t, rs, overwrite))
    decreases rs
  {
    hide Loadable, TableLoadable, RecordChains.Insert;
    if rs == [] {
    } else {
      InsertKeepsLoadable(t, rs[0], overwrite);
      InsertAllLoadable(RecordChains.Insert(t, rs[0], overwrite), rs[1..], overwrite);
    }
  }

  lemma {:induction false} AppendAllLoadable(t: Table, rs: seq<Rec>)
    requires |t| == SIZE && TableLoadable(t) && AllLoadable(rs)
    ensures TableLoadable(AppendAll(t, rs))
    decreases rs
  {
    hide Loadable, TableLoadable, RecordChains.Append;
    if rs == [] {
    } else {
      AppendKeepsLoadable(t, rs[0]);
      AppendAllLoadable(RecordChains.Append(t, rs[0]), rs[1..]);
    }
  }

  lemma {:induction false} BootRecsLoadable(watch: seq<Watch>, flags: seq<bool>, bootstrap: map<string, string>)
    requires |flags| == |watch| && WatchLoadable(watch, bootstrap)
    ensures AllLoadable(BootRecs(watch, flags, bootstrap))
    decreases watch
  {
    hide Loadable;
    if watch == [] {
    } else {
      assert forall i :: 0 <= i < |watch| - 1 ==> watch[1..][i] == watch[i + 1];
      BootRecsLoadable(watch[1..], flags[1..], bootstrap);
      assert AllLoadable(BootRec(watch[0], false, bootstrap));
      assert AllLoadable(BootRec(watch[0], flags[0], bootstrap));
    }
  }

  lemma MergedLoadable(src: Option<string>, inp: Inputs, flags: seq<bool>)
    requires |flags| == |inp.watch| && SourcesLoadable(src, inp)
    ensures TableLoadable(Merged(src, inp, flags))
  {
    assert TableLoadable(Empty());
    hide InsertAll, AppendAll, TableLoadable, AllLoadable, WatchLoadable, BootRecs, FileRecs, GivenRecs;
    var t0 := AppendAll(Empty(), FileRecs(src));
    AppendAllLoadable(Empty(), FileRecs(src));
    var t1 := InsertAll(t0, GivenRecs(inp.custom), false);
    InsertAllLoadable(t0, GivenRecs(inp.custom), false);
    var t2 := InsertAll(t1, FileRecs(inp.def), false);
    InsertAllLoadable(t1, FileRecs(inp.def), false);
    var t3 := InsertAll(t2, GivenRecs(inp.partners), true);
    InsertAllLoadable(t2, GivenRecs(inp.partners), true);
    if inp.bootstrap.Some? {
      BootRecsLoadable(inp.watch, Flags(t3, inp.watch, flags), inp.bootstrap.value);
      InsertAllLoadable(t3, BootRecs(inp.watch, Flags(t3, inp.watch, flags), inp.bootstrap.value), false);
    }
  }

  lemma {:induction false} LastOfDistinct(rs: seq<Rec>, i: nat)
    requires DistinctRecs(rs) && i < |rs|
    ensures Last(rs, rs[i].name) == Some(rs[i])
    decreases rs
  {
    if i == 0 {
      NotLaterNamed(rs[1..], rs[0].name);
    } else {
      LastOfDistinct(rs[1..], i - 1);
    }
  }

  lemma {:induction false} NotLaterNamed(rs: seq<Rec>, name: string)
    requires forall i :: 0 <= i < |rs| ==> rs[i].name != name
    ensures Last(rs, name) == None
    decreases rs
  {
    if rs == [] {
    } else {
      NotLaterNamed(rs[1..], name);
    }
  }

  lemma {:induction false} ParamRecsAreNormal(ps: seq<Param>)
    ensures forall i :: 0 <= i < |ParamRecs(ps)| ==> Norm(ParamRecs(ps)[i]) == ParamRecs(ps)[i]
    decreases ps
  {
    if ps == [] {
    } else {
      ParamRecsAreNormal(ps[1..]);
    }
  }

  /** Partner overrides that name each parameter once are in force after the merge. */
  lemma PartnersInForce(src: Option<string>, inp: Inputs, flags: seq<bool>)
    requires |flags| == |inp.watch| && DistinctRecs(GivenRecs(inp.partners))
    ensures AllInForce(NormTable(Merged(src, inp, flags)), GivenRecs(inp.partners))
  {
    var rs := GivenRecs(inp.partners);
    if inp.partners.Some? {
      ParamRecsAreNormal(inp.partners.value);
    }
    hide Merged, NormTable, Lookup, BootValue, First, FileRecs, GivenRecs, MergedParts, Norm, Last;
    forall i | 0 <= i < |rs| ensures Lookup(NormTable(Merged(src, inp, flags)), rs[i].name) == Some(rs[i]) {
      LastOfDistinct(rs, i);
      MergeMeaning(src, inp, flags, rs[i].name);
      LookupNorm(Merged(src, inp, flags), rs[i].name);
    }
  }

  /**
   The boot fixpoint, asked of the sources: if what they hold can be read back from a file and
   the partner overrides name each parameter once, a second boot with the same inputs writes
   the identical file.
   */
  lemma BootFixpointOfSources(src: Option<string>, inp: Inputs, flags: seq<bool>, flags2: seq<bool>)
    requires |flags| == |flags2| == |inp.watch| && forall i :: 0 <= i < |flags| ==> !flags[i]
    requires SourcesLoadable(src, inp) && DistinctRecs(GivenRecs(inp.partners))
    ensures var file := FlushText(Flat(Merged(src, inp, flags)));
            FlushText(Flat(Merged(Some(file), inp, flags2))) == file
  {
    MergedLoadable(src, inp, flags);
    PartnersInForce(src, inp, flags);
    assert inp.(partners := inp.partners) == inp;
    hide *;
    BootFixpoint(src, inp, flags, inp.partners, flags2);
  }
}
