/**
 Reading the current configuration at boot (source/Ssp/ssp_cfmif.c): the files,
 the static hash table and the static present flags, and the steps that load,
 merge, flush and save.
 */
module ConfigStore {
  import opened CStrings
  import opened FileWrites
  import opened RecordText
  import opened ConfigText
  import opened RecordChains
  import opened BootLaws
  import opened ConfigMerge
  import opened RecordTable

  /** Whether `IsParameterMissed` reports an entry: it does unless the name heads its chain. */
  predicate Reported(t: Table, name: string)
    requires |t| == SIZE
  {
    var c := t[Bucket(name)];
    c == [] || c[0].name != name
  }

  lemma SearchedChain(t: Table, name: string, c: Chain, j: nat)
    requires |t| == SIZE && c == t[Bucket(name)] && j <= |c|
    requires forall k :: 0 <= k < j ==> c[k].name != name
    requires j < |c| ==> c[j].name == name
    ensures Lookup(t, name).Some? == (j < |c|)
    ensures Reported(t, name) == (j > 0 || j == |c|)
  {
    hide Bucket;
    if j < |c| {
      IndexOfIs(c, name, j);
    }
  }

  class ConfigStore {
    const hash: RecHash
    const watch: seq<Watch>
    const present: array<bool>
    var cur: Option<string>
    var bak: Option<string>
    var def: Option<string>

    ghost predicate Valid()
      reads this, hash, hash.heads, hash.NodeSet()
    {
      hash.Valid() && present.Length == |watch|
    }

    constructor (watch: seq<Watch>, cur: Option<string>, bak: Option<string>, def: Option<string>)
      ensures Valid() && hash.Contents() == Empty()
      ensures this.watch == watch && this.cur == cur && this.bak == bak && this.def == def
      ensures present[..] == seq(|watch|, _ => false)
    {
      hash := new RecHash();
      this.watch := watch;
      present := new bool[|watch|](_ => false);
      this.cur, this.bak, this.def := cur, bak, def;
    }

    /** The search of `IsParameterMissed` for one name. */
    method Search(name: string) returns (missed: bool, found: bool)
      requires Valid()
      ensures missed == Reported(hash.Contents(), name)
      ensures found == Lookup(hash.Contents(), name).Some?
    {
      var h := Bucket(name);
      ghost var c, j := hash.chains[h], 0;
      missed, found := hash.heads[h] == null, false;
      var rec := hash.heads[h];
      while rec != null
        invariant 0 <= j <= |c| && rec == if j < |c| then c[j] else null
        invariant forall k :: 0 <= k < j ==> c[k].rec.name != name
        invariant missed == (j > 0 || |c| == 0)
        decreases |c| - j
      {
        if rec.rec.name == name {
          found := true;
          break;
        }
        missed, rec, j := true, rec.next, j + 1;
      }
      SearchedChain(hash.Contents(), name, Recs(c), j);
    }

    /** `IsParameterMissed`: flags every entry that is in the table. */
    method IsParameterMissed() returns (missed: bool)
      requires Valid()
      modifies present
      ensures present[..] == Flags(hash.Contents(), watch, old(present[..]))
      ensures missed <==> exists i :: 0 <= i < |watch| && Reported(hash.Contents(), watch[i].name)
    {
      ghost var t, f0 := hash.Contents(), present[..];
      missed := false;
      hide Lookup, Reported, View, WellFormed, Linked;
      for k := 0 to |watch|
        invariant Valid() && hash.Contents() == t
        invariant forall i :: 0 <= i < |watch| ==>
                                present[i] == (f0[i] || (i < k && Lookup(t, watch[i].name).Some?))
        invariant missed <==> exists i :: 0 <= i < k && Reported(t, watch[i].name)
      {
        var m := Check(k);
        missed := missed || m;
      }
    }

    /** One entry of `IsParameterMissed`. */
    method Check(k: nat) returns (missed: bool)
      requires Valid() && k < |watch|
      modifies present
      ensures missed == Reported(hash.Contents(), watch[k].name)
      ensures forall i :: 0 <= i < |watch| && i != k ==> present[i] == old(present[i])
      ensures present[k] == (old(present[k]) || Lookup(hash.Contents(), watch[k].name).Some?)
    {
      var found;
      missed, found := Search(watch[k].name);
      if found {
        present[k] := true;
      }
    }

    /** One round of the loop of `merge_missing_Partner_params`. */
    method InsertMissing(k: nat, values: map<string, string>)
      requires Valid() && k < |watch|
      modifies hash, hash.heads, hash.NodeSet()
      ensures Valid() && fresh(hash.NodeSet() - old(hash.NodeSet()))
      ensures hash.Contents() == InsertAll(old(hash.Contents()), BootRec(watch[k], present[k], values), false)
    {
      if present[k] || watch[k].partnerName !in values || |watch[k].name| == 0 {
        return;
      }
      InsertAllCons(hash.Contents(), Rec(watch[k].name, "astr", None, Some(values[watch[k].partnerName])), [], false);
      hash.Put(Rec(watch[k].name, "astr", None, Some(values[watch[k].partnerName])), false);
    }

    /** `merge_missing_Partner_params`; a bootstrap file that cannot be opened is None. */
    method MergeMissing(bootstrap: Option<map<string, string>>) returns (err: int)
      requires Valid()
      modifies hash, hash.heads, hash.NodeSet(), present
      ensures Valid() && fresh(hash.NodeSet() - old(hash.NodeSet()))
      ensures hash.Contents() == Bootstrapped(old(hash.Contents()), watch, bootstrap, old(present[..]))
      ensures present[..] == Flags(old(hash.Contents()), watch, old(present[..]))
      ensures err == if bootstrap.None? && exists i :: 0 <= i < |watch| && Reported(old(hash.Contents()), watch[i].name)
                     then -1 else 0
    {
      ghost var t, f0 := hash.Contents(), present[..];
      var missed := IsParameterMissed();
      err := 0;
      if !missed {
        NothingReported(t, watch, f0);
        if bootstrap.Some? {
          NoBootRecs(watch, present[..], bootstrap.value);
        }
        return;
      }
      if bootstrap.None? {
        return -1;
      }
      InsertAllMissing(bootstrap.value);
    }

    /** The loop of `merge_missing_Partner_params`, over the entries not flagged. */
    method InsertAllMissing(values: map<string, string>)
      requires Valid()
      modifies hash, hash.heads, hash.NodeSet()
      ensures Valid() && fresh(hash.NodeSet() - old(hash.NodeSet()))
      ensures hash.Contents() == InsertAll(old(hash.Contents()), BootRecs(watch, present[..], values), false)
    {
      hide BootRec, InsertAll, BootRecs, WellFormed, View;
      ghost var t, f := hash.Contents(), present[..];
      assert watch[0..] == watch && f[0..] == f;
      for m := 0 to |watch|
        invariant Valid() && fresh(hash.NodeSet() - old(hash.NodeSet())) && present[..] == f
        invariant InsertAll(hash.Contents(), BootRecs(watch[m..], f[m..], values), false)
               == InsertAll(t, BootRecs(watch, f, values), false)
      {
        BootRecsAt(watch, f, values, m);
        ghost var rest := BootRecs(watch[m + 1..], f[m + 1..], values);
        InsertAllConcat(hash.Contents(), BootRec(watch[m], f[m], values), rest, false);
        InsertMissing(m, values);
      }
      NothingLeft(hash.Contents(), watch[|watch|..], f[|watch|..], values);
    }

    /** The current file is loaded, or the backup when it cannot be opened. */
    method LoadSource()
      requires Valid() && hash.Contents() == Empty()
      modifies hash, hash.heads, hash.NodeSet()
      ensures Valid() && fresh(hash.NodeSet() - old(hash.NodeSet()))
      ensures hash.Contents() == AppendAll(Empty(), FileRecs(Source(cur, bak)))
      ensures cur.Some? ==> hash.Contents() == AppendAll(Empty(), ParseText(cur.value))
      ensures cur.None? && bak.Some? ==> hash.Contents() == AppendAll(Empty(), ParseText(bak.value))
      ensures cur.None? && bak.None? ==> hash.Contents() == Empty()
    {
      hide AppendAll, WellFormed, ParseText, View;
      LoadedSource(Source(cur, bak));
      var err := hash.LoadRecords(cur);
      if err != 0 {
        err := hash.LoadRecords(bak);
      }
    }

    /** The custom parameters, then the defaults, neither overwriting what is there. */
    method MergeMissingParams(custom: Option<seq<Param>>)
      requires Valid()
      modifies hash, hash.heads, hash.NodeSet()
      ensures Valid() && fresh(hash.NodeSet() - old(hash.NodeSet()))
      ensures hash.Contents() ==
              InsertAll(InsertAll(old(hash.Contents()), GivenRecs(custom), false), FileRecs(def), false)
    {
      hide InsertAll, WellFormed, FileRecs, GivenRecs, View, Linked;
      var err := hash.ImportParams(custom, false);
      err := hash.MergeFile(def, false);
    }

    /** The same, and then the partner overrides. */
    method MergeParams(custom: Option<seq<Param>>, partners: Option<seq<Param>>)
      requires Valid()
      modifies hash, hash.heads, hash.NodeSet()
      ensures Valid() && fresh(hash.NodeSet() - old(hash.NodeSet()))
      ensures hash.Contents() ==
              InsertAll(InsertAll(InsertAll(old(hash.Contents()), GivenRecs(custom), false), FileRecs(def), false),
                        GivenRecs(partners), true)
    {
      hide InsertAll, WellFormed, FileRecs, GivenRecs, View, Linked;
      MergeMissingParams(custom);
      var err := hash.ImportParams(partners, true);
    }

    /** The first half of `ssp_CfmReadCurConfig`, up to the partner overrides. */
    method LoadAndMerge(custom: Option<seq<Param>>, partners: Option<seq<Param>>, ghost inp: Inputs)
      requires Valid() && hash.Contents() == Empty()
      requires inp.custom == custom && inp.def == def && inp.partners == partners
      modifies hash, hash.heads, hash.NodeSet()
      ensures Valid() && fresh(hash.NodeSet() - old(hash.NodeSet()))
      ensures hash.Contents() == MergedParts(Source(cur, bak), inp)
    {
      hide InsertAll, AppendAll, WellFormed, FileRecs, GivenRecs, View, Linked;
      LoadSource();
      MergeParams(custom, partners);
    }

    /**
     `ssp_CfmReadCurConfig`: loads the current file (the backup if it cannot be opened),
     merges the other sources, flushes, and saves the flushed text as current and backup, as far
     as the file system takes it.  None when a print was cut short: the source takes the full
     length of that print for stored and goes on past its buffer, which is not described.
     */
    method ReadCurConfig(custom: Option<seq<Param>>, partners: Option<seq<Param>>,
                         bootstrap: Option<map<string, string>>, w: Writes) returns (out: Option<string>, ok: bool)
      requires Valid() && hash.Contents() == Empty()
      modifies this, hash, hash.heads, hash.NodeSet(), present
      ensures var inp := Inputs(custom, old(def), partners, watch, bootstrap);
              var t := Merged(Source(old(cur), old(bak)), inp, old(present[..]));
              && (out.Some? <==> Fits(Flat(t)))
              && (out.Some? ==> out.value == FlushText(Flat(t)))
      ensures var inp := Inputs(custom, old(def), partners, watch, bootstrap);
              var t := Merged(Source(old(cur), old(bak)), inp, old(present[..]));
              && (old(cur).Some? ==> FileInForce(t, old(cur).value, partners))
              && (old(cur).None? && old(bak).Some? ==> FileInForce(t, old(bak).value, partners))
      ensures out.Some? ==> Valid() && hash.Contents() == Empty() && def == old(def)
      ensures out.Some? ==> AfterSave(old(cur), old(bak), out.value, w, cur, bak, ok)
      ensures var inp := Inputs(custom, old(def), partners, watch, bootstrap);
              present[..] == Flags(MergedParts(Source(old(cur), old(bak)), inp), watch, old(present[..]))
    {
      hide Merged, MergedParts, WellFormed, Flags, Bootstrapped, Flat, FlushRoom, View, AfterSave, FileInForce, Source;
      ghost var src := Source(cur, bak);
      FilePrevails(cur, bak, Inputs(custom, def, partners, watch, bootstrap), present[..]);
      LoadAndMerge(custom, partners, Inputs(custom, def, partners, watch, bootstrap));
      ghost var t := hash.Contents();
      var err := MergeMissing(bootstrap);
      MergedIs(src, Inputs(custom, def, partners, watch, bootstrap), old(present[..]), t);
      out := hash.FlushRecords();
      ok := false;
      if out.Some? {
        ok := SaveCurConfig(out.value, w);
      }
    }

    /** `ssp_CfmSaveCurConfig`: the current file, and once it is written whole, the backup from it. */
    method SaveCurConfig(text: string, w: Writes) returns (ok: bool)
      modifies `cur, `bak
      ensures AfterSave(old(cur), old(bak), text, w, cur, bak, ok)
    {
      if !w.canOpen {
        return false;
      }
      cur := Some(Taken(text, w.written));
      if w.written < |text| {
        return false;
      }
      BackupFile(w);
      ok := true;
    }

    /** `backup_file`; an empty file cannot be mapped, and a failure is only logged. */
    method BackupFile(w: Writes)
      requires cur.Some?
      modifies `bak
      ensures bak == if w.started && cur.value != "" then Some(Taken(cur.value, w.stored)) else old(bak)
    {
      if |cur.value| != 0 && w.started {
        bak := Some(Taken(cur.value, w.stored));
      }
    }
  }

  /** The files after a save: all is well when the current file could be opened and took the whole text. */
  predicate AfterSave(cur0: Option<string>, bak0: Option<string>, text: string, w: Writes,
                      cur: Option<string>, bak: Option<string>, ok: bool) {
    && ok == (w.canOpen && w.written >= |text|)
    && cur == (if w.canOpen then Some(Taken(text, w.written)) else cur0)
    && bak == if ok && w.started && text != "" then Some(Taken(text, w.stored)) else bak0
  }

  /** The flush buffer holds the whole text. */
  predicate Fits(rs: seq<Rec>) {
    |HEADER| <= BASE && FlushRoom(rs, BASE - |HEADER|).Some? && FlushRoom(rs, BASE - |HEADER|).value > |FOOTER|
  }

  /** It does whenever no printed record is longer than one growth step. */
  lemma SmallRecordsFit(rs: seq<Rec>)
    requires forall i :: 0 <= i < |rs| ==> |PrintRec(rs[i])| <= GROW
    ensures Fits(rs)
  {
    assert |HEADER| < 100 && |FOOTER| < 100;
    hide HEADER, FOOTER, FlushRoom, PrintRec;
    FlushFits(rs, BASE - |HEADER|);
  }

  lemma NothingReported(t: Table, watch: seq<Watch>, flags: seq<bool>)
    requires |t| == SIZE && |flags| == |watch|
    requires forall i :: 0 <= i < |watch| ==> !Reported(t, watch[i].name)
    ensures forall i :: 0 <= i < |watch| ==> Flags(t, watch, flags)[i]
  {
    forall i | 0 <= i < |watch| ensures Lookup(t, watch[i].name).Some? {
      SearchedChain(t, watch[i].name, t[Bucket(watch[i].name)], 0);
    }
  }

  lemma BootRecsAt(watch: seq<Watch>, flags: seq<bool>, values: map<string, string>, m: nat)
    requires |flags| == |watch| && m < |watch|
    ensures BootRecs(watch[m..], flags[m..], values) ==
            BootRec(watch[m], flags[m], values) + BootRecs(watch[m + 1..], flags[m + 1..], values)
  {
    assert watch[m..][1..] == watch[m + 1..] && flags[m..][1..] == flags[m + 1..];
    hide BootRec;
  }

  lemma NothingLeft(t: Table, watch: seq<Watch>, flags: seq<bool>, values: map<string, string>)
    requires |t| == SIZE && watch == [] && flags == []
    ensures InsertAll(t, BootRecs(watch, flags, values), false) == t
  {
  }

  lemma LoadedSource(src: Option<string>)
    ensures AppendAll(Empty(), FileRecs(src)) ==
            if src.None? then Empty() else AppendAll(Empty(), ParseText(src.value))
  {
    hide ParseText;
  }

  lemma MergedIs(src: Option<string>, inp: Inputs, flags: seq<bool>, t: Table)
    requires |flags| == |inp.watch| && t == MergedParts(src, inp)
    ensures Merged(src, inp, flags) == Bootstrapped(t, inp.watch, inp.bootstrap, flags)
  {
  }
}
