/**
 Which value a boot gives to each name (source/Ssp/ssp_cfmif.c), told by the sources
 themselves: the texts of the files, the parameters, and the bootstrap values.
 */
module BootLaws {
  import opened CStrings
  import opened RecordText
  import opened ConfigText
  import opened RecordChains
  import opened ImportedParams
  import opened ConfigMerge

  /** The first record of its name in a file. */
  ghost predicate FirstRecord(rs: seq<Rec>, i: nat) {
    i < |rs| && forall j :: 0 <= j < i ==> rs[j].name != rs[i].name
  }

  ghost predicate NotIn(rs: seq<Rec>, name: string) {
    forall i :: 0 <= i < |rs| ==> rs[i].name != name
  }

  ghost predicate NotGiven(ps: Option<seq<Param>>, name: string) {
    ps.Some? ==> Unnamed(ps.value, name)
  }

  ghost predicate NotInFile(file: Option<string>, name: string) {
    file.Some? ==> NotIn(ParseText(file.value), name)
  }

  /** The file that counts at boot: the backup only when there is no current file. */
  ghost predicate Counts(file: Option<string>, cur: Option<string>, bak: Option<string>) {
    (cur.Some? && file == cur) || (cur.None? && file == bak)
  }

  lemma {:induction false} FirstIs(rs: seq<Rec>, i: nat)
    requires FirstRecord(rs, i)
    ensures First(rs, rs[i].name) == Some(rs[i])
    decreases rs
  {
    if i == 0 {
    } else {
      assert forall j :: 0 <= j < |rs| - 1 ==> rs[1..][j] == rs[j + 1];
      FirstIs(rs[1..], i - 1);
    }
  }

  lemma {:induction false} FirstIsNone(rs: seq<Rec>, name: string)
    requires NotIn(rs, name)
    ensures First(rs, name) == None
    decreases rs
  {
    if rs == [] {
    } else {
      assert NotIn(rs[1..], name);
      FirstIsNone(rs[1..], name);
    }
  }

  lemma GivenNone(ps: Option<seq<Param>>, name: string)
    requires NotGiven(ps, name)
    ensures First(GivenRecs(ps), name) == None && Last(GivenRecs(ps), name) == None
  {
    if ps.Some? {
      NoParam(ps.value, name);
    }
  }

  lemma FileNone(file: Option<string>, name: string)
    requires NotInFile(file, name)
    ensures First(FileRecs(file), name) == None
  {
    FirstIsNone(FileRecs(file), name);
    hide ParseText;
  }

  /** The table a boot flushes. */
  ghost function BootTable(cur: Option<string>, bak: Option<string>, inp: Inputs, flags: seq<bool>): (t: Table)
    requires |flags| == |inp.watch|
    ensures |t| == SIZE
  {
    Merged(Source(cur, bak), inp, flags)
  }

  lemma SourceCounts(cur: Option<string>, bak: Option<string>)
    ensures Counts(Source(cur, bak), cur, bak)
  {
  }

  /** A partner override beats everything: the last one of its name. */
  lemma PartnerWins(cur: Option<string>, bak: Option<string>, inp: Inputs, flags: seq<bool>, i: nat)
    requires |flags| == |inp.watch| && inp.partners.Some? && LastNamed(inp.partners.value, i)
    requires inp.partners.value[i].name != ""
    ensures Holds(BootTable(cur, bak, inp, flags), inp.partners.value[i])
  {
    hide Merged, Lookup, First, Last, FileRecs, BootValue, MergedParts, Flags;
    MergeMeaning(Source(cur, bak), inp, flags, inp.partners.value[i].name);
    LastParam(inp.partners.value, i);
    assert GivenRecs(inp.partners) == ParamRecs(inp.partners.value);
  }

  /** Then the file that counts: the first record of its name, whatever the other file holds. */
  lemma FileWins(cur: Option<string>, bak: Option<string>, inp: Inputs, flags: seq<bool>, file: Option<string>, i: nat)
    requires |flags| == |inp.watch| && Counts(file, cur, bak) && file.Some? && FirstRecord(ParseText(file.value), i)
    requires NotGiven(inp.partners, ParseText(file.value)[i].name)
    ensures var r := ParseText(file.value)[i]; Lookup(BootTable(cur, bak, inp, flags), r.name) == Some(r)
  {
    var r := ParseText(file.value)[i];
    FirstIs(ParseText(file.value), i);
    assert FileRecs(file) == ParseText(file.value);
    SourceCounts(cur, bak);
    assert Source(cur, bak) == file;
    hide Merged, Lookup, First, Last, FileRecs, BootValue, MergedParts, Flags, ParseText, GivenRecs;
    GivenNone(inp.partners, r.name);
    MergeMeaning(file, inp, flags, r.name);
  }

  /** Then the custom parameters: the first of its name. */
  lemma CustomWins(cur: Option<string>, bak: Option<string>, inp: Inputs, flags: seq<bool>,
                   file: Option<string>, i: nat)
    requires |flags| == |inp.watch| && Counts(file, cur, bak)
    requires inp.custom.Some? && FirstNamed(inp.custom.value, i) && inp.custom.value[i].name != ""
    requires NotGiven(inp.partners, inp.custom.value[i].name) && NotInFile(file, inp.custom.value[i].name)
    ensures Holds(BootTable(cur, bak, inp, flags), inp.custom.value[i])
  {
    var n := inp.custom.value[i].name;
    FirstParam(inp.custom.value, i);
    assert GivenRecs(inp.custom) == ParamRecs(inp.custom.value);
    SourceCounts(cur, bak);
    assert Source(cur, bak) == file;
    hide Merged, Lookup, First, Last, FileRecs, BootValue, MergedParts, Flags, ParseText, GivenRecs;
    GivenNone(inp.partners, n);
    FileNone(file, n);
    MergeMeaning(file, inp, flags, n);
  }

  /** Then the default file: the first record of its name. */
  lemma DefaultWins(cur: Option<string>, bak: Option<string>, inp: Inputs, flags: seq<bool>,
                    file: Option<string>, i: nat)
    requires |flags| == |inp.watch| && Counts(file, cur, bak)
    requires inp.def.Some? && FirstRecord(ParseText(inp.def.value), i)
    requires var n := ParseText(inp.def.value)[i].name;
             NotGiven(inp.partners, n) && NotInFile(file, n) && NotGiven(inp.custom, n)
    ensures var r := ParseText(inp.def.value)[i]; Lookup(BootTable(cur, bak, inp, flags), r.name) == Some(r)
  {
    var r := ParseText(inp.def.value)[i];
    FirstIs(ParseText(inp.def.value), i);
    assert FileRecs(inp.def) == ParseText(inp.def.value);
    SourceCounts(cur, bak);
    assert Source(cur, bak) == file;
    hide Merged, Lookup, First, Last, FileRecs, BootValue, MergedParts, Flags, ParseText, GivenRecs;
    GivenNone(inp.partners, r.name);
    GivenNone(inp.custom, r.name);
    FileNone(file, r.name);
    MergeMeaning(file, inp, flags, r.name);
  }

  /** The name is in no source but perhaps the bootstrap file. */
  ghost predicate Elsewhere(inp: Inputs, file: Option<string>, name: string) {
    && NotGiven(inp.partners, name) && NotInFile(file, name)
    && NotGiven(inp.custom, name) && NotInFile(inp.def, name)
  }

  lemma NoPart(inp: Inputs, file: Option<string>, name: string)
    requires Elsewhere(inp, file, name)
    ensures Lookup(MergedParts(file, inp), name) == None
  {
    hide MergedParts, Lookup, First, Last, FileRecs, GivenRecs, NotInFile, NotGiven;
    GivenNone(inp.partners, name);
    GivenNone(inp.custom, name);
    FileNone(file, name);
    FileNone(inp.def, name);
    LookupParts(file, inp, name);
  }

  /** An entry is served by the bootstrap file: it is not flagged, has a name, and has a value there. */
  predicate Served(w: Watch, flag: bool, values: map<string, string>) {
    !flag && w.name != "" && w.partnerName in values
  }

  /** Then the bootstrap file: the first entry of its name that is served. */
  lemma BootstrapWins(cur: Option<string>, bak: Option<string>, inp: Inputs, flags: seq<bool>,
                      file: Option<string>, i: nat)
    requires |flags| == |inp.watch| && Counts(file, cur, bak) && i < |inp.watch| && inp.bootstrap.Some?
    requires Elsewhere(inp, file, inp.watch[i].name) && Served(inp.watch[i], flags[i], inp.bootstrap.value)
    requires forall j :: 0 <= j < i && inp.watch[j].name == inp.watch[i].name ==>
                           !Served(inp.watch[j], flags[j], inp.bootstrap.value)
    ensures var w := inp.watch[i];
            Lookup(BootTable(cur, bak, inp, flags), w.name) ==
            Some(Rec(w.name, "astr", None, Some(inp.bootstrap.value[w.partnerName])))
  {
    var w := inp.watch[i];
    SourceCounts(cur, bak);
    assert Source(cur, bak) == file;
    NoPart(inp, file, w.name);
    var f := Flags(MergedParts(file, inp), inp.watch, flags);
    ServedFirst(inp.watch, f, inp.bootstrap.value, i);
    hide Merged, Lookup, First, Last, FileRecs, BootValue, MergedParts, ParseText, GivenRecs;
    GivenNone(inp.partners, w.name);
    GivenNone(inp.custom, w.name);
    FileNone(file, w.name);
    FileNone(inp.def, w.name);
    MergeMeaning(file, inp, flags, w.name);
  }

  lemma FirstOfBoot(w: Watch, flag: bool, values: map<string, string>, name: string)
    ensures First(BootRec(w, flag, values), name) ==
            if Served(w, flag, values) && w.name == name then Some(Rec(name, "astr", None, Some(values[w.partnerName])))
            else None
  {
    if Served(w, flag, values) {
      assert BootRec(w, flag, values)[1..] == [];
    }
  }

  lemma {:induction false} ServedFirst(watch: seq<Watch>, flags: seq<bool>, values: map<string, string>, i: nat)
    requires |flags| == |watch| && i < |watch| && Served(watch[i], flags[i], values)
    requires forall j :: 0 <= j < i && watch[j].name == watch[i].name ==> !Served(watch[j], flags[j], values)
    ensures BootValue(watch[i].name, watch, flags, Some(values)) ==
            Some(Rec(watch[i].name, "astr", None, Some(values[watch[i].partnerName])))
    decreases watch
  {
    FirstOfBoot(watch[0], flags[0], values, watch[i].name);
    if i == 0 {
    } else {
      assert forall j :: 0 <= j < |watch| - 1 ==> watch[1..][j] == watch[j + 1] && flags[1..][j] == flags[j + 1];
      ServedFirst(watch[1..], flags[1..], values, i - 1);
    }
  }

  lemma {:induction false} ServedNone(watch: seq<Watch>, flags: seq<bool>, values: map<string, string>, name: string)
    requires |flags| == |watch|
    requires forall j :: 0 <= j < |watch| && watch[j].name == name ==> !Served(watch[j], flags[j], values)
    ensures BootValue(name, watch, flags, Some(values)) == None
    decreases watch
  {
    if watch == [] {
    } else {
      FirstOfBoot(watch[0], flags[0], values, name);
      assert forall j :: 0 <= j < |watch| - 1 ==> watch[1..][j] == watch[j + 1] && flags[1..][j] == flags[j + 1];
      ServedNone(watch[1..], flags[1..], values, name);
    }
  }

  /** And no other name is in the table. */
  lemma NothingElse(cur: Option<string>, bak: Option<string>, inp: Inputs, flags: seq<bool>, file: Option<string>,
                    name: string)
    requires |flags| == |inp.watch| && Counts(file, cur, bak) && Elsewhere(inp, file, name)
    requires inp.bootstrap.Some? ==>
               forall j :: 0 <= j < |inp.watch| && inp.watch[j].name == name ==>
                             !Served(inp.watch[j], flags[j], inp.bootstrap.value)
    ensures Lookup(BootTable(cur, bak, inp, flags), name) == None
  {
    SourceCounts(cur, bak);
    assert Source(cur, bak) == file;
    var f := Flags(MergedParts(file, inp), inp.watch, flags);
    if inp.bootstrap.Some? {
      ServedNone(inp.watch, f, inp.bootstrap.value, name);
    }
    assert inp.bootstrap.None? ==> BootValue(name, inp.watch, f, inp.bootstrap) == None;
    hide Merged, Lookup, First, Last, FileRecs, BootValue, MergedParts, ParseText, GivenRecs;
    GivenNone(inp.partners, name);
    GivenNone(inp.custom, name);
    FileNone(file, name);
    FileNone(inp.def, name);
    MergeMeaning(file, inp, flags, name);
  }

  /** Every first record of a text whose name has no partner override is the one in force. */
  ghost predicate FileInForce(t: Table, text: string, partners: Option<seq<Param>>)
    requires |t| == SIZE
  {
    forall i: nat :: FirstRecord(ParseText(text), i) && NotGiven(partners, ParseText(text)[i].name) ==>
                  Lookup(t, ParseText(text)[i].name) == Some(ParseText(text)[i])
  }

  lemma FilePrevails(cur: Option<string>, bak: Option<string>, inp: Inputs, flags: seq<bool>)
    requires |flags| == |inp.watch|
    ensures cur.Some? ==> FileInForce(Merged(Source(cur, bak), inp, flags), cur.value, inp.partners)
    ensures cur.None? && bak.Some? ==> FileInForce(Merged(Source(cur, bak), inp, flags), bak.value, inp.partners)
  {
    var file := if cur.Some? then cur else bak;
    hide Merged, Lookup, ParseText, NotGiven, Source;
    if file.Some? {
      forall i: nat | FirstRecord(ParseText(file.value), i) && NotGiven(inp.partners, ParseText(file.value)[i].name)
        ensures Lookup(Merged(Source(cur, bak), inp, flags), ParseText(file.value)[i].name)
             == Some(ParseText(file.value)[i])
      {
        FileWins(cur, bak, inp, flags, file, i);
      }
    }
  }
}
