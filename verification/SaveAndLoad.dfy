/**
 Saving the configuration folder and loading the saved document: what the loader asks of a
 document holds of every document the writer makes of a tree that comes back.
 */
module SaveAndLoad {
  import opened CStrings
  import opened Numbers
  import opened ValueCodecs
  import opened MacCalendar
  import opened RecordXml
  import opened FolderTree
  import opened RecordIO
  import opened Translator

  // ---------- written texts hold no NUL ----------

  lemma {:induction false} JoinHasNo(ps: seq<string>, c: char, x: char)
    requires x != c && forall i :: 0 <= i < |ps| ==> x !in ps[i]
    ensures x !in Join(ps, c)
    decreases |ps|
  {
    if |ps| > 1 {
      JoinHasNo(ps[1..], c, x);
    }
  }

  lemma IpHasNoNul(d: seq<u8>)
    requires |d| == 4
    ensures NUL !in WriteIp(d)
  {
    hide Dec, Join;
    forall i | 0 <= i < 4 ensures NUL !in [Dec(d[0]), Dec(d[1]), Dec(d[2]), Dec(d[3])][i] {
      DigitsHaveNo(Dec(d[i]), NUL);
    }
    JoinHasNo([Dec(d[0]), Dec(d[1]), Dec(d[2]), Dec(d[3])], '.', NUL);
  }

  lemma {:induction false} IpTextsHaveNoNul(d: seq<u8>)
    requires |d| % 4 == 0
    ensures forall i :: 0 <= i < |d| / 4 ==> NUL !in IpTexts(d)[i]
    decreases |d|
  {
    if d == [] {
    } else {
      IpHasNoNul(d[..4]);
      IpTextsHaveNoNul(d[4..]);
      hide WriteIp;
      forall i | 0 <= i < |d| / 4 ensures NUL !in IpTexts(d)[i] {
        if i > 0 {
          assert IpTexts(d)[i] == IpTexts(d[4..])[i - 1];
        }
      }
    }
  }

  lemma IpsHaveNoNul(d: seq<u8>)
    requires |d| % 4 == 0
    ensures NUL !in WriteIps(d)
  {
    hide IpTexts, Join;
    IpTextsHaveNoNul(d);
    JoinHasNo(IpTexts(d), ',', NUL);
  }

  lemma IntsHaveNoNul(xs: seq<u32>)
    ensures NUL !in WriteInts(xs)
  {
    hide Dec, Join;
    forall i | 0 <= i < |xs| ensures NUL !in Decs(xs)[i] {
      DigitsHaveNo(Dec(xs[i]), NUL);
    }
    JoinHasNo(Decs(xs), ',', NUL);
  }

  lemma {:induction false} MacHasNoNul(d: seq<u8>)
    ensures NUL !in WriteMac(d)
    decreases |d|
  {
    if d == [] {
    } else {
      MacHasNoNul(d[1..]);
    }
  }

  lemma CalendarHasNoNul(c: Calendar)
    ensures NUL !in WriteCalendar(c)
  {
    hide Pad;
    DigitsHaveNo(Pad(c.year, 4), NUL);
    DigitsHaveNo(Pad(c.month, 2), NUL);
    DigitsHaveNo(Pad(c.day, 2), NUL);
    DigitsHaveNo(Pad(c.hour, 2), NUL);
    DigitsHaveNo(Pad(c.minute, 2), NUL);
    DigitsHaveNo(Pad(c.second, 2), NUL);
  }

  /** A string's value has no NUL before its end. */
  predicate Textual(r: Record) {
    r.rtype == ASTR && r.data.Bytes? ==> 0 !in r.data.b
  }

  lemma WrittenHasNoNul(r: Record)
    requires Sized(r) && Textual(r)
    ensures NoNul(WriteData(r))
  {
    hide WriteIp, WriteIps, WriteInts, WriteMac, WriteCalendar;
    if r.rtype == ASTR {
      assert forall i :: 0 <= i < |r.data.b| ==> Chars(r.data.b)[i] as int == r.data.b[i];
    } else if r.data.Time? {
      CalendarHasNoNul(r.data.t.fields);
    } else {
      var b := r.data.b;
      if |b| >= 4 {
        IpHasNoNul(b[..4]);
      }
      if |b| % 4 == 0 {
        IpsHaveNoNul(b);
        IntsHaveNoNul(LongsIn(b));
      }
      MacHasNoNul(b);
    }
  }

  // ---------- written trees can be loaded ----------

  predicate AllTextual(f: Folder)
    decreases f
  {
    && (forall i :: 0 <= i < |f.records| ==> Textual(f.records[i]))
    && (forall i :: 0 <= i < |f.subs| ==> AllTextual(f.subs[i].folder))
  }

  lemma {:induction false} RecordNodesKnown(rs: seq<Record>, cap: nat)
    requires cap >= TEXT_BUFFER && forall i :: 0 <= i < |rs| ==> Sized(rs[i]) && HasWriter(rs[i])
    requires forall i :: 0 <= i < |rs| ==> Textual(rs[i]) && Faithful(rs[i], cap)
    ensures forall i :: 0 <= i < |rs| ==> KnownChild(WriteRecords(rs)[i], cap)
    decreases |rs|
  {
    hide WriteData, LoadRecord, Sized, HasWriter, Textual, Faithful;
    if rs == [] {
    } else {
      var n := |rs| - 1;
      RecordNodesKnown(rs[..n], cap);
      RecordRoundTripIff(rs[n], cap);
      WrittenHasNoNul(rs[n]);
      assert KnownChild(WriteRecord(rs[n]), cap);
    }
  }

  lemma {:induction false} SubNodesKnown(ss: seq<Sub>, cap: nat)
    requires cap >= TEXT_BUFFER
    requires forall i :: 0 <= i < |ss| ==> TreeSized(ss[i].folder) && Writable(ss[i].folder) && AllTextual(ss[i].folder)
    requires forall i :: 0 <= i < |ss| ==> SubRestorable(ss[i], cap)
    ensures forall i :: 0 <= i < |ss| ==> KnownChild(WriteSubs(ss)[i], cap)
    decreases ss, 0
  {
    hide TreeSized, Writable, AllTextual, WriteInto, Restorable;
    if ss == [] {
    } else {
      var n := |ss| - 1;
      SubNodesKnown(ss[..n], cap);
      var x := Xml(FolderTag, map[NameAttr := Text(ss[n].name)], NoData, []);
      WrittenKnown(x, ss[n].folder, cap);
      WrittenTag(x, ss[n].folder);
      assert KnownChild(WriteSub(ss[n]), cap);
    }
  }

  lemma WrittenTag(x: Xml, f: Folder)
    requires TreeSized(f)
    ensures WriteInto(x, f).tag == x.tag
  {
  }

  /** Every node below a written one is a folder or a record, whatever the records hold. */
  lemma {:induction false} WrittenTagged(x: Xml, f: Folder)
    requires TreeSized(f) && Tagged(x)
    ensures Tagged(WriteInto(x, f))
    decreases f, 0
  {
    var rs, ss := WriteRecords(f.records), WriteSubs(f.subs);
    RecordTags(f.records);
    SubsTagged(f.subs);
    hide FolderAttrs, WriteRecords, WriteSubs, Sized;
    assert WriteInto(x, f).children == x.children + rs + ss;
  }

  lemma {:induction false} SubsTagged(ss: seq<Sub>)
    requires forall i :: 0 <= i < |ss| ==> TreeSized(ss[i].folder)
    ensures forall i :: 0 <= i < |ss| ==> WriteSubs(ss)[i].tag.FolderTag? && Tagged(WriteSubs(ss)[i])
    decreases ss, 0
  {
    hide TreeSized, WriteInto;
    if ss == [] {
    } else {
      var n := |ss| - 1;
      SubsTagged(ss[..n]);
      var x := Xml(FolderTag, map[NameAttr := Text(ss[n].name)], NoData, []);
      WrittenTagged(x, ss[n].folder);
      WrittenTag(x, ss[n].folder);
      assert WriteSub(ss[n]) == WriteInto(x, ss[n].folder);
    }
  }

  /** Every node below a written one is a folder or a record the loader can read. */
  lemma {:induction false} WrittenKnown(x: Xml, f: Folder, cap: nat)
    requires TreeSized(f) && Writable(f) && AllTextual(f) && cap >= TEXT_BUFFER && x.children == []
    requires Restorable(f, cap)
    ensures Known(WriteInto(x, f), cap)
    decreases f, 0
  {
    hide KnownChild, FolderAttrs, WriteRecords, WriteSubs, SubRestorable, Faithful, Sized, HasWriter, Textual;
    RecordNodesKnown(f.records, cap);
    SubNodesKnown(f.subs, cap);
    assert WriteInto(x, f).children == WriteRecords(f.records) + WriteSubs(f.subs);
  }

  /**
   A restart: what is saved of a folder is a document the loader may be given, and loading it
   into an empty folder succeeds with the same records and subfolders.
   */
  lemma SavedTreeLoads(f: Folder, x: Xml, cap: nat)
    requires TreeSized(f) && WellFormed(f) && AllTextual(f) && cap >= TEXT_BUFFER && x.children == []
    requires Restorable(f, cap)
    ensures Known(WriteInto(x, f), cap)
    ensures LoadInto(EMPTY, WriteInto(x, f).children, cap) == Loaded(EMPTY.(records := f.records, subs := f.subs), Done)
  {
    hide Known, WriteInto, Restorable, Distinct, Writable, AllTextual, LoadInto;
    WrittenKnown(x, f, cap);
    TreeRoundTripIff(f, x, cap);
  }
}
