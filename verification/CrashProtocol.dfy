/**
 The crash-tolerant save and recovery of source/PsmSysRegistry/psm_sysro_cfmif.c
 (with `backup_file` of source/Ssp/ssp_cfmif.c) as sequences of file-system steps.
 A trace lists the disk after every step that changes it, down to single bytes, so
 power may be lost between any two entries.  `parse` is what `TestRegFile` makes of a text:
 the configuration it stands for, or none.
 */
module CrashProtocol {
  import opened CStrings
  import opened FileWrites

  /** The three configuration files; None is a missing file. */
  datatype Disk = Disk(cur: Option<string>, bak: Option<string>, def: Option<string>)

  /** The configuration in a file; an empty file is never accepted. */
  ghost function Meaning<C>(parse: string -> Option<C>, f: Option<string>): Option<C> {
    if f.None? || f.value == "" then None else parse(f.value)
  }

  ghost predicate Readable<C>(parse: string -> Option<C>, f: Option<string>) {
    Meaning(parse, f).Some?
  }

  /** Where a text cut short is still accepted, it stands for the same configuration. */
  ghost predicate Sturdy<C>(parse: string -> Option<C>, text: string) {
    forall k :: 0 <= k <= |text| && Readable(parse, Some(text[..k])) ==>
                  Meaning(parse, Some(text[..k])) == Meaning(parse, Some(text))
  }

  /** Something a recovery can restore, short of the factory default. */
  ghost predicate Safe<C>(parse: string -> Option<C>, d: Disk) {
    Readable(parse, d.cur) || Readable(parse, d.bak)
  }

  // ---------- the steps ----------

  /** Writing `n` bytes of a text over the current file: truncated first, then byte by byte. */
  ghost function WriteCurTrace(d: Disk, text: string, n: nat): (t: seq<Disk>)
    requires n <= |text|
    ensures |t| == n + 1 && t[n] == d.(cur := Some(text[..n]))
  {
    seq(n + 1, k requires 0 <= k <= n => d.(cur := Some(text[..k])))
  }

  /**
   Whether `backup_file` gets past opening, measuring and mapping the current file (an empty
   one cannot be mapped) and creating the backup.
   */
  predicate BackupStarts(d: Disk, w: Writes) {
    w.started && d.cur.Some? && d.cur.value != ""
  }

  /** Whether the current file is truncated to be rewritten; it is not created. */
  predicate Rewrites(d: Disk, w: Writes) {
    w.canOpen && d.cur.Some?
  }

  predicate Possible(d: Disk, text: string, w: Writes) {
    (d.cur.Some? ==> w.stored <= |d.cur.value|) && w.written <= |text|
  }

  /** `backup_file`: the backup is truncated and the stored bytes are written. */
  ghost function BackupTrace(d: Disk, w: Writes): seq<Disk>
    requires d.cur.Some? ==> w.stored <= |d.cur.value|
  {
    if !BackupStarts(d, w) then []
    else seq(w.stored + 1, k requires 0 <= k <= w.stored => d.(bak := Some(d.cur.value[..k])))
  }

  /** The disk after a trace. */
  ghost function After(d: Disk, t: seq<Disk>): Disk {
    if t == [] then d else t[|t| - 1]
  }

  /** `PsmSysroCfmSaveCurConfig`: back up, whatever comes of it, then rewrite the current file. */
  ghost function SaveTrace(d: Disk, text: string, w: Writes): seq<Disk>
    requires Possible(d, text, w)
  {
    var b := BackupTrace(d, w);
    b + if Rewrites(d, w) then WriteCurTrace(After(d, b), text, w.written) else []
  }

  /** Attempts 1 and 2 of the recovery first copy a file over the current one, if it is there. */
  ghost function CopyTrace(d: Disk, from: Option<string>): seq<Disk> {
    if from.None? then [] else WriteCurTrace(d, from.value, |from.value|)
  }

  /** `PsmSysroCfmReadCurConfig`: the current file, else the backup, else the default. */
  ghost function RecoverTrace<C>(parse: string -> Option<C>, d: Disk): seq<Disk> {
    if Readable(parse, d.cur) then []
    else
      var t1 := CopyTrace(d, d.bak);
      if Readable(parse, d.bak) then t1 else t1 + CopyTrace(After(d, t1), d.def)
  }

  /** What the recovery returns. */
  ghost function Recovered<C>(parse: string -> Option<C>, d: Disk): Option<string> {
    if Readable(parse, d.cur) then d.cur
    else if Readable(parse, d.bak) then d.bak
    else if Readable(parse, d.def) then d.def
    else None
  }

  // ---------- what a save and a recovery come to ----------

  /** A file is readable when it is there, holds something, and is accepted. */
  lemma ReadableMeans<C>(parse: string -> Option<C>, f: Option<string>)
    ensures Readable(parse, f) <==> f.Some? && f.value != "" && parse(f.value).Some?
  {
  }

  /**
   The recovery fails exactly when none of the three files is readable; otherwise it returns
   the first of current, backup and default that is, leaves it as the current file, and
   touches neither of the others.
   */
  lemma RecoveryFindsFirst<C>(parse: string -> Option<C>, d: Disk)
    ensures var found, d' := Recovered(parse, d), After(d, RecoverTrace(parse, d));
            && (found.None? <==> !Readable(parse, d.cur) && !Readable(parse, d.bak) && !Readable(parse, d.def))
            && (Readable(parse, d.cur) ==> found == d.cur && d' == d)
            && (!Readable(parse, d.cur) && Readable(parse, d.bak) ==> found == d.bak && d' == d.(cur := d.bak))
            && (!Readable(parse, d.cur) && !Readable(parse, d.bak) && Readable(parse, d.def) ==>
                  found == d.def && d' == d.(cur := d.def))
  {
    var t1 := CopyTrace(d, d.bak);
    CopyIsWhole(d, d.bak);
    CopyIsWhole(After(d, t1), d.def);
    hide CopyTrace;
    if !Readable(parse, d.cur) && !Readable(parse, d.bak) && Readable(parse, d.def) {
      var t2 := CopyTrace(After(d, t1), d.def);
      assert RecoverTrace(parse, d) == t1 + t2;
      assert (t1 + t2)[|t1 + t2| - 1] == t2[|t2| - 1];
    }
  }

  lemma CopyIsWhole(d: Disk, from: Option<string>)
    ensures After(d, CopyTrace(d, from)) == if from.Some? then d.(cur := from) else d
    ensures from.Some? ==> CopyTrace(d, from) != []
  {
    if from.Some? {
      assert from.value[..|from.value|] == from.value;
    }
  }

  /** All that a save asks of the file system is done. */
  predicate AllGoesWell(d: Disk, text: string, w: Writes) {
    && d.cur.Some? && d.cur.value != "" && w.started && w.stored == |d.cur.value|
    && w.canOpen && w.written == |text|
  }

  /**
   A save that goes well leaves the text as current and the old current file as backup, and
   does not touch the current file before the whole of it is in the backup.
   */
  lemma SaveBacksUpFirst(d: Disk, text: string, w: Writes)
    requires AllGoesWell(d, text, w)
    ensures var t := SaveTrace(d, text, w);
            && After(d, t) == Disk(Some(text), d.cur, d.def)
            && forall k :: 0 <= k < |t| ==> t[k].cur == d.cur || t[k].bak == d.cur
  {
    var c, b, t := d.cur.value, BackupTrace(d, w), SaveTrace(d, text, w);
    assert c[..|c|] == c && text[..|text|] == text;
    assert After(d, b) == d.(bak := d.cur);
    var u := WriteCurTrace(After(d, b), text, w.written);
    assert t == b + u && t[|t| - 1] == u[|u| - 1];
    forall k | 0 <= k < |t| ensures t[k].cur == d.cur || t[k].bak == d.cur {
      if k < |b| {
        assert t[k] == b[k];
      } else {
        assert t[k] == u[k - |b|];
      }
    }
  }

  /**
   Whatever the file system takes: the backup holds as much of the old current file as was
   stored, if it was begun and there was something to back up; the current file holds as much
   of the text as was written, if it was there and could be opened; nothing else changes.
   */
  lemma SaveEnds(d: Disk, text: string, w: Writes)
    requires Possible(d, text, w)
    ensures After(d, SaveTrace(d, text, w)) ==
            Disk(if w.canOpen && d.cur.Some? then Some(text[..w.written]) else d.cur,
                 if w.started && d.cur.Some? && d.cur.value != "" then Some(d.cur.value[..w.stored]) else d.bak,
                 d.def)
  {
    var b, t := BackupTrace(d, w), SaveTrace(d, text, w);
    if Rewrites(d, w) {
      var u := WriteCurTrace(After(d, b), text, w.written);
      assert t == b + u && t[|t| - 1] == u[|u| - 1];
    } else {
      assert t == b;
    }
  }

  // ---------- when a save is safe at every step ----------

  /**
   A save leaves something to restore at every step exactly when, if the backup is begun, the
   current file is readable and, should it be rewritten, so is what reaches the backup; and,
   if the backup is not begun but the current file is rewritten, the old backup is readable.
   */
  lemma SaveIsSafeIff<C>(parse: string -> Option<C>, d: Disk, text: string, w: Writes)
    requires Safe(parse, d) && Possible(d, text, w)
    ensures (forall k :: 0 <= k < |SaveTrace(d, text, w)| ==> Safe(parse, SaveTrace(d, text, w)[k]))
       <==> if BackupStarts(d, w)
            then Readable(parse, d.cur) && (Rewrites(d, w) ==> Readable(parse, Some(d.cur.value[..w.stored])))
            else Rewrites(d, w) ==> Readable(parse, d.bak)
  {
    var b, t := BackupTrace(d, w), SaveTrace(d, text, w);
    if BackupStarts(d, w) {
      assert t[0] == b[0] == d.(bak := Some(""));
    }
    if Rewrites(d, w) {
      assert t[|b|] == WriteCurTrace(After(d, b), text, w.written)[0];
      assert t[|b|].cur == Some("");
    }
  }

  /** A backup that comes up unreadable loses both configurations if power fails during the rewrite. */
  lemma ShortBackupLosesBoth<C>(parse: string -> Option<C>, d: Disk, text: string, w: Writes)
    requires Readable(parse, d.cur) && Possible(d, text, w) && w.started && w.canOpen
    requires !Readable(parse, Some(d.cur.value[..w.stored]))
    ensures exists k :: 0 <= k < |SaveTrace(d, text, w)| && !Safe(parse, SaveTrace(d, text, w)[k])
  {
    hide SaveTrace;
    SaveIsSafeIff(parse, d, text, w);
  }

  /** So does a backup that cannot be created when there is no readable one from before. */
  lemma RefusedBackupLosesBoth<C>(parse: string -> Option<C>, d: Disk, text: string, w: Writes)
    requires Readable(parse, d.cur) && !Readable(parse, d.bak) && Possible(d, text, w) && !w.started && w.canOpen
    ensures exists k :: 0 <= k < |SaveTrace(d, text, w)| && !Safe(parse, SaveTrace(d, text, w)[k])
  {
    hide SaveTrace;
    SaveIsSafeIff(parse, d, text, w);
  }

  /** A save after one whose write came up short backs the broken file up over the good one. */
  lemma SaveAfterShortWriteLosesBoth<C>(parse: string -> Option<C>, d: Disk, text: string, w: Writes)
    requires d.cur.Some? && d.cur.value != "" && !Readable(parse, d.cur) && Readable(parse, d.bak)
    requires Possible(d, text, w) && w.started
    ensures exists k :: 0 <= k < |SaveTrace(d, text, w)| && !Safe(parse, SaveTrace(d, text, w)[k])
  {
    hide SaveTrace;
    SaveIsSafeIff(parse, d, text, w);
  }

  // ---------- runs with any number of crashes ----------

  /**
   An operation of a run.  `crash == Some(k)` means that power is lost when the first k
   entries of its trace have happened; None that the operation completes.
   */
  datatype Event =
    | Save(text: string, w: Writes, crash: Option<nat>)
    | Recover(crash: Option<nat>)

  /**
   The machine between operations: `up` while the process runs with what its current file
   holds, `last` the configuration last saved or restored in full, `pending` one whose save
   was cut short.
   */
  datatype System<C> = System(disk: Disk, up: bool, last: C, pending: Option<C>)

  /**
   A save starts on a running machine, with an accepted text; if the current file is
   rewritten, a readable copy of it has reached the backup.  Only the texts of the run matter.
   */
  ghost predicate Allowed<C>(parse: string -> Option<C>, s: System<C>, e: Event) {
    match e
    case Save(text, w, crash) =>
      && s.up && Readable(parse, Some(text)) && Sturdy(parse, text) && Possible(s.disk, text, w)
      && (Rewrites(s.disk, w) ==> w.started && Readable(parse, Some(s.disk.cur.value[..w.stored])))
      && (crash.Some? ==> crash.value <= |SaveTrace(s.disk, text, w)|)
    case Recover(crash) =>
      crash.Some? ==> crash.value <= |RecoverTrace(parse, s.disk)|
  }

  ghost function Cut(d: Disk, t: seq<Disk>, crash: Option<nat>): Disk
    requires crash.Some? ==> crash.value <= |t|
  {
    After(d, if crash.Some? then t[..crash.value] else t)
  }

  /** A save that fails without a crash and has touched the current file waits for a recovery. */
  ghost function Step<C>(parse: string -> Option<C>, s: System<C>, e: Event): System<C>
    requires Allowed(parse, s, e)
  {
    match e
    case Save(text, w, crash) =>
      var d := Cut(s.disk, SaveTrace(s.disk, text, w), crash);
      var config := Meaning(parse, Some(text));
      if crash.None? && !Rewrites(s.disk, w) then s.(disk := d)
      else if crash.None? && w.written == |text| then System(d, true, config.value, None)
      else System(d, false, s.last, config)
    case Recover(crash) =>
      var d := Cut(s.disk, RecoverTrace(parse, s.disk), crash);
      var found := Meaning(parse, Recovered(parse, s.disk));
      if crash.None? && found.Some? then System(d, true, found.value, None) else s.(disk := d, up := false)
  }

  ghost predicate RunAllowed<C>(parse: string -> Option<C>, s: System<C>, es: seq<Event>)
    decreases |es|
  {
    es != [] ==> Allowed(parse, s, es[0]) && RunAllowed(parse, Step(parse, s, es[0]), es[1..])
  }

  ghost function Run<C>(parse: string -> Option<C>, s: System<C>, es: seq<Event>): System<C>
    requires RunAllowed(parse, s, es)
    decreases |es|
  {
    if es == [] then s else Run(parse, Step(parse, s, es[0]), es[1..])
  }

  /** The file holds that configuration, and so does every accepted beginning of it. */
  ghost predicate Holds<C>(parse: string -> Option<C>, f: Option<string>, c: C) {
    Meaning(parse, f) == Some(c) && Sturdy(parse, f.value)
  }

  /**
   A running machine's current file is its configuration.  Otherwise the current file is the
   last or the pending one, or else the backup is the last one.
   */
  ghost predicate Inv<C>(parse: string -> Option<C>, s: System<C>) {
    if s.up then Holds(parse, s.disk.cur, s.last) && s.pending.None?
    else if Readable(parse, s.disk.cur) then
      Holds(parse, s.disk.cur, s.last) || (s.pending.Some? && Holds(parse, s.disk.cur, s.pending.value))
    else Holds(parse, s.disk.bak, s.last)
  }

  /** A beginning of a text that is accepted holds what the text holds. */
  lemma BeginningHolds<C>(parse: string -> Option<C>, text: string, k: nat)
    requires Sturdy(parse, text) && k <= |text| && Readable(parse, Some(text[..k]))
    ensures Readable(parse, Some(text)) ==> Holds(parse, Some(text[..k]), Meaning(parse, Some(text)).value)
  {
    forall j | 0 <= j <= k && Readable(parse, Some(text[..k][..j]))
      ensures Meaning(parse, Some(text[..k][..j])) == Meaning(parse, Some(text[..k]))
    {
      assert text[..k][..j] == text[..j];
    }
  }

  /** The disk after the first `k` entries of a save. */
  lemma SaveCut(d: Disk, text: string, w: Writes, k: nat)
    requires Possible(d, text, w) && k <= |SaveTrace(d, text, w)|
    ensures var c := After(d, SaveTrace(d, text, w)[..k]);
            var b := |BackupTrace(d, w)|;
            if k <= b then c.cur == d.cur
            else Rewrites(d, w) && k - b - 1 <= w.written && c.cur == Some(text[..k - b - 1])
                 && c.bak == if BackupStarts(d, w) then Some(d.cur.value[..w.stored]) else d.bak
  {
    var b, t := BackupTrace(d, w), SaveTrace(d, text, w);
    if 0 < k <= |b| {
      assert t[..k][k - 1] == b[k - 1];
    } else if k > |b| {
      assert t[..k][k - 1] == WriteCurTrace(After(d, b), text, w.written)[k - 1 - |b|];
    }
  }

  lemma SaveKeepsInv<C>(parse: string -> Option<C>, s: System<C>, text: string, w: Writes, crash: Option<nat>)
    requires Inv(parse, s) && Allowed(parse, s, Save(text, w, crash))
    ensures Inv(parse, Step(parse, s, Save(text, w, crash)))
  {
    var d, t := s.disk, SaveTrace(s.disk, text, w);
    var b := |BackupTrace(d, w)|;
    var k := if crash.Some? then crash.value else |t|;
    assert t[..|t|] == t && text[..|text|] == text;
    SaveCut(d, text, w, k);
    BeginningHolds(parse, text, |text|);
    if k > b {
      var n := k - b - 1;
      BeginningHolds(parse, d.cur.value, w.stored);
      if Readable(parse, Some(text[..n])) {
        BeginningHolds(parse, text, n);
      }
    }
  }

  /** The disk after the first `k` bytes of a copy over the current file. */
  lemma CopyCut(d: Disk, from: string, k: nat)
    requires k <= |CopyTrace(d, Some(from))|
    ensures |CopyTrace(d, Some(from))| == |from| + 1
    ensures After(d, CopyTrace(d, Some(from))[..k]) == if k == 0 then d else d.(cur := Some(from[..k - 1]))
  {
    if k > 0 {
      assert CopyTrace(d, Some(from))[..k][k - 1] == d.(cur := Some(from[..k - 1]));
    }
  }

  lemma RecoverKeepsInv<C>(parse: string -> Option<C>, s: System<C>, crash: Option<nat>)
    requires Inv(parse, s) && Allowed(parse, s, Recover(crash))
    ensures Inv(parse, Step(parse, s, Recover(crash)))
  {
    var d, t := s.disk, RecoverTrace(parse, s.disk);
    var k := if crash.Some? then crash.value else |t|;
    assert t[..|t|] == t;
    if !Readable(parse, d.cur) {
      var from := d.bak.value;
      CopyCut(d, from, k);
      assert from[..|from|] == from;
      if k > 0 && Readable(parse, Some(from[..k - 1])) {
        BeginningHolds(parse, from, k - 1);
      }
    }
  }

  lemma {:induction false} RunKeepsInv<C>(parse: string -> Option<C>, s: System<C>, es: seq<Event>)
    requires Inv(parse, s) && RunAllowed(parse, s, es)
    ensures Inv(parse, Run(parse, s, es))
    decreases |es|
  {
    if es == [] {
    } else {
      match es[0] {
        case Save(text, w, crash) => SaveKeepsInv(parse, s, text, w, crash);
        case Recover(crash) => RecoverKeepsInv(parse, s, crash);
      }
      hide Step, Inv, Allowed;
      RunKeepsInv(parse, Step(parse, s, es[0]), es[1..]);
    }
  }

  /**
   Crash safety over whole runs: after any sequence of saves and recoveries, each of them
   possibly cut anywhere, the current file or the backup can be restored, and the next
   recovery returns one of them, with the last or the interrupted configuration, never the
   factory default.
   */
  lemma CrashSafety<C>(parse: string -> Option<C>, s: System<C>, es: seq<Event>)
    requires Inv(parse, s) && RunAllowed(parse, s, es)
    ensures var r := Run(parse, s, es);
            var found := Recovered(parse, r.disk);
            && Safe(parse, r.disk) && (found == r.disk.cur || found == r.disk.bak)
            && (Meaning(parse, found) == Some(r.last) || (r.pending.Some? && Meaning(parse, found) == r.pending))
  {
    hide Run, RunAllowed;
    RunKeepsInv(parse, s, es);
  }

  /** A recovery that completes leaves its result in the current file, so saving can go on safely. */
  lemma RecoveryInstalls<C>(parse: string -> Option<C>, d: Disk)
    requires Recovered(parse, d).Some?
    ensures After(d, RecoverTrace(parse, d)).cur == Recovered(parse, d)
    ensures Safe(parse, d) ==> After(d, RecoverTrace(parse, d)).bak == d.bak
  {
    if !Readable(parse, d.cur) && !Readable(parse, d.bak) {
      var t1 := CopyTrace(d, d.bak);
      assert RecoverTrace(parse, d) == t1 + CopyTrace(After(d, t1), d.def);
      assert d.def.value[..|d.def.value|] == d.def.value;
    } else if !Readable(parse, d.cur) {
      assert d.bak.value[..|d.bak.value|] == d.bak.value;
    }
  }

  /** Whatever the machine was, a completed recovery of a sturdy text establishes the invariant. */
  lemma RecoveryEstablishesInv<C>(parse: string -> Option<C>, s: System<C>)
    requires Recovered(parse, s.disk).Some? && Sturdy(parse, Recovered(parse, s.disk).value)
    ensures Inv(parse, Step(parse, s, Recover(None))) && Step(parse, s, Recover(None)).up
  {
    var d, t := s.disk, RecoverTrace(parse, s.disk);
    RecoveryInstalls(parse, d);
    hide RecoverTrace, Sturdy;
  }

  /**
   Crash safety from the first boot: once a recovery has completed, be it of the factory
   default, no run that follows needs the default again.
   */
  lemma CrashSafetyFromBoot<C>(parse: string -> Option<C>, s: System<C>, es: seq<Event>)
    requires Recovered(parse, s.disk).Some? && Sturdy(parse, Recovered(parse, s.disk).value)
    requires RunAllowed(parse, Step(parse, s, Recover(None)), es)
    ensures var r := Run(parse, Step(parse, s, Recover(None)), es);
            var found := Recovered(parse, r.disk);
            && Safe(parse, r.disk) && (found == r.disk.cur || found == r.disk.bak)
            && (Meaning(parse, found) == Some(r.last) || (r.pending.Some? && Meaning(parse, found) == r.pending))
  {
    hide Run, RunAllowed, Sturdy, Inv, Step;
    RecoveryEstablishesInv(parse, s);
    CrashSafety(parse, Step(parse, s, Recover(None)), es);
  }
}
