/**
 The registry object whose methods make the steps of FlushMachine
 (source/PsmSysRegistry/psm_sysro_operation.c, psm_sysro_sysramif.c,
 psm_sysro_storage.c; load and save of source/PsmFileLoader/psm_flo_control.c; the
 set and reload branches of source/Ssp/ssp_dbus.c).
 */
module SysRegistry {
  import opened CStrings
  import opened FlushMachine
  import opened RegistryLaws
  import opened Numbers

  datatype RamEvent = FolderAdded | FolderUpdated | FolderDeleted | FolderCleared
                    | RecordAdded | RecordUpdated | RecordDeleted | Other

  /** The entries of `content` with the names in `done`. */
  ghost function Picked(content: Config, done: set<string>): Config {
    map n | n in done && n in content :: content[n]
  }

  /** The state while a file is being loaded, when the records named in `done` have been added. */
  ghost function LoadedPart(s: State, content: Config, done: set<string>, now: nat): State {
    var s' := s.(file := Some(content), registry := s.registry + Picked(content, done));
    if done == {} then s' else Notified(s', now)
  }

  lemma LoadStarts(s: State, content: Config, now: nat)
    ensures LoadedPart(s, content, {}, now) == s.(file := Some(content))
  {
    assert Picked(content, {}) == map[];
    assert s.registry + map[] == s.registry;
  }

  lemma LoadStep(s: State, content: Config, done: set<string>, n: string, now: nat)
    requires n in content
    ensures var p := LoadedPart(s, content, done, now);
            LoadedPart(s, content, done + {n}, now) == Notified(p.(registry := p.registry[n := content[n]]), now)
  {
    PickedStep(s.registry, content, done, n);
    hide Picked;
  }

  lemma PickedStep(r: Config, content: Config, done: set<string>, n: string)
    requires n in content
    ensures r + Picked(content, done + {n}) == (r + Picked(content, done))[n := content[n]]
  {
    assert Picked(content, done + {n}) == Picked(content, done)[n := content[n]];
  }

  lemma LoadEnds(s: State, content: Config, now: nat)
    requires s.active && content == Completed(s)
    ensures LoadedPart(s, content, content.Keys, now) == Loaded(s, now)
  {
    assert Picked(content, content.Keys) == content;
    assert content.Keys == {} <==> content == map[];
  }

  /** What `StepCleanIff` gives a client of one step. */
  lemma StaysClean(s: State, e: Timed)
    ensures Clean(s) && Enabled(s, e) && Orderly(s, e.event) ==> Clean(Step(s, e.event, e.now))
  {
    if Clean(s) && Enabled(s, e) {
      StepCleanIff(s, e);
    }
  }

  class SysRegistry {
    var bActive: bool
    var bNoSave: bool
    var bNeedFlush: bool
    var bSaveInProgress: bool
    var lastRegWriteAt: nat
    var lastRegFlushAt: nat
    var fileSyncRefCount: nat
    var timerRunning: bool
    var loaderActive: bool
    var registry: Config
    var file: Option<Config>
    const base: Config
    ghost var writtenAt: nat

    /** Between steps no save is in progress, and the file loader follows the object. */
    ghost predicate Valid()
      reads this
    {
      !bSaveInProgress && loaderActive == bActive && fileSyncRefCount < WORD
    }

    ghost function Abs(): State
      reads this
    {
      State(bActive, timerRunning, bNoSave, bNeedFlush, lastRegWriteAt, lastRegFlushAt, fileSyncRefCount,
            registry, file, base, writtenAt)
    }

    constructor (file: Option<Config>, base: Config)
      ensures Valid() && Abs() == Initial(file, base) && Clean(Abs())
    {
      bActive, bNoSave, bNeedFlush, bSaveInProgress := false, true, false, false;
      lastRegWriteAt, lastRegFlushAt, fileSyncRefCount := 0, 0, 0;
      timerRunning, loaderActive := false, false;
      registry, this.file, this.base := map[], file, base;
      writtenAt := 0;
    }

    /** `PsmSysroSysRamNotify`. */
    method SysRamNotify(event: RamEvent, now: nat)
      modifies this
      ensures Abs() == if event.Other? || old(bSaveInProgress) then old(Abs()) else Notified(old(Abs()), now)
      ensures bSaveInProgress == old(bSaveInProgress) && loaderActive == old(loaderActive)
    {
      if bNoSave || bSaveInProgress {
        return;
      }
      match event {
        case Other =>
        case _ =>
          lastRegWriteAt := Tick(now);
          bNeedFlush := true;
          writtenAt := now;
      }
    }

    /** `PsmSysroSysRamEnableFileSync`: the counter is unsigned and wraps. */
    method SysRamEnableFileSync(bEnabled: bool)
      requires Valid()
      modifies this
      ensures Valid() && forall now :: Abs() == Step(old(Abs()), Sync(bEnabled), now)
      ensures old(Clean(Abs())) ==> Clean(Abs())
    {
      StaysClean(Abs(), Timed(Sync(bEnabled), 0));
      hide Clean;
      if bEnabled {
        fileSyncRefCount := (fileSyncRefCount + WORD - 1) % WORD;
      } else {
        fileSyncRefCount := (fileSyncRefCount + 1) % WORD;
      }
    }

    /** `PsmFloSaveRegFile` when its file operations succeed. */
    method SaveRegFile()
      requires loaderActive == bActive
      modifies this
      ensures Abs() == Saved(old(Abs())) && bSaveInProgress == old(bSaveInProgress) && loaderActive == old(loaderActive)
    {
      if !loaderActive {
        return;
      }
      file := Some(registry);
    }

    /** `PsmFloLoadRegFile`: every record read is added to the repository, which notifies. */
    method LoadRegFile(now: nat)
      requires Valid()
      modifies this
      ensures Valid() && Abs() == Loaded(old(Abs()), now)
      ensures old(bActive) ==> LaidOver(old(Abs()), Abs())
    {
      if !loaderActive {
        return;
      }
      ghost var s := Abs();
      LoadLays(s, now);
      hide LaidOver;
      var content := base + if file.Some? then file.value else map[];
      file := Some(content);
      LoadStarts(s, content, now);
      LoadEnds(s, content, now);
      hide LoadedPart, Loaded;
      AddRecords(content, s, now);
    }

    /** The records of the file are added one after another. */
    method AddRecords(content: Config, ghost s: State, now: nat)
      requires Valid() && Abs() == LoadedPart(s, content, {}, now)
      modifies this
      ensures Valid() && Abs() == LoadedPart(s, content, content.Keys, now)
    {
      var names := content.Keys;
      ghost var done := {};
      hide LoadedPart, Notified;
      while names != {}
        invariant Valid() && done == content.Keys - names && names <= content.Keys
        invariant Abs() == LoadedPart(s, content, done, now)
        decreases names
      {
        var n :| n in names;
        LoadStep(s, content, done, n, now);
        AddRecord(n, content[n], now);
        done, names := done + {n}, names - {n};
      }
      assert done == content.Keys;
    }

    /** `AddRecord2` on the repository, which reports the record. */
    method AddRecord(name: string, value: string, now: nat)
      requires Valid()
      modifies this
      ensures Valid() && Abs() == Notified(old(Abs()).(registry := old(registry)[name := value]), now)
    {
      registry := registry[name := value];
      SysRamNotify(RecordAdded, now);
    }

    /** `PsmSysroEngage`. */
    method Engage(now: nat)
      requires Valid()
      modifies this
      ensures Valid() && Abs() == Step(old(Abs()), Event.Engage, now)
      ensures old(Orderly(Abs(), Event.Engage)) && old(Clean(Abs())) ==> Clean(Abs())
      ensures !old(bActive) ==> LaidOver(old(Abs()), Abs()) && bActive && timerRunning && !bNoSave
    {
      StaysClean(Abs(), Timed(Event.Engage, now));
      hide Clean;
      if bActive {
        return;
      }
      EngageLoads(Abs(), now);
      hide LaidOver;
      bActive := true;
      timerRunning := true;
      loaderActive := true;
      LoadRegFile(now);
      bNoSave := false;
    }

    /** `PsmSysroCancel`. */
    method Cancel()
      requires Valid()
      modifies this
      ensures Valid() && forall now :: Abs() == Step(old(Abs()), Event.Cancel, now)
      ensures old(Clean(Abs())) ==> Clean(Abs())
    {
      StaysClean(Abs(), Timed(Event.Cancel, 0));
      hide Clean;
      if !bActive {
        return;
      }
      bActive := false;
      loaderActive := false;
      timerRunning := false;
    }

    /** `PsmSysroRegTimerInvoke`. */
    method RegTimerInvoke(now: nat)
      requires Valid()
      modifies this
      ensures Valid() && Abs() == Step(old(Abs()), Timer, now)
      ensures old(timerRunning) && old(Clean(Abs())) ==> Clean(Abs())
    {
      StaysClean(Abs(), Timed(Timer, now));
      hide Clean;
      if !bNeedFlush {
        return;
      } else if TickDiff(Tick(now), lastRegWriteAt) < FLUSH_DELAY {
        return;
      }
      if fileSyncRefCount > 0 {
        return;
      }
      bSaveInProgress := true;
      SaveRegFile();
      bNeedFlush := false;
      bSaveInProgress := false;
      lastRegFlushAt := Tick(now);
    }

    /** `PsmSysroSaveConfigToFlash`. */
    method SaveConfigToFlash(now: nat)
      requires Valid()
      modifies this
      ensures Valid() && Abs() == Step(old(Abs()), SaveToFlash, now)
      ensures old(Clean(Abs())) ==> Clean(Abs())
    {
      StaysClean(Abs(), Timed(SaveToFlash, now));
      hide Clean;
      bNoSave := true;
      timerRunning := false;
      bSaveInProgress := true;
      SaveRegFile();
      bNeedFlush := false;
      bSaveInProgress := false;
      lastRegFlushAt := Tick(now);
    }

    /** `PsmSysroResetToFactoryDefault`: both files are removed. */
    method ResetToFactoryDefault()
      requires Valid()
      modifies this
      ensures Valid() && forall now :: Abs() == Step(old(Abs()), FactoryReset, now)
      ensures old(Clean(Abs())) ==> Clean(Abs())
    {
      StaysClean(Abs(), Timed(FactoryReset, 0));
      hide Clean;
      bNoSave := true;
      timerRunning := false;
      file := None;
    }

    /** `setParameterValues` on an ordinary record. */
    method SetRecord(name: string, value: string, now: nat)
      requires Valid()
      modifies this
      ensures Valid() && Abs() == Step(old(Abs()), Write(name, value), now)
      ensures old(Clean(Abs())) ==> Clean(Abs())
    {
      StaysClean(Abs(), Timed(Write(name, value), now));
      hide Clean;
      if name in registry && registry[name] == value {
        return;
      }
      registry := registry[name := value];
      SysRamNotify(RecordUpdated, now);
    }

    /** `setParameterValues` on the reload parameter. */
    method ReloadConfig(now: nat)
      requires Valid()
      modifies this
      ensures Valid() && Abs() == Step(old(Abs()), Reload, now)
      ensures old(bActive) && old(Clean(Abs())) ==> Clean(Abs())
      ensures old(bActive) ==> LaidOver(old(Abs()).(file := Some(old(registry))), Abs())
    {
      StaysClean(Abs(), Timed(Reload, now));
      if bActive {
        ReloadLoads(Abs(), now);
      }
      hide Clean, LaidOver;
      SaveConfigToFlash(now);
      bNoSave := false;
      timerRunning := true;
      LoadRegFile(now);
    }
  }
}
