/**
 What the steps of the flush machine do to the registry and its file, told name by name, and
 from that: a value that is set and flushed in one run of the program is there in the next.
 */
module RegistryLaws {
  import opened CStrings
  import opened Numbers
  import opened FlushMachine

  /** What a name has in a file that may be missing. */
  ghost predicate FileGives(file: Option<Config>, name: string, value: string) {
    file.Some? && name in file.value && file.value[name] == value
  }

  ghost predicate FileLacks(file: Option<Config>, name: string) {
    file.Some? ==> name !in file.value
  }

  ghost predicate Gives(c: Config, name: string, value: string) {
    name in c && c[name] == value
  }

  /**
   Loading a file over a registry: what the file gives a name counts, then what the defaults
   give it, then what the registry had; in the file afterwards, what the file gave, then the
   defaults.
   */
  ghost predicate LaidOver(s: State, s': State) {
    && (forall n, v :: FileGives(s.file, n, v) ==> Gives(s'.registry, n, v) && FileGives(s'.file, n, v))
    && (forall n, v :: FileLacks(s.file, n) && Gives(s.base, n, v) ==>
                         Gives(s'.registry, n, v) && FileGives(s'.file, n, v))
    && (forall n, v :: FileLacks(s.file, n) && n !in s.base && Gives(s.registry, n, v) ==> Gives(s'.registry, n, v))
    && (forall n :: FileLacks(s.file, n) && n !in s.base ==> FileLacks(s'.file, n))
    && (forall n :: FileLacks(s.file, n) && n !in s.base && n !in s.registry ==> n !in s'.registry)
  }

  /** Loading the registry file lays it over what is there. */
  lemma LoadLays(s: State, now: nat)
    requires s.active
    ensures LaidOver(s, Loaded(s, now))
  {
  }

  /** An engagement loads the file, allows saving and starts the timer. */
  lemma EngageLoads(s: State, now: nat)
    requires !s.active
    ensures var s' := Step(s, Engage, now); LaidOver(s, s') && s'.active && s'.timerOn && !s'.noSave
  {
  }

  /** A reload of an active object loses nothing: names only the defaults have are added. */
  lemma ReloadLoads(s: State, now: nat)
    requires s.active
    ensures var s' := Step(s, Reload, now);
            && LaidOver(s.(file := Some(s.registry)), s') && s'.active && s'.timerOn && !s'.noSave
  {
  }

  /** A write sets its name and leaves all others; a change is noted while saving is allowed. */
  lemma WriteSets(s: State, name: string, value: string, now: nat)
    ensures var s' := Step(s, Write(name, value), now);
            && Gives(s'.registry, name, value)
            && (forall n, v :: n != name ==> (Gives(s'.registry, n, v) <==> Gives(s.registry, n, v)))
            && (Gives(s.registry, name, value) ==> s' == s)
            && (!Gives(s.registry, name, value) && !s.noSave ==> s'.needFlush && s'.writtenAt == now)
            && (!Gives(s.registry, name, value) && s.noSave ==> s'.needFlush == s.needFlush)
            && s'.(registry := s.registry, needFlush := s.needFlush, lastWrite := s.lastWrite,
                   writtenAt := s.writtenAt) == s
  {
  }

  /** Which steps touch the registry, the file, and the counter. */
  lemma StepFrame(s: State, e: Event, now: nat)
    ensures !(e.Write? || e.Reload? || e.Engage?) ==> Step(s, e, now).registry == s.registry
    ensures e.Write? || e.Sync? || e.Cancel? ==> Step(s, e, now).file == s.file
    ensures e.Timer? || e.SaveToFlash? ==> Step(s, e, now).file in [s.file, Some(s.registry)]
    ensures e.Timer? ==> Step(s, e, now) == s || (s.needFlush && !Step(s, e, now).needFlush)
    ensures !e.Sync? ==> Step(s, e, now).refCount == s.refCount
    ensures e.Cancel? ==> !Step(s, e, now).timerOn || !s.active
    ensures e.Cancel? ==> !Step(s, e, now).active
    ensures Step(s, e, now).base == s.base
  {
  }

  /** An explicit save turns the timer off and blocks saving: until then no run changes the file. */
  lemma SaveToFlashHolds(s: State, now: nat, es: seq<Timed>)
    requires var r := Step(s, SaveToFlash, now); RunOk(r, es) && RunBlocked(r, es)
    ensures var r := Step(s, SaveToFlash, now); Run(r, es).file == r.file || Run(r, es).file == None
  {
    BlockedRun(Step(s, SaveToFlash, now), es);
  }

  // ---------- from one run of the program to the next ----------

  /** Saving is never blocked in a run, nor the object cancelled. */
  ghost predicate Unblocked(es: seq<Timed>) {
    forall i :: 0 <= i < |es| ==> !es[i].event.SaveToFlash? && !es[i].event.FactoryReset? && !es[i].event.Cancel?
  }

  ghost predicate Armed(s: State) {
    s.active && s.timerOn && !s.noSave
  }

  lemma StepStaysArmed(s: State, e: Event, now: nat)
    requires Armed(s) && !e.SaveToFlash? && !e.FactoryReset? && !e.Cancel?
    ensures Armed(Step(s, e, now))
  {
  }

  lemma {:induction false} RunStaysArmed(s: State, es: seq<Timed>)
    requires Armed(s) && RunOk(s, es) && Unblocked(es)
    ensures Armed(Run(s, es))
    decreases |es|
  {
    if es == [] {
    } else {
      StepStaysArmed(s, es[0].event, es[0].now);
      assert forall i :: 0 <= i < |es| - 1 ==> es[1..][i] == es[i + 1];
      hide Step, Armed;
      RunStaysArmed(Step(s, es[0].event, es[0].now), es[1..]);
    }
  }

  /** A program that has been engaged and is not blocked is clean and ready to save. */
  lemma ProgramIsReady(file: Option<Config>, base: Config, start: nat, es: seq<Timed>)
    requires Unblocked(es) && RunOk(Initial(file, base), [Timed(Engage, start)] + es)
    ensures var s := Run(Initial(file, base), [Timed(Engage, start)] + es); Clean(s) && Armed(s)
  {
    var s, all := Initial(file, base), [Timed(Engage, start)] + es;
    var s' := Step(s, Engage, start);
    assert all[1..] == es && Armed(s');
    InitialIsClean(file, base);
    StepCleanIff(s, Timed(Engage, start));
    hide Step, Clean, Orderly, Armed;
    assert Armed(s') ==> s'.active by { ArmedIsActive(s'); }
    ActiveRunIsOrderly(s', es);
    OrderlyStaysClean(s', es);
    RunStaysArmed(s', es);
  }

  lemma ArmedIsActive(s: State)
    ensures Armed(s) ==> s.active
  {
  }

  /** A timer that fires 3 seconds after the last write, with nothing else in between, leaves it in the file. */
  lemma TimerSaves(s: State, timers: seq<Timed>)
    requires Clean(s) && Armed(s) && s.refCount == 0 && OnlyTimers(s, timers)
    requires exists i :: 0 <= i < |timers| && timers[i].now >= s.writtenAt + 3
    ensures RunOk(s, timers) && Run(s, timers).registry == s.registry && Run(s, timers).file == Some(s.registry)
  {
    if s.needFlush {
      TimerRunFlushes(s, timers);
    } else {
      TimerRunIdle(s, timers);
    }
  }

  /**
   A value set in one run of the program, whose sync requests balance, is saved by the next
   timer that fires 3 seconds after it or later, and is in the registry when the program has
   started again, whatever defaults there are then.
   */
  lemma SetSurvivesRestart(file: Option<Config>, base: Config, start: nat, es: seq<Timed>,
                           name: string, value: string, now: nat, timers: seq<Timed>, base2: Config, start2: nat)
    requires Unblocked(es) && RunOk(Initial(file, base), [Timed(Engage, start)] + es)
    requires var s := Run(Initial(file, base), [Timed(Engage, start)] + es);
             var s' := Step(s, Write(name, value), now);
             && s.refCount == 0 && OnlyTimers(s', timers)
             && exists i :: 0 <= i < |timers| && timers[i].now >= s'.writtenAt + 3
    ensures var s := Run(Initial(file, base), [Timed(Engage, start)] + es);
            var s' := Step(s, Write(name, value), now);
            && RunOk(s', timers)
            && Gives(Step(Initial(Run(s', timers).file, base2), Engage, start2).registry, name, value)
  {
    var s := Run(Initial(file, base), [Timed(Engage, start)] + es);
    var s' := Step(s, Write(name, value), now);
    ProgramIsReady(file, base, start, es);
    StepStaysArmed(s, Write(name, value), now);
    StepCleanIff(s, Timed(Write(name, value), now));
    WriteSets(s, name, value, now);
    assert s'.refCount == s.refCount;
    hide Step, Run, Clean, Armed;
    TimerSaves(s', timers);
    EngageLoads(Initial(Run(s', timers).file, base2), start2);
  }
}
