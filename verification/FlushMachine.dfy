/**
 The delayed-flush machine of the system registry: flags, the sync counter and
 the periodic timer (source/PsmSysRegistry/psm_sysro_operation.c, psm_sysro_sysramif.c,
 psm_sysro_storage.c, and the branches of source/Ssp/ssp_dbus.c that drive them).
 Steps are atomic; each carries the time at which it happens.
 */
module FlushMachine {
  import opened CStrings
  import opened Numbers

  type Config = map<string, string>

  /** PSM_SYSRO_REG_FLUSH_DELAY and the timer interval, in seconds. */
  const FLUSH_DELAY: nat := 3
  const TIMER_INTERVAL: nat := 10

  /** `AnscGetTickInSeconds`: the time in seconds, as a 32-bit number. */
  function Tick(now: nat): nat {
    now % WORD
  }

  /** The unsigned difference of two ticks. */
  function TickDiff(a: int, b: int): nat {
    (a - b) % WORD
  }

  /**
   The registry object, its repository and its file.  `base` is what reading the file adds to
   it (custom, default and bootstrap records); `writtenAt` is the time of the last write that
   was notified and taken, of which `lastWrite` is the 32-bit tick.
   */
  datatype State = State(
    active: bool, timerOn: bool, noSave: bool, needFlush: bool,
    lastWrite: nat, lastFlush: nat, refCount: nat,
    registry: Config, file: Option<Config>, base: Config, writtenAt: nat)

  function Initial(file: Option<Config>, base: Config): State {
    State(false, false, true, false, 0, 0, 0, map[], file, base, 0)
  }

  datatype Event =
    | Write(name: string, value: string)
    | Timer
    | Sync(enabled: bool)
    | SaveToFlash
    | Reload
    | FactoryReset
    | Engage
    | Cancel

  // ---------- the steps ----------

  /** `PsmSysroSysRamNotify` for a change of a folder or record. */
  function Notified(s: State, now: nat): State {
    if s.noSave then s else s.(lastWrite := Tick(now), needFlush := true, writtenAt := now)
  }

  /** `PsmFloSaveRegFile`: nothing is written while the loader is not active. */
  function Saved(s: State): State {
    if s.active then s.(file := Some(s.registry)) else s
  }

  /** The file after it has been read: what it had wins over what reading adds. */
  function Completed(s: State): Config {
    s.base + if s.file.Some? then s.file.value else map[]
  }

  /** `PsmFloLoadRegFile`: the completed file is written back and laid over the registry. */
  function Loaded(s: State, now: nat): State {
    if !s.active then s
    else
      var c := Completed(s);
      var s' := s.(file := Some(c), registry := s.registry + c);
      if c == map[] then s' else Notified(s', now)
  }

  /** `setParameterValues` on one record: an equal value is not written. */
  function Written(s: State, name: string, value: string, now: nat): State {
    if name in s.registry && s.registry[name] == value then s
    else Notified(s.(registry := s.registry[name := value]), now)
  }

  predicate Due(s: State, now: nat) {
    s.needFlush && TickDiff(Tick(now), s.lastWrite) >= FLUSH_DELAY && s.refCount == 0
  }

  /** `PsmSysroRegTimerInvoke`. */
  function Fired(s: State, now: nat): State {
    if Due(s, now) then Saved(s).(needFlush := false, lastFlush := Tick(now)) else s
  }

  /** `PsmSysroSaveConfigToFlash`. */
  function Flushed(s: State, now: nat): State {
    Saved(s).(noSave := true, timerOn := false, needFlush := false, lastFlush := Tick(now))
  }

  function Step(s: State, e: Event, now: nat): State {
    match e
    case Write(name, value) => Written(s, name, value, now)
    case Timer => Fired(s, now)
    case Sync(enabled) => s.(refCount := (s.refCount + if enabled then WORD - 1 else 1) % WORD)
    case SaveToFlash => Flushed(s, now)
    case Reload => Loaded(Flushed(s, now).(noSave := false, timerOn := true), now)
    case FactoryReset => s.(noSave := true, timerOn := false, file := None)
    case Engage =>
      if s.active then s else Loaded(s.(active := true, timerOn := true), now).(noSave := false)
    case Cancel =>
      if s.active then s.(active := false, timerOn := false) else s
  }

  /** A run: events with their times, which never go back; the timer fires only while it is on. */
  datatype Timed = Timed(event: Event, now: nat)

  predicate Enabled(s: State, e: Timed) {
    e.event.Timer? ==> s.timerOn
  }

  ghost predicate RunOk(s: State, es: seq<Timed>)
    decreases |es|
  {
    es != [] ==> Enabled(s, es[0]) && RunOk(Step(s, es[0].event, es[0].now), es[1..])
  }

  ghost function Run(s: State, es: seq<Timed>): State
    requires RunOk(s, es)
    decreases |es|
  {
    if es == [] then s else Run(Step(s, es[0].event, es[0].now), es[1..])
  }

  // ---------- no lost dirtiness ----------

  /**
   When saving is allowed and no flush is due, the file is the registry; while saving is not
   allowed the timer is off; and the stored tick is that of the last notified write.
   */
  ghost predicate Clean(s: State) {
    && (!s.noSave && !s.needFlush ==> s.file == Some(s.registry))
    && (s.noSave ==> !s.timerOn)
    && (s.timerOn ==> s.active)
    && s.refCount < WORD
    && s.lastWrite == Tick(s.writtenAt)
  }

  /**
   The steps that keep the machine clean: a reload finds the loader active; an engagement that
   unblocks saving finds a flush due or no name in the registry that the completed file lacks.
   Every other step may come at any time.
   */
  predicate Orderly(s: State, e: Event) {
    match e
    case Reload => s.active
    case Engage => s.active || !s.noSave || s.needFlush || s.registry.Keys <= Completed(s).Keys
    case _ => true
  }

  lemma OverlayIsFile(r: Config, c: Config)
    ensures r + c == c <==> r.Keys <= c.Keys
  {
    if r + c == c {
      assert (r + c).Keys == r.Keys + c.Keys;
    } else {
      assert exists n :: n in r && n !in c;
    }
  }

  /** Saving, allowing saves and loading again leaves the machine clean exactly when the loader is active. */
  lemma ReloadCleanIff(s: State, now: nat)
    requires Clean(s)
    ensures Clean(Step(s, Reload, now)) <==> s.active
  {
    var s1 := Flushed(s, now).(noSave := false, timerOn := true);
    OverlayIsFile(s1.registry, Completed(s1));
  }

  lemma EngageKeepsIff(s: State, now: nat)
    requires Clean(s)
    ensures Clean(Step(s, Engage, now)) <==> Orderly(s, Engage)
  {
    if !s.active {
      var c := Completed(s);
      OverlayIsFile(s.registry, c);
      assert s.file == Some(s.registry) && c == map[] ==> s.registry == map[] by {
        OverlayIsFile(s.registry, map[]);
        assert (s.base + s.registry).Keys == s.base.Keys + s.registry.Keys;
      }
    }
  }

  /** From a clean state, exactly the orderly steps lead to a clean one. */
  lemma StepCleanIff(s: State, e: Timed)
    requires Clean(s) && Enabled(s, e)
    ensures Clean(Step(s, e.event, e.now)) <==> Orderly(s, e.event)
  {
    match e.event {
      case Reload => ReloadCleanIff(s, e.now);
      case Engage => EngageKeepsIff(s, e.now);
      case _ =>
    }
  }

  ghost predicate RunOrderly(s: State, es: seq<Timed>)
    requires RunOk(s, es)
    decreases |es|
  {
    es != [] ==> Orderly(s, es[0].event) && RunOrderly(Step(s, es[0].event, es[0].now), es[1..])
  }

  /** Saving is allowed and no flush is due. */
  ghost predicate NothingDue(s: State) {
    !s.noSave && !s.needFlush
  }

  /** What the flag is for: with nothing due, the file is the registry. */
  ghost predicate Consistent(s: State) {
    NothingDue(s) ==> s.file == Some(s.registry)
  }

  /** The state is consistent, and stays so whatever orderly steps follow. */
  ghost predicate Sound(s: State) {
    forall es :: RunOk(s, es) && RunOrderly(s, es) ==> Consistent(Run(s, es))
  }

  lemma {:induction false} OrderlyStaysClean(s: State, es: seq<Timed>)
    requires Clean(s) && RunOk(s, es) && RunOrderly(s, es)
    ensures Clean(Run(s, es))
    decreases |es|
  {
    if es == [] {
    } else {
      StepCleanIff(s, es[0]);
      hide Clean, Step, Orderly;
      OrderlyStaysClean(Step(s, es[0].event, es[0].now), es[1..]);
    }
  }

  lemma CleanIsSound(s: State)
    requires Clean(s)
    ensures Sound(s)
  {
    forall es | RunOk(s, es) && RunOrderly(s, es) ensures Consistent(Run(s, es)) {
      OrderlyStaysClean(s, es);
      hide Run, RunOk, RunOrderly;
    }
  }

  // ---------- an inactive object that is reloaded ----------

  /** A string other than two given ones. */
  function Another(a: string, b: string): (c: string)
    ensures c != a && c != b
  {
    a + b + "x"
  }

  function ValueIn(c: Option<Config>, name: string): string {
    if c.Some? && name in c.value then c.value[name] else ""
  }

  /** The timer of an object that is not active clears the flag of a write without saving it. */
  lemma UnsavedWrite(s: State)
    requires !s.active && s.timerOn && !s.noSave && s.refCount == 0
    ensures exists es :: RunOk(s, es) && RunOrderly(s, es) && !Consistent(Run(s, es))
  {
    var v := Another(ValueIn(s.file, "a"), ValueIn(Some(s.registry), "a"));
    var s1 := Step(s, Write("a", v), 0);
    var s2 := Step(s1, Timer, FLUSH_DELAY);
    assert s1.registry["a"] == v && s1.needFlush;
    assert s.file.Some? ==> s.file.value != s1.registry;
    assert !Consistent(s2);
    var es := [Timed(Write("a", v), 0), Timed(Timer, FLUSH_DELAY)];
    hide Step, Orderly, Consistent;
    TwoSteps(s, es, s1, s2);
  }

  lemma TwoSteps(s: State, es: seq<Timed>, s1: State, s2: State)
    requires |es| == 2 && s1 == Step(s, es[0].event, es[0].now) && s2 == Step(s1, es[1].event, es[1].now)
    requires es[0].event.Write? && es[1].event.Timer? && s1.timerOn
    ensures RunOk(s, es) && RunOrderly(s, es) && Run(s, es) == s2
  {
    hide Step;
    assert es[1..][0] == es[1] && es[1..][1..] == [];
    assert RunOk(s2, []) && RunOrderly(s2, []) && Run(s2, []) == s2;
    assert RunOk(s1, es[1..]) && RunOrderly(s1, es[1..]) && Run(s1, es[1..]) == s2;
  }

  lemma PrependStep(s: State, e: Timed, es: seq<Timed>)
    requires Enabled(s, e) && Orderly(s, e.event)
    requires RunOk(Step(s, e.event, e.now), es) && RunOrderly(Step(s, e.event, e.now), es)
    ensures RunOk(s, [e] + es) && RunOrderly(s, [e] + es)
    ensures Run(s, [e] + es) == Run(Step(s, e.event, e.now), es)
  {
    hide Step, Orderly;
    assert ([e] + es)[1..] == es;
  }

  /** Whatever the sync counter is, enabling brings it to 0, and then a write is lost. */
  lemma {:induction false} InactiveTimerLoses(s: State)
    requires !s.active && s.timerOn && !s.noSave && s.refCount < WORD
    ensures !Sound(s)
    decreases s.refCount
  {
    if s.refCount == 0 {
      UnsavedWrite(s);
    } else {
      var e := Timed(Sync(true), 0);
      var s' := Step(s, e.event, e.now);
      assert s'.refCount == s.refCount - 1;
      InactiveTimerLoses(s');
      var es :| RunOk(s', es) && RunOrderly(s', es) && !Consistent(Run(s', es));
      PrependStep(s, e, es);
    }
  }

  /**
   A reload of a clean state is followed by consistent states only, whatever orderly steps
   come, if and only if the object is active.
   */
  lemma ReloadSoundIff(s: State, now: nat)
    requires Clean(s)
    ensures Sound(Step(s, Reload, now)) <==> s.active
  {
    ReloadCleanIff(s, now);
    if s.active {
      CleanIsSound(Step(s, Reload, now));
    } else {
      InactiveTimerLoses(Step(s, Reload, now));
    }
  }

  /** From a clean state, exactly the orderly steps lead to one that is and stays consistent. */
  lemma StepSoundIff(s: State, e: Timed)
    requires Clean(s) && Enabled(s, e)
    ensures Sound(Step(s, e.event, e.now)) <==> Orderly(s, e.event)
  {
    StepCleanIff(s, e);
    if Orderly(s, e.event) {
      CleanIsSound(Step(s, e.event, e.now));
    } else if e.event.Reload? {
      ReloadSoundIff(s, e.now);
    } else {
      EngageCleanIff(s, e.now);
      NowInconsistent(Step(s, e.event, e.now));
    }
  }

  lemma NowInconsistent(s: State)
    requires !Consistent(s)
    ensures !Sound(s)
  {
    assert RunOk(s, []) && RunOrderly(s, []) && Run(s, []) == s;
  }

  /** Consistent, now and under orderly steps to come, from beginning to end. */
  ghost predicate SoundThroughout(s: State, es: seq<Timed>)
    requires RunOk(s, es)
    decreases |es|
  {
    Sound(s) && (es != [] ==> SoundThroughout(Step(s, es[0].event, es[0].now), es[1..]))
  }

  /**
   No lost dirtiness: in a run from a clean state the file is the registry whenever saving is
   allowed and no flush is due, and can be kept so, if and only if all its steps are orderly.
   */
  lemma {:induction false} NoLostDirtiness(s: State, es: seq<Timed>)
    requires Clean(s) && RunOk(s, es)
    ensures SoundThroughout(s, es) <==> RunOrderly(s, es)
    ensures RunOrderly(s, es) ==> Consistent(Run(s, es))
    decreases |es|
  {
    CleanIsSound(s);
    if es == [] {
    } else {
      var s' := Step(s, es[0].event, es[0].now);
      StepSoundIff(s, es[0]);
      StepCleanIff(s, es[0]);
      hide Clean, Step, Orderly, Sound, Consistent;
      if Clean(s') {
        NoLostDirtiness(s', es[1..]);
      } else {
        assert !SoundThroughout(s', es[1..]);
      }
    }
  }

  lemma InitialIsClean(file: Option<Config>, base: Config)
    ensures Clean(Initial(file, base)) && Orderly(Initial(file, base), Engage)
  {
  }

  // ---------- the runs of the program ----------

  /** An object that is active and cancelled at most at the end. */
  ghost predicate CancelledLast(es: seq<Timed>) {
    forall i :: 0 <= i < |es| - 1 ==> !es[i].event.Cancel?
  }

  lemma {:induction false} ActiveRunIsOrderly(s: State, es: seq<Timed>)
    requires s.active && RunOk(s, es) && CancelledLast(es)
    ensures RunOrderly(s, es)
    decreases |es|
  {
    if es == [] {
    } else {
      var s' := Step(s, es[0].event, es[0].now);
      assert forall i :: 0 <= i < |es| - 2 ==> es[1..][i] == es[i + 1];
      if |es| > 1 {
        StaysActive(s, es[0].event, es[0].now);
        hide Step;
        ActiveRunIsOrderly(s', es[1..]);
      }
    }
  }

  lemma StaysActive(s: State, e: Event, now: nat)
    requires s.active && !e.Cancel?
    ensures Step(s, e, now).active
  {
  }

  /**
   The program creates the object, engages it once, takes requests, and at last cancels and
   removes it: all such runs are orderly, so none loses a change.
   */
  lemma ProgramRuns(file: Option<Config>, base: Config, start: nat, es: seq<Timed>)
    requires CancelledLast(es) && RunOk(Initial(file, base), [Timed(Engage, start)] + es)
    ensures SoundThroughout(Initial(file, base), [Timed(Engage, start)] + es)
    ensures Consistent(Run(Initial(file, base), [Timed(Engage, start)] + es))
  {
    var s, all := Initial(file, base), [Timed(Engage, start)] + es;
    InitialIsClean(file, base);
    assert all[1..] == es;
    assert Step(s, Engage, start).active;
    hide Step, Clean, Orderly, Sound, Consistent, CancelledLast;
    ActiveRunIsOrderly(Step(s, Engage, start), es);
    NoLostDirtiness(s, all);
  }

  /** Set while saving is blocked and then engaged, a record is in memory but never saved. */
  lemma EngageLosesARecord()
    ensures var es := [Timed(Engage, 0), Timed(FactoryReset, 0), Timed(Write("a", "1"), 0), Timed(Cancel, 0),
                       Timed(Engage, 0)];
            && RunOk(Initial(None, map[]), es)
            && var s := Run(Initial(None, map[]), es);
               NothingDue(s) && s.file == Some(map[]) && s.registry == map["a" := "1"]
  {
  }

  /** A reload of an object that is not active starts a timer that clears the flag without saving. */
  lemma ReloadLosesARecord()
    ensures var s0 := Initial(None, map[]);
            var s := Step(Step(Step(s0, Reload, 0), Write("a", "1"), 0), Timer, 3);
            && Step(Step(s0, Reload, 0), Write("a", "1"), 0).timerOn
            && NothingDue(s) && s.file == None && s.registry == map["a" := "1"]
  {
    var s2 := Step(Step(Initial(None, map[]), Reload, 0), Write("a", "1"), 0);
    assert s2.registry == map["a" := "1"];
  }

  /**
   Engaging with saving blocked, the file is the registry afterwards exactly when the registry
   had no name that the completed file lacks: a record set while saving was blocked is kept
   in memory but neither in the file nor marked for flushing.
   */
  lemma EngageCleanIff(s: State, now: nat)
    requires !s.active && s.noSave && !s.needFlush
    ensures var s' := Step(s, Engage, now);
            && !s'.noSave && !s'.needFlush
            && (s'.file == Some(s'.registry) <==> s.registry.Keys <= Completed(s).Keys)
  {
    OverlayIsFile(s.registry, Completed(s));
  }

  /** An explicit save writes the registry exactly when the loader is active or the file was already right. */
  lemma SaveWritesIff(s: State, now: nat)
    ensures var s' := Step(s, SaveToFlash, now);
            !s'.needFlush && (s'.file == Some(s'.registry) <==> s.active || s.file == Some(s.registry))
  {
  }

  // ---------- the quiet period ----------

  /** The unsigned tick difference is the true elapsed time modulo the word, wraps included. */
  lemma ElapsedTicks(now: nat, before: nat)
    requires before <= now
    ensures TickDiff(Tick(now), Tick(before)) == (now - before) % WORD
    ensures now - before < WORD ==> TickDiff(Tick(now), Tick(before)) == now - before
  {
    var a, b := now / WORD, before / WORD;
    assert now % WORD - before % WORD == (now - before) - (a - b) * WORD;
    ModShift(now - before, a - b);
  }

  lemma ModShift(x: int, k: int)
    ensures (x - k * WORD) % WORD == x % WORD
  {
  }

  /** Times in a run never go back past `from`. */
  ghost predicate InOrder(from: nat, es: seq<Timed>) {
    && (forall i :: 0 <= i < |es| ==> from <= es[i].now)
    && (forall i, j :: 0 <= i < j < |es| ==> es[i].now <= es[j].now)
  }

  lemma {:induction false} WrittenInThePast(s: State, es: seq<Timed>, from: nat, until: nat)
    requires RunOk(s, es) && InOrder(from, es) && s.writtenAt <= from <= until
    requires forall i :: 0 <= i < |es| ==> es[i].now <= until
    ensures Run(s, es).writtenAt <= until
    decreases |es|
  {
    if es == [] {
    } else {
      StepWritten(s, es[0].event, es[0].now);
      hide Step;
      WrittenInThePast(Step(s, es[0].event, es[0].now), es[1..], es[0].now, until);
    }
  }

  lemma StepWritten(s: State, e: Event, now: nat)
    ensures Step(s, e, now).writtenAt == s.writtenAt || Step(s, e, now).writtenAt == now
  {
  }

  /** The stored tick is that of the last notified write, whatever the run. */
  lemma {:induction false} TickIsStamped(s: State, es: seq<Timed>)
    requires RunOk(s, es) && s.lastWrite == Tick(s.writtenAt)
    ensures Run(s, es).lastWrite == Tick(Run(s, es).writtenAt)
    decreases |es|
  {
    if es == [] {
    } else {
      StepStamps(s, es[0].event, es[0].now);
      hide Step, Tick;
      TickIsStamped(Step(s, es[0].event, es[0].now), es[1..]);
    }
  }

  lemma StepStamps(s: State, e: Event, now: nat)
    requires s.lastWrite == Tick(s.writtenAt)
    ensures Step(s, e, now).lastWrite == Tick(Step(s, e, now).writtenAt)
  {
  }

  /** Quiet period: in any run, a timer that saves does so at least 3 seconds after the last notified write. */
  lemma QuietPeriod(s: State, es: seq<Timed>, from: nat, now: nat)
    requires s.lastWrite == Tick(s.writtenAt) && s.writtenAt <= from <= now && InOrder(from, es)
    requires forall i :: 0 <= i < |es| ==> es[i].now <= now
    requires RunOk(s, es) && Due(Run(s, es), now)
    ensures now - Run(s, es).writtenAt >= 3
  {
    TickIsStamped(s, es);
    WrittenInThePast(s, es, from, now);
    hide Run, RunOk;
    ElapsedTicks(now, Run(s, es).writtenAt);
  }

  /** When the flush is due at the latest, with a timer that first fires at `first` after the write. */
  function DueTime(writtenAt: nat, first: nat): nat {
    if first >= writtenAt + FLUSH_DELAY then first else first + TIMER_INTERVAL
  }

  /**
   Bounded delay: with the timer running every 10 seconds, saving balanced and no further
   write, the flush happens less than 13 seconds after the write, and not in a firing before.
   */
  lemma BoundedDelay(s: State, first: nat)
    requires Clean(s) && s.timerOn && s.needFlush && s.refCount == 0
    requires s.writtenAt <= first < s.writtenAt + 10
    ensures var due := DueTime(s.writtenAt, first);
            && s.writtenAt + 3 <= due < s.writtenAt + 13 && (due == first || due == first + 10)
            && (due > first ==> Step(s, Timer, first) == s)
            && var s' := Step(s, Timer, due);
               !s'.needFlush && s'.file == Some(s.registry) && s'.registry == s.registry
  {
    ElapsedTicks(first, s.writtenAt);
    ElapsedTicks(DueTime(s.writtenAt, first), s.writtenAt);
  }

  ghost predicate OnlyTimers(s: State, es: seq<Timed>) {
    forall i :: 0 <= i < |es| ==> es[i].event.Timer? && s.writtenAt <= es[i].now < s.writtenAt + WORD
  }

  /**
   Any run of timer firings after a write, however spaced: the flush happens exactly when one of
   them comes 3 seconds or more after the write, and then the file is the registry.
   */
  lemma {:induction false} TimerRunFlushes(s: State, es: seq<Timed>)
    requires Clean(s) && s.timerOn && s.needFlush && s.refCount == 0 && OnlyTimers(s, es)
    ensures RunOk(s, es) && Run(s, es).registry == s.registry
    ensures Run(s, es).needFlush <==> forall i :: 0 <= i < |es| ==> es[i].now < s.writtenAt + 3
    ensures Run(s, es).file == if Run(s, es).needFlush then s.file else Some(s.registry)
    decreases |es|
  {
    if es == [] {
    } else {
      ElapsedTicks(es[0].now, s.writtenAt);
      var s' := Step(s, Timer, es[0].now);
      assert forall i :: 0 <= i < |es| - 1 ==> es[1..][i] == es[i + 1];
      if Due(s, es[0].now) {
        TimerRunIdle(s', es[1..]);
        hide Run;
        assert !(es[0].now < s.writtenAt + 3);
      } else {
        TimerRunFlushes(s, es[1..]);
      }
    }
  }

  lemma {:induction false} TimerRunIdle(s: State, es: seq<Timed>)
    requires s.timerOn && !s.needFlush && forall i :: 0 <= i < |es| ==> es[i].event.Timer?
    ensures RunOk(s, es) && Run(s, es) == s
    decreases |es|
  {
    if es == [] {
    } else {
      TimerRunIdle(s, es[1..]);
    }
  }

  // ---------- blocking writes ----------

  function Count(es: seq<Timed>, enabled: bool): nat {
    if es == [] then 0 else (if es[0].event == Sync(enabled) then 1 else 0) + Count(es[1..], enabled)
  }

  /** What one event adds to the balance of disables over enables. */
  function Balance(e: Event): int {
    if e == Sync(false) then 1 else if e == Sync(true) then -1 else 0
  }

  lemma StepBalance(s: State, e: Event, now: nat)
    requires s.refCount < WORD
    ensures Step(s, e, now).refCount == (s.refCount + Balance(e)) % WORD
  {
    if e == Sync(true) {
      ModShift(s.refCount - 1, -1);
    }
  }

  lemma CountStep(es: seq<Timed>)
    requires es != []
    ensures Count(es, false) - Count(es, true) ==
            Balance(es[0].event) + (Count(es[1..], false) - Count(es[1..], true))
  {
  }

  lemma ModStep(x: int, d: int)
    ensures ((x % WORD) + d) % WORD == (x + d) % WORD
  {
  }

  /** The sync counter is the number of disables minus that of enables, as a 32-bit number. */
  lemma {:induction false} SyncBalance(s: State, es: seq<Timed>)
    requires RunOk(s, es) && s.refCount < WORD
    ensures Run(s, es).refCount == (s.refCount + (Count(es, false) - Count(es, true))) % WORD
    decreases |es|
  {
    if es == [] {
    } else {
      StepBalance(s, es[0].event, es[0].now);
      CountStep(es);
      hide Step, Count, Balance;
      SyncBalance(Step(s, es[0].event, es[0].now), es[1..]);
      ModStep(s.refCount + Balance(es[0].event), Count(es[1..], false) - Count(es[1..], true));
    }
  }

  /** The timer saves only when disables and enables balance. */
  lemma SavesOnlyWhenBalanced(file: Option<Config>, base: Config, es: seq<Timed>, now: nat)
    requires RunOk(Initial(file, base), es) && Due(Run(Initial(file, base), es), now)
    ensures (Count(es, false) - Count(es, true)) % WORD == 0
  {
    SyncBalance(Initial(file, base), es);
    hide Run, RunOk, Count;
  }

  /** The events that leave saving blocked; engaging an object that is active does nothing. */
  predicate Blocked(s: State, e: Event) {
    e.Write? || e.Timer? || e.Sync? || e.FactoryReset? || e.Cancel? || (e.Engage? && s.active)
  }

  ghost predicate RunBlocked(s: State, es: seq<Timed>)
    requires RunOk(s, es)
    decreases |es|
  {
    es != [] ==> Blocked(s, es[0].event) && RunBlocked(Step(s, es[0].event, es[0].now), es[1..])
  }

  /**
   After a factory reset, until the object is engaged again, reloaded or explicitly saved, no
   run of writes, timer firings and sync changes brings a file back.
   */
  lemma {:induction false} ResetHolds(s: State, now: nat, es: seq<Timed>)
    requires var r := Step(s, FactoryReset, now); RunOk(r, es) && RunBlocked(r, es)
    ensures Run(Step(s, FactoryReset, now), es).file == None
  {
    BlockedRun(Step(s, FactoryReset, now), es);
  }

  lemma {:induction false} BlockedRun(s: State, es: seq<Timed>)
    requires s.noSave && !s.timerOn && RunOk(s, es) && RunBlocked(s, es)
    ensures Run(s, es).file == s.file || Run(s, es).file == None
    decreases |es|
  {
    if es == [] {
    } else {
      BlockedRun(Step(s, es[0].event, es[0].now), es[1..]);
    }
  }
}
