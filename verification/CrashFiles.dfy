/**
 The save and the three-attempt recovery as the source runs them
 (source/PsmSysRegistry/psm_sysro_cfmif.c, `backup_file` in source/Ssp/ssp_cfmif.c),
 proved to go through exactly the steps of CrashProtocol.
 */
module CrashFiles {
  import opened CStrings
  import opened CrashProtocol
  import opened FileWrites

  class ConfigFiles {
    var cur: Option<string>
    var bak: Option<string>
    var def: Option<string>
    /** The disk after every step that changed it. */
    ghost var trace: seq<Disk>

    ghost function State(): Disk
      reads this
    {
      Disk(cur, bak, def)
    }

    constructor (cur: Option<string>, bak: Option<string>, def: Option<string>)
      ensures State() == Disk(cur, bak, def) && trace == []
    {
      this.cur, this.bak, this.def := cur, bak, def;
      trace := [];
    }

    /** Truncates the current file (creating it if need be) and writes the first `n` bytes of a text. */
    method WriteCur(text: string, n: nat)
      requires n <= |text|
      modifies this
      ensures trace == old(trace) + WriteCurTrace(old(State()), text, n)
      ensures State() == old(State()).(cur := Some(text[..n]))
    {
      ghost var d, steps := State(), WriteCurTrace(State(), text, n);
      cur := Some("");
      trace := trace + [State()];
      assert text[..0] == "" && steps[..1] == [steps[0]];
      for k := 0 to n
        invariant State() == d.(cur := Some(text[..k])) && trace == old(trace) + steps[..k + 1]
      {
        cur := Some(text[..k + 1]);
        trace := trace + [State()];
        assert steps[..k + 1] + [steps[k + 1]] == steps[..k + 2];
      }
      assert steps[..n + 1] == steps;
    }

    /** `backup_file(bak, cur)`: it fails before the backup is touched, or stores what its write stores. */
    method BackupFile(w: Writes) returns (rc: int)
      requires cur.Some? ==> w.stored <= |cur.value|
      modifies this
      ensures trace == old(trace) + BackupTrace(old(State()), w)
      ensures State() == After(old(State()), BackupTrace(old(State()), w))
      ensures rc == if BackupStarts(old(State()), w) && w.stored == |old(cur).value| then 0 else -1
    {
      if cur.None? || |cur.value| == 0 || !w.started {
        return -1;
      }
      var mem := cur.value;
      ghost var d, steps := State(), BackupTrace(State(), w);
      bak := Some("");
      trace := trace + [State()];
      assert mem[..0] == "" && steps[..1] == [steps[0]];
      for k := 0 to w.stored
        invariant State() == d.(bak := Some(mem[..k])) && trace == old(trace) + steps[..k + 1]
      {
        bak := Some(mem[..k + 1]);
        trace := trace + [State()];
        assert steps[..k + 1] + [steps[k + 1]] == steps[..k + 2];
      }
      assert steps[..w.stored + 1] == steps;
      rc := if w.stored < |mem| then -1 else 0;
    }

    /**
     `PsmSysroCfmSaveCurConfig`: a failed backup is only logged; a current file that is missing
     or cannot be opened fails the save, and so does a short write.
     */
    method SaveCurConfig(text: string, w: Writes) returns (ok: bool)
      requires Possible(State(), text, w)
      modifies this
      ensures trace == old(trace) + SaveTrace(old(State()), text, w)
      ensures State() == After(old(State()), SaveTrace(old(State()), text, w))
      ensures ok == (Rewrites(old(State()), w) && w.written == |text|)
      ensures ok ==> cur == Some(text)
    {
      var rc := BackupFile(w);
      if cur.None? || !w.canOpen {
        return false;
      }
      WriteCur(text, w.written);
      ok := w.written == |text|;
      assert text[..|text|] == text;
    }

    /** `AnscCopyFile` over the current file; a missing source changes nothing. */
    method CopyOverCur(from: Option<string>) returns (ok: bool)
      modifies this
      ensures trace == old(trace) + CopyTrace(old(State()), from)
      ensures State() == After(old(State()), CopyTrace(old(State()), from))
      ensures cur == (if from.Some? then from else old(cur)) && bak == old(bak) && def == old(def)
      ensures ok == from.Some?
    {
      ok := from.Some?;
      if ok {
        WriteCur(from.value, |from.value|);
        assert from.value[..|from.value|] == from.value;
      }
    }

    /** `PsmSysroCfmReadCurConfig`: current, then backup, then default, each checked before it is returned. */
    method ReadCurConfig<C>(parse: string -> Option<C>) returns (config: Option<string>)
      modifies this
      ensures config == Recovered(parse, old(State()))
      ensures config.None? <==>
              forall f :: f in [old(cur), old(bak), old(def)] && f.Some? && f.value != "" ==> parse(f.value).None?
      ensures config.Some? ==> cur == config
      ensures trace == old(trace) + RecoverTrace(parse, old(State()))
      ensures State() == After(old(State()), RecoverTrace(parse, old(State())))
    {
      ghost var d := State();
      RecoveryFindsFirst(parse, d);
      hide WriteCurTrace;
      for i := 0 to 3
        invariant bak == d.bak && def == d.def
        invariant i == 2 ==> cur == if d.bak.Some? then d.bak else d.cur
        invariant i <= 1 ==> trace == old(trace) && State() == d
        invariant i >= 1 ==> !Readable(parse, d.cur)
        invariant i >= 2 ==> !Readable(parse, d.bak)
        invariant i == 2 ==> trace == old(trace) + CopyTrace(d, d.bak) && State() == After(d, CopyTrace(d, d.bak))
        invariant i == 3 ==> !Readable(parse, d.def) && trace == old(trace) + RecoverTrace(parse, d)
        invariant i == 3 ==> State() == After(d, RecoverTrace(parse, d))
      {
        match i {
          case 0 =>
          case 1 =>
            if bak.None? {
              continue;
            }
            var copied := CopyOverCur(bak);
          case _ =>
            var copied := CopyOverCur(def);
        }
        if cur.None? || |cur.value| == 0 {
          continue;
        }
        if parse(cur.value).Some? {
          config := cur;
          return;
        }
      }
      config := None;
    }
  }
}
