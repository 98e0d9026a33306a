/**
 What importing a list of parameters does to a table (source/Ssp/ssp_cfmif.c), told by the
 parameters themselves: `import_custom_params` keeps what is there,
 `import_custom_partners_params` overwrites it.
 */
module ImportedParams {
  import opened CStrings
  import opened RecordText
  import opened RecordChains

  ghost predicate FirstNamed(ps: seq<Param>, i: nat) {
    i < |ps| && forall j :: 0 <= j < i ==> ps[j].name != ps[i].name
  }

  ghost predicate LastNamed(ps: seq<Param>, i: nat) {
    i < |ps| && forall j :: i < j < |ps| ==> ps[j].name != ps[i].name
  }

  ghost predicate Unnamed(ps: seq<Param>, name: string) {
    forall i :: 0 <= i < |ps| ==> ps[i].name != name
  }

  /** The record a parameter becomes: a string of that name with that value. */
  ghost predicate Holds(t: Table, p: Param)
    requires |t| == SIZE
  {
    Lookup(t, p.name) == Some(Rec(p.name, "astr", None, Some(p.value)))
  }

  /**
   From `t` to `t'` by an import: with overwrite the last value given to a name is in force,
   without it the first one if the name was absent; all other names find what they found.
   */
  ghost predicate Imported(t: Table, t': Table, ps: seq<Param>, overwrite: bool)
    requires |t| == SIZE && |t'| == SIZE
  {
    && (forall i :: 0 <= i < |ps| && ps[i].name != "" && overwrite && LastNamed(ps, i) ==> Holds(t', ps[i]))
    && (forall i :: 0 <= i < |ps| && ps[i].name != "" && !overwrite && FirstNamed(ps, i) ==>
                      Lookup(t, ps[i].name).None? ==> Holds(t', ps[i]))
    && (forall n: string :: n == "" || Unnamed(ps, n) || (!overwrite && Lookup(t, n).Some?) ==>
                              Lookup(t', n) == Lookup(t, n))
  }

  lemma {:induction false} NoParam(ps: seq<Param>, name: string)
    requires name == "" || Unnamed(ps, name)
    ensures First(ParamRecs(ps), name) == None && Last(ParamRecs(ps), name) == None
    decreases ps
  {
    if ps == [] {
    } else {
      assert Unnamed(ps, name) ==> Unnamed(ps[1..], name);
      NoParam(ps[1..], name);
      ParamRecsCons(ps);
      FirstLastCons(ps, name);
      hide ParamRecs, First, Last;
    }
  }

  lemma ParamRecsCons(ps: seq<Param>)
    requires ps != []
    ensures ParamRecs(ps) == (if ps[0].name == "" then [] else [ParamRec(ps[0])]) + ParamRecs(ps[1..])
  {
  }

  /** How the first parameter enters the search of the records. */
  lemma FirstLastCons(ps: seq<Param>, name: string)
    requires ps != []
    ensures var p, more := ps[0], ParamRecs(ps[1..]);
            var r := Rec(p.name, "astr", None, Some(p.value));
            && First(ParamRecs(ps), name) == (if p.name == name != "" then Some(r) else First(more, name))
            && Last(ParamRecs(ps), name) ==
               if Last(more, name).Some? then Last(more, name) else if p.name == name != "" then Some(r) else None
  {
    ParamRecsCons(ps);
    var p, more := ps[0], ParamRecs(ps[1..]);
    NamelessRec(more, name);
    if p.name == "" {
      assert [] + more == more;
    } else {
      assert ([ParamRec(p)] + more)[1..] == more;
    }
  }

  /** No record is nameless. */
  lemma {:induction false} NamelessRec(rs: seq<Rec>, name: string)
    requires AllNamed(rs)
    ensures name == "" ==> First(rs, name) == None && Last(rs, name) == None
    decreases rs
  {
    if rs == [] {
    } else {
      NamelessRec(rs[1..], name);
    }
  }

  lemma {:induction false} FirstParam(ps: seq<Param>, i: nat)
    requires FirstNamed(ps, i) && ps[i].name != ""
    ensures First(ParamRecs(ps), ps[i].name) == Some(Rec(ps[i].name, "astr", None, Some(ps[i].value)))
    decreases ps
  {
    FirstLastCons(ps, ps[i].name);
    if i == 0 {
    } else {
      assert FirstNamed(ps[1..], i - 1) by {
        assert forall j :: 0 <= j < i - 1 ==> ps[1..][j] == ps[j + 1];
      }
      FirstParam(ps[1..], i - 1);
    }
  }

  lemma {:induction false} LastParam(ps: seq<Param>, i: nat)
    requires LastNamed(ps, i) && ps[i].name != ""
    ensures Last(ParamRecs(ps), ps[i].name) == Some(Rec(ps[i].name, "astr", None, Some(ps[i].value)))
    decreases ps
  {
    FirstLastCons(ps, ps[i].name);
    if i == 0 {
      assert Unnamed(ps[1..], ps[0].name);
      NoParam(ps[1..], ps[0].name);
    } else {
      assert LastNamed(ps[1..], i - 1) by {
        assert forall j :: 0 <= j < |ps| - 1 ==> ps[1..][j] == ps[j + 1];
      }
      LastParam(ps[1..], i - 1);
    }
  }

  lemma ImportMeans(t: Table, ps: seq<Param>, overwrite: bool)
    requires |t| == SIZE
    ensures Imported(t, InsertAll(t, ParamRecs(ps), overwrite), ps, overwrite)
  {
    hide Lookup, InsertAll, ParamRecs, First, Last;
    var t' := InsertAll(t, ParamRecs(ps), overwrite);
    forall i | 0 <= i < |ps| && ps[i].name != "" && overwrite && LastNamed(ps, i) ensures Holds(t', ps[i]) {
      LookupInsertAllOver(t, ParamRecs(ps), ps[i].name);
      LastParam(ps, i);
    }
    forall i | 0 <= i < |ps| && ps[i].name != "" && !overwrite && FirstNamed(ps, i) && Lookup(t, ps[i].name).None?
      ensures Holds(t', ps[i])
    {
      LookupInsertAllKeep(t, ParamRecs(ps), ps[i].name);
      FirstParam(ps, i);
    }
    forall n: string | n == "" || Unnamed(ps, n) || (!overwrite && Lookup(t, n).Some?)
      ensures Lookup(t', n) == Lookup(t, n)
    {
      if overwrite {
        LookupInsertAllOver(t, ParamRecs(ps), n);
      } else {
        LookupInsertAllKeep(t, ParamRecs(ps), n);
      }
      if n == "" || Unnamed(ps, n) {
        NoParam(ps, n);
      }
    }
  }
}
