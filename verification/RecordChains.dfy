/**
 The record table as a value: 1024 chains of records, each record in the chain
 its name hashes to (source/Ssp/ssp_cfmif.c).  Insertion, loading and lookup on
 chains, and what they mean for the map from names to records.
 */
module RecordChains {
  import opened CStrings
  import opened Numbers
  import opened RecordText
  import opened ConfigText

  const SIZE: nat := 1024

  type Chain = seq<Rec>
  type Table = seq<Chain>

  /** The 32-bit multiply-by-33 hash, continued from `h`. */
  function HashFrom(s: string, h: nat): nat {
    if s == "" then h else HashFrom(s[1..], (h * 32 + h + s[0] as int) % WORD)
  }

  function Bucket(name: string): (b: nat)
    ensures b < SIZE
  {
    HashFrom(name, 5381) % SIZE
  }

  ghost predicate WellFormed(t: Table) {
    && |t| == SIZE
    && forall i, j :: 0 <= i < SIZE && 0 <= j < |t[i]| ==>
                        Bucket(t[i][j].name) == i && t[i][j].name != "" && t[i][j].rtype != ""
  }

  function Empty(): (t: Table)
    ensures WellFormed(t)
  {
    seq(SIZE, i => [])
  }

  /** The first record of the chain with that name. */
  function IndexOf(c: Chain, name: string): (k: Option<nat>)
    ensures k.Some? ==> k.value < |c| && c[k.value].name == name
    ensures forall j :: 0 <= j < |c| && (k.Some? ==> j < k.value) ==> c[j].name != name
  {
    IndexFrom(c, name, 0)
  }

  function IndexFrom(c: Chain, name: string, from: nat): (k: Option<nat>)
    requires from <= |c|
    ensures k.Some? ==> from <= k.value < |c| && c[k.value].name == name
    ensures forall j :: from <= j < |c| && (k.Some? ==> j < k.value) ==> c[j].name != name
    decreases |c| - from
  {
    if from == |c| then None
    else if c[from].name == name then Some(from)
    else IndexFrom(c, name, from + 1)
  }

  lemma IndexOfIs(c: Chain, name: string, k: nat)
    requires k < |c| && c[k].name == name
    requires forall j :: 0 <= j < k ==> c[j].name != name
    ensures IndexOf(c, name) == Some(k)
  {
  }

  /** A new name goes to the head; a known one is replaced in place, or kept. */
  function InsertChain(c: Chain, r: Rec, overwrite: bool): Chain {
    match IndexOf(c, r.name)
    case None => [r] + c
    case Some(k) => if overwrite then c[k := r] else c
  }

  function Insert(t: Table, r: Rec, overwrite: bool): (t': Table)
    requires |t| == SIZE
    ensures |t'| == SIZE
  {
    var b := Bucket(r.name);
    t[b := InsertChain(t[b], r, overwrite)]
  }

  /** Loading appends to the tail of the chain without looking at names. */
  function Append(t: Table, r: Rec): (t': Table)
    requires |t| == SIZE
    ensures |t'| == SIZE
  {
    var b := Bucket(r.name);
    t[b := t[b] + [r]]
  }

  function InsertAll(t: Table, rs: seq<Rec>, overwrite: bool): (t': Table)
    requires |t| == SIZE
    ensures |t'| == SIZE
    decreases |rs|
  {
    if rs == [] then t else InsertAll(Insert(t, rs[0], overwrite), rs[1..], overwrite)
  }

  function AppendAll(t: Table, rs: seq<Rec>): (t': Table)
    requires |t| == SIZE
    ensures |t'| == SIZE
    decreases |rs|
  {
    if rs == [] then t else AppendAll(Append(t, rs[0]), rs[1..])
  }

  lemma InsertAllCons(t: Table, r: Rec, rs: seq<Rec>, overwrite: bool)
    requires |t| == SIZE
    ensures InsertAll(t, [r] + rs, overwrite) == InsertAll(Insert(t, r, overwrite), rs, overwrite)
  {
    assert ([r] + rs)[1..] == rs;
    hide Insert;
  }

  lemma {:induction false} AppendAllConcat(t: Table, a: seq<Rec>, b: seq<Rec>)
    requires |t| == SIZE
    ensures AppendAll(t, a + b) == AppendAll(AppendAll(t, a), b)
    decreases a
  {
    hide Append;
    if a == [] {
      assert a + b == b;
    } else {
      assert (a + b)[1..] == a[1..] + b;
      AppendAllConcat(Append(t, a[0]), a[1..], b);
    }
  }

  lemma {:induction false} InsertAllConcat(t: Table, a: seq<Rec>, b: seq<Rec>, overwrite: bool)
    requires |t| == SIZE
    ensures InsertAll(t, a + b, overwrite) == InsertAll(InsertAll(t, a, overwrite), b, overwrite)
    decreases a
  {
    hide Insert;
    if a == [] {
      assert a + b == b;
    } else {
      assert (a + b)[1..] == a[1..] + b;
      InsertAllConcat(Insert(t, a[0], overwrite), a[1..], b, overwrite);
    }
  }

  function Find(c: Chain, name: string): Option<Rec> {
    match IndexOf(c, name) case None => None case Some(k) => Some(c[k])
  }

  /** What a search of the name's chain finds. */
  function Lookup(t: Table, name: string): Option<Rec>
    requires |t| == SIZE
  {
    Find(t[Bucket(name)], name)
  }

  /** The first, and the last, record of a list with that name. */
  function First(rs: seq<Rec>, name: string): Option<Rec> {
    if rs == [] then None else if rs[0].name == name then Some(rs[0]) else First(rs[1..], name)
  }

  function Last(rs: seq<Rec>, name: string): Option<Rec> {
    if rs == [] then None
    else match Last(rs[1..], name)
         case Some(r) => Some(r)
         case None => if rs[0].name == name then Some(rs[0]) else None
  }

  predicate AllNamed(rs: seq<Rec>) {
    forall i :: 0 <= i < |rs| ==> rs[i].name != "" && rs[i].rtype != ""
  }

  // ---------- insertion, lookup and the table's shape ----------

  lemma FindInsertChain(c: Chain, r: Rec, overwrite: bool, name: string)
    ensures Find(InsertChain(c, r, overwrite), name) ==
            if r.name == name && (overwrite || Find(c, name).None?) then Some(r) else Find(c, name)
  {
    var c' := InsertChain(c, r, overwrite);
    match IndexOf(c, r.name) {
      case None =>
        if name == r.name {
          IndexOfIs(c', name, 0);
        } else {
          var k := IndexOf(c, name);
          if k.Some? {
            IndexOfIs(c', name, k.value + 1);
          } else {
            assert forall j :: 1 <= j < |c'| ==> c'[j] == c[j - 1];
          }
        }
      case Some(k) =>
        if overwrite && name == r.name {
          IndexOfIs(c', name, k);
        } else if overwrite {
          var m := IndexOf(c, name);
          if m.Some? {
            IndexOfIs(c', name, m.value);
          }
        }
    }
  }

  lemma LookupInsert(t: Table, r: Rec, overwrite: bool, name: string)
    requires |t| == SIZE
    ensures Lookup(Insert(t, r, overwrite), name) ==
            if r.name == name && (overwrite || Lookup(t, name).None?) then Some(r) else Lookup(t, name)
  {
    hide Bucket;
    FindInsertChain(t[Bucket(r.name)], r, overwrite, name);
  }

  /** Without overwrite, what was there stays and the first new record of a name counts. */
  lemma {:induction false} LookupInsertAllKeep(t: Table, rs: seq<Rec>, name: string)
    requires |t| == SIZE
    ensures Lookup(InsertAll(t, rs, false), name) ==
            if Lookup(t, name).Some? then Lookup(t, name) else First(rs, name)
    decreases rs
  {
    hide Lookup, Insert;
    if rs == [] {
    } else {
      LookupInsert(t, rs[0], false, name);
      LookupInsertAllKeep(Insert(t, rs[0], false), rs[1..], name);
    }
  }

  /** With overwrite, the last new record of a name counts. */
  lemma {:induction false} LookupInsertAllOver(t: Table, rs: seq<Rec>, name: string)
    requires |t| == SIZE
    ensures Lookup(InsertAll(t, rs, true), name) ==
            if Last(rs, name).Some? then Last(rs, name) else Lookup(t, name)
    decreases rs
  {
    hide Lookup, Insert;
    if rs == [] {
    } else {
      LookupInsert(t, rs[0], true, name);
      LookupInsertAllOver(Insert(t, rs[0], true), rs[1..], name);
    }
  }

  lemma FindAppend(c: Chain, r: Rec, name: string)
    ensures Find(c + [r], name) ==
            if Find(c, name).Some? then Find(c, name) else if r.name == name then Some(r) else None
  {
    var k := IndexOf(c, name);
    if k.Some? {
      IndexOfIs(c + [r], name, k.value);
    } else if r.name == name {
      IndexOfIs(c + [r], name, |c|);
    }
  }

  /** Loading leaves the first record of each name to be found. */
  lemma {:induction false} LookupAppendAll(t: Table, rs: seq<Rec>, name: string)
    requires |t| == SIZE
    ensures Lookup(AppendAll(t, rs), name) ==
            if Lookup(t, name).Some? then Lookup(t, name) else First(rs, name)
    decreases rs
  {
    if rs == [] {
    } else {
      var r := rs[0];
      hide Bucket, Find;
      FindAppend(t[Bucket(r.name)], r, name);
      assert Lookup(Append(t, r), name) ==
             if Lookup(t, name).Some? then Lookup(t, name) else if r.name == name then Some(r) else None;
      hide Lookup, Append;
      LookupAppendAll(Append(t, r), rs[1..], name);
    }
  }

  lemma InsertWellFormed(t: Table, r: Rec, overwrite: bool)
    requires WellFormed(t) && r.name != "" && r.rtype != ""
    ensures WellFormed(Insert(t, r, overwrite))
  {
    hide Bucket;
  }

  lemma EmptiedWellFormed(t: Table, i: nat)
    requires WellFormed(t) && i < SIZE
    ensures WellFormed(t[i := []])
  {
    hide Bucket;
  }

  lemma AppendWellFormed(t: Table, r: Rec)
    requires WellFormed(t) && r.name != "" && r.rtype != ""
    ensures WellFormed(Append(t, r))
  {
    hide Bucket;
  }

  lemma {:induction false} InsertAllWellFormed(t: Table, rs: seq<Rec>, overwrite: bool)
    requires WellFormed(t) && AllNamed(rs)
    ensures WellFormed(InsertAll(t, rs, overwrite))
    decreases rs
  {
    assert |t| == SIZE;
    hide WellFormed, Insert;
    if rs == [] {
    } else {
      InsertWellFormed(t, rs[0], overwrite);
      InsertAllWellFormed(Insert(t, rs[0], overwrite), rs[1..], overwrite);
    }
  }

  lemma {:induction false} AppendAllWellFormed(t: Table, rs: seq<Rec>)
    requires WellFormed(t) && AllNamed(rs)
    ensures WellFormed(AppendAll(t, rs))
    decreases rs
  {
    assert |t| == SIZE;
    hide WellFormed, Append;
    if rs == [] {
    } else {
      AppendWellFormed(t, rs[0]);
      AppendAllWellFormed(Append(t, rs[0]), rs[1..]);
    }
  }

  // ---------- the table as a map ----------

  ghost function Names(t: Table): set<string> {
    set i, j | 0 <= i < |t| && 0 <= j < |t[i]| :: t[i][j].name
  }

  ghost function AsMap(t: Table): map<string, Rec>
    requires |t| == SIZE
  {
    map n | n in Names(t) && Lookup(t, n).Some? :: Lookup(t, n).value
  }

  /** Every name in a well-formed table is found by searching its own chain. */
  lemma NamesAreFound(t: Table, name: string)
    requires WellFormed(t)
    ensures name in Names(t) <==> Lookup(t, name).Some?
  {
    hide Bucket;
    if name in Names(t) {
      var i, j :| 0 <= i < |t| && 0 <= j < |t[i]| && t[i][j].name == name;
      assert Bucket(name) == i;
    }
    var c := t[Bucket(name)];
    if IndexOf(c, name).Some? {
      assert c[IndexOf(c, name).value].name in Names(t);
    }
  }

  /** The map at a name is what searching the name's chain finds. */
  lemma AsMapAt(t: Table, n: string)
    requires WellFormed(t)
    ensures n in AsMap(t) <==> Lookup(t, n).Some?
    ensures n in AsMap(t) ==> AsMap(t)[n] == Lookup(t, n).value
  {
    assert |t| == SIZE;
    NamesAreFound(t, n);
    hide Names, Lookup, WellFormed;
  }

  lemma MapsEqual(m: map<string, Rec>, m': map<string, Rec>)
    requires forall n :: (n in m <==> n in m') && (n in m ==> m[n] == m'[n])
    ensures m == m'
  {
  }

  /** Insertion refines map update: a new name or an overwrite sets it, otherwise nothing changes. */
  lemma InsertRefinesMap(t: Table, r: Rec, overwrite: bool)
    requires WellFormed(t) && r.name != "" && r.rtype != ""
    ensures AsMap(Insert(t, r, overwrite)) ==
            if overwrite || r.name !in AsMap(t) then AsMap(t)[r.name := r] else AsMap(t)
  {
    assert |t| == SIZE;
    InsertWellFormed(t, r, overwrite);
    AsMapAt(t, r.name);
    hide *;
    var t' := Insert(t, r, overwrite);
    var m := if overwrite || r.name !in AsMap(t) then AsMap(t)[r.name := r] else AsMap(t);
    forall n ensures (n in AsMap(t') <==> n in m) && (n in m ==> AsMap(t')[n] == m[n]) {
      LookupInsert(t, r, overwrite, n);
      AsMapAt(t, n);
      AsMapAt(t', n);
    }
    MapsEqual(AsMap(t'), m);
  }

  ghost predicate DistinctChain(c: Chain) {
    forall j, k :: 0 <= j < k < |c| ==> c[j].name != c[k].name
  }

  /** No name occurs twice (two records of one name can only share a chain). */
  ghost predicate Distinct(t: Table) {
    forall i :: 0 <= i < |t| ==> DistinctChain(t[i])
  }

  lemma InsertChainDistinct(c: Chain, r: Rec, overwrite: bool)
    requires DistinctChain(c)
    ensures DistinctChain(InsertChain(c, r, overwrite))
  {
  }

  /** Insertion never gives a name a second record. */
  lemma {:induction false} InsertAllDistinct(t: Table, rs: seq<Rec>, overwrite: bool)
    requires |t| == SIZE && Distinct(t)
    ensures Distinct(InsertAll(t, rs, overwrite))
    decreases rs
  {
    hide InsertChain, DistinctChain, Bucket;
    if rs == [] {
    } else {
      InsertChainDistinct(t[Bucket(rs[0].name)], rs[0], overwrite);
      InsertAllDistinct(Insert(t, rs[0], overwrite), rs[1..], overwrite);
    }
  }

  // ---------- flushing and reloading ----------

  /** The records in flush order, from chain `i` on. */
  function FlatFrom(t: Table, i: nat): seq<Rec>
    requires i <= |t|
    decreases |t| - i
  {
    if i == |t| then [] else t[i] + FlatFrom(t, i + 1)
  }

  function Flat(t: Table): seq<Rec> {
    FlatFrom(t, 0)
  }

  function InBucket(rs: seq<Rec>, i: nat): Chain {
    if rs == [] then [] else (if Bucket(rs[0].name) == i then [rs[0]] else []) + InBucket(rs[1..], i)
  }

  /** Loading puts into each chain, behind what is there, the records that hash to it, in order. */
  lemma {:induction false} AppendAllChain(t: Table, rs: seq<Rec>, i: nat)
    requires |t| == SIZE && i < SIZE
    ensures AppendAll(t, rs)[i] == t[i] + InBucket(rs, i)
    decreases rs
  {
    if rs == [] {
      assert InBucket(rs, i) == [];
    } else {
      var r, t1 := rs[0], Append(t, rs[0]);
      var c := if Bucket(r.name) == i then [r] else [];
      assert InBucket(rs, i) == c + InBucket(rs[1..], i) && t1[i] == t[i] + c;
      AppendAllChain(t1, rs[1..], i);
      hide Bucket, InBucket, Append;
      assert t[i] + c + InBucket(rs[1..], i) == t[i] + (c + InBucket(rs[1..], i));
    }
  }

  lemma {:induction false} InBucketConcat(a: seq<Rec>, b: seq<Rec>, i: nat)
    ensures InBucket(a + b, i) == InBucket(a, i) + InBucket(b, i)
    decreases a
  {
    if a == [] {
      assert a + b == b;
    } else {
      assert (a + b)[1..] == a[1..] + b;
      InBucketConcat(a[1..], b, i);
      InBucketCons(a + b, i);
      InBucketCons(a, i);
      hide *;
      var c := if Bucket(a[0].name) == i then [a[0]] else [];
      assert c + (InBucket(a[1..], i) + InBucket(b, i)) == c + InBucket(a[1..], i) + InBucket(b, i);
    }
  }

  lemma InBucketCons(rs: seq<Rec>, i: nat)
    requires rs != []
    ensures InBucket(rs, i) == (if Bucket(rs[0].name) == i then [rs[0]] else []) + InBucket(rs[1..], i)
  {
  }

  lemma {:induction false} InBucketOfChain(c: Chain, k: nat, i: nat)
    requires forall j :: 0 <= j < |c| ==> Bucket(c[j].name) == k
    ensures InBucket(c, i) == if i == k then c else []
    decreases c
  {
    hide Bucket;
    if c == [] {
    } else {
      InBucketOfChain(c[1..], k, i);
    }
  }

  lemma {:induction false} InBucketOfFlat(t: Table, from: nat, i: nat)
    requires WellFormed(t) && from <= SIZE && i < SIZE
    ensures InBucket(FlatFrom(t, from), i) == if from <= i then t[i] else []
    decreases SIZE - from
  {
    hide Bucket, InBucket;
    if from < SIZE {
      InBucketOfFlat(t, from + 1, i);
      InBucketConcat(t[from], FlatFrom(t, from + 1), i);
      InBucketOfChain(t[from], from, i);
    } else {
      InBucketOfChain([], 0, i);
    }
  }

  function NormTable(t: Table): (t': Table)
    ensures |t'| == |t|
  {
    seq(|t|, i requires 0 <= i < |t| => NormAll(t[i]))
  }

  lemma {:induction false} NormFlat(t: Table, from: nat)
    requires from <= |t|
    ensures NormAll(FlatFrom(t, from)) == FlatFrom(NormTable(t), from)
    decreases |t| - from
  {
    if from < |t| {
      NormFlat(t, from + 1);
      assert NormAll(t[from] + FlatFrom(t, from + 1)) == NormAll(t[from]) + NormAll(FlatFrom(t, from + 1));
    }
  }

  ghost predicate TableLoadable(t: Table) {
    forall i, j :: 0 <= i < |t| && 0 <= j < |t[i]| ==> Loadable(t[i][j])
  }

  lemma {:induction false} FlatLoadable(t: Table, from: nat)
    requires TableLoadable(t) && from <= |t|
    ensures AllLoadable(FlatFrom(t, from))
    decreases |t| - from
  {
    hide Loadable;
    if from < |t| {
      FlatLoadable(t, from + 1);
    }
  }

  lemma ReloadChains(t: Table)
    requires WellFormed(t)
    ensures AppendAll(Empty(), Flat(t)) == t
  {
    assert |t| == SIZE;
    hide FlatFrom, InBucket, AppendAll, WellFormed;
    forall i | 0 <= i < SIZE ensures AppendAll(Empty(), Flat(t))[i] == t[i] {
      AppendAllChain(Empty(), Flat(t), i);
      InBucketOfFlat(t, 0, i);
    }
  }

  lemma NormWellFormed(t: Table)
    requires WellFormed(t)
    ensures WellFormed(NormTable(t))
  {
    hide Bucket;
  }

  /**
   Table round trip: loading the text a flush prints rebuilds every chain, with the same
   records in the same order (a NULL value as the empty string).
   */
  lemma TableRoundTrip(t: Table)
    requires WellFormed(t) && TableLoadable(t)
    ensures AppendAll(Empty(), ParseText(FlushText(Flat(t)))) == NormTable(t)
  {
    FlatLoadable(t, 0);
    FlushRoundTrip(Flat(t));
    NormFlat(t, 0);
    NormWellFormed(t);
    ReloadChains(NormTable(t));
  }

  // ---------- the records other sources contribute ----------

  /** A parameter from the HAL or from the partner defaults (`PsmHalParam_t`). */
  datatype Param = Param(name: string, value: string)

  function ParamRec(p: Param): Rec {
    Rec(p.name, "astr", None, Some(p.value))
  }

  /** The records parameters are imported as; a nameless parameter is skipped. */
  function ParamRecs(ps: seq<Param>): (rs: seq<Rec>)
    ensures AllNamed(rs)
  {
    if ps == [] then [] else (if ps[0].name == "" then [] else [ParamRec(ps[0])]) + ParamRecs(ps[1..])
  }

  function GivenRecs(ps: Option<seq<Param>>): (rs: seq<Rec>)
    ensures AllNamed(rs)
  {
    match ps case None => [] case Some(ps) => ParamRecs(ps)
  }

  /** The records of a file; none when it cannot be opened. */
  function FileRecs(file: Option<string>): seq<Rec> {
    match file case None => [] case Some(text) => ParseText(text)
  }

  lemma ParamRecsAt(ps: seq<Param>, i: nat)
    requires i < |ps|
    ensures ParamRecs(ps[i..]) ==
            if ps[i].name == "" then ParamRecs(ps[i + 1..]) else [ParamRec(ps[i])] + ParamRecs(ps[i + 1..])
  {
    assert ps[i..][1..] == ps[i + 1..];
  }
}
