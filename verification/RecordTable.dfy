/**
 The record hash table as the source keeps it (source/Ssp/ssp_cfmif.c): 1024
 heads of singly linked chains whose nodes are relinked in place.  Every
 operation is tied to the table value of RecordChains.
 */
module RecordTable {
  import opened CStrings
  import opened RecordText
  import opened ConfigText
  import opened ImportedParams
  import opened RecordChains
  import opened RecordParser
  import opened ConfigMerge

  /** `struct psm_record`: the strings never change once created, the link does. */
  class PsmRecord {
    const rec: Rec
    var next: PsmRecord?

    constructor (rec: Rec)
      ensures this.rec == rec && next == null
    {
      this.rec := rec;
      next := null;
    }
  }

  type Nodes = seq<PsmRecord>

  ghost function Recs(c: Nodes): (r: Chain)
    ensures |r| == |c|
  {
    seq(|c|, i requires 0 <= i < |c| => c[i].rec)
  }

  ghost function View(chains: seq<Nodes>): (t: Table)
    ensures |t| == |chains|
    ensures forall i :: 0 <= i < |chains| ==> t[i] == Recs(chains[i])
  {
    seq(|chains|, i requires 0 <= i < |chains| => Recs(chains[i]))
  }

  lemma ViewUpdate(chains: seq<Nodes>, h: nat, c: Nodes)
    requires h < |chains|
    ensures View(chains[h := c]) == View(chains)[h := Recs(c)]
  {
  }

  /** What relinking a chain does to the records in it, when the name is new. */
  lemma PushedRecs(c: Nodes, node: PsmRecord, overwrite: bool)
    requires forall k :: 0 <= k < |c| ==> c[k].rec.name != node.rec.name
    ensures InsertChain(Recs(c), node.rec, overwrite) == Recs([node] + c)
  {
  }

  /** The same when the first node of that name is at `j`. */
  lemma ReplacedRecs(c: Nodes, node: PsmRecord, j: nat, overwrite: bool)
    requires j < |c| && c[j].rec.name == node.rec.name
    requires forall k :: 0 <= k < j ==> c[k].rec.name != node.rec.name
    ensures InsertChain(Recs(c), node.rec, overwrite) == Recs(if overwrite then c[j := node] else c)
  {
    IndexOfIs(Recs(c), node.rec.name, j);
    hide IndexOf;
  }

  lemma AppendedRecs(c: Nodes, node: PsmRecord)
    ensures Recs(c + [node]) == Recs(c) + [node.rec]
  {
  }

  lemma SameCString(line: seq<char>, s: string)
    requires |s| < |line| && line[|s|] == NUL && forall i :: 0 <= i < |s| ==> line[i] == s[i]
    ensures StrEnd(line, 0) <= |s| && CStr(line, 0) == CStr(s, 0)
  {
    StrEndIs(line, 0, StrEnd(s, 0));
  }

  lemma ParseTextUnfold(text: string)
    requires text != ""
    ensures var n := FgetsLength(text); ParseText(text) == LineRecord(text[..n]) + ParseText(text[n..])
  {
    hide FgetsLength, LineRecord;
  }

  lemma LineRead(text: string, pos: nat, n: nat, line: seq<char>)
    requires pos < |text| && n == FgetsLength(text[pos..]) && n < |line|
    requires (forall i :: 0 <= i < n ==> line[i] == text[pos + i]) && line[n] == NUL
    ensures StrEnd(line, 0) <= n
    ensures ParseText(text[pos..]) == LineRecord(line) + ParseText(text[pos + n..])
  {
    hide StrEnd, CStr, FgetsLength, ParseText, ParseLine;
    ParseTextUnfold(text[pos..]);
    assert text[pos..][n..] == text[pos + n..];
    SameCString(line, text[pos..][..n]);
  }

  /** `fgets`: the next line of the text, NUL-terminated, into the line buffer. */
  method Fgets(text: string, pos: nat, line: array<char>) returns (n: nat)
    requires pos < |text| && line.Length == LINE_MAX + 1
    modifies line
    ensures 0 < n == FgetsLength(text[pos..]) && pos + n <= |text|
    ensures (forall i :: 0 <= i < n ==> line[i] == text[pos + i]) && line[n] == NUL
  {
    n := FgetsLength(text[pos..]);
    forall i | 0 <= i < n {
      line[i] := text[pos + i];
    }
    line[n] := NUL;
  }

  /** `snprintf(buf + off, left, ...)`: as much as fits with its NUL; the full length is returned. */
  method Snprintf(buf: array<char>, off: nat, left: nat, s: string) returns (n: nat)
    requires 0 < left && off + left <= buf.Length
    modifies buf
    ensures n == |s|
    ensures buf[..off] == old(buf[..off])
    ensures n < left ==> buf[..off + n] == old(buf[..off]) + s && buf[off + n] == NUL
    ensures n >= left ==> buf[..off + left - 1] == old(buf[..off]) + s[..left - 1] && buf[off + left - 1] == NUL
    ensures forall i :: off + left <= i < buf.Length ==> buf[i] == old(buf[i])
  {
    n := |s|;
    var stored := if n < left then n else left - 1;
    forall i | 0 <= i < stored {
      buf[off + i] := s[i];
    }
    buf[off + stored] := NUL;
  }

  lemma RecsFrom(c: Nodes, j: nat, tail: seq<Rec>)
    requires j < |c|
    ensures Recs(c[j..]) + tail == [c[j].rec] + (Recs(c[j + 1..]) + tail)
  {
    assert Recs(c[j..]) == [c[j].rec] + Recs(c[j + 1..]);
  }

  lemma AllFlushed(t: Table, left: nat)
    requires |t| == SIZE
    ensures PrintRecs(FlatFrom(t, SIZE)) == "" && FlushRoom(FlatFrom(t, SIZE), left) == Some(left)
  {
  }

  /** The chains once those before `i` have been flushed. */
  ghost function EmptiedBefore(c: seq<Nodes>, i: nat): seq<Nodes> {
    seq(|c|, k requires 0 <= k < |c| => if k < i then [] else c[k])
  }

  lemma EmptiedAt(c: seq<Nodes>)
    ensures EmptiedBefore(c, 0) == c
    ensures |EmptiedBefore(c, |c|)| == |c| && forall k :: 0 <= k < |c| ==> EmptiedBefore(c, |c|)[k] == []
    ensures |c| == SIZE ==> View(EmptiedBefore(c, |c|)) == Empty()
  {
  }

  lemma EmptiedNext(c: seq<Nodes>, i: nat)
    requires i < |c|
    ensures |EmptiedBefore(c, i)| == |c| && EmptiedBefore(c, i)[i] == c[i]
    ensures EmptiedBefore(c, i + 1) == EmptiedBefore(c, i)[i := []]
    ensures c[i] == [] ==> EmptiedBefore(c, i + 1) == EmptiedBefore(c, i)
  {
  }

  lemma FlatAt(t: Table, i: nat)
    requires i < |t|
    ensures FlatFrom(t, i) == t[i] + FlatFrom(t, i + 1)
    ensures t[i] == [] ==> FlatFrom(t, i) == FlatFrom(t, i + 1)
  {
    hide FlatFrom;
    FlatUnfold(t, i);
    assert t[i] == [] ==> t[i] + FlatFrom(t, i + 1) == FlatFrom(t, i + 1);
  }

  lemma FlatUnfold(t: Table, i: nat)
    requires i < |t|
    ensures FlatFrom(t, i) == t[i] + FlatFrom(t, i + 1)
  {
  }

  lemma FlatStart(t: Table)
    ensures Flat(t) == FlatFrom(t, 0)
  {
    hide FlatFrom;
  }

  lemma HeaderFits()
    ensures |HEADER| < BASE && |FOOTER| < BASE - |HEADER|
  {
  }

  /** The nodes of `c`, linked in order from `head` to a NULL link, no node twice. */
  ghost predicate Linked(head: PsmRecord?, c: Nodes)
    reads c
  {
    && (head == null <==> |c| == 0)
    && (|c| > 0 ==> head == c[0] && c[|c| - 1].next == null)
    && (forall j :: 0 <= j < |c| - 1 ==> c[j].next == c[j + 1])
    && (forall j, k :: 0 <= j < k < |c| ==> c[j] != c[k])
  }

  class RecHash {
    const heads: array<PsmRecord?>
    ghost var chains: seq<Nodes>

    ghost function NodeSet(): set<PsmRecord>
      reads this
    {
      set i, j | 0 <= i < |chains| && 0 <= j < |chains[i]| :: chains[i][j]
    }

    ghost predicate Valid()
      reads this, heads, NodeSet()
    {
      && heads.Length == SIZE == |chains|
      && WellFormed(View(chains))
      && forall i :: 0 <= i < SIZE ==> Linked(heads[i], chains[i])
    }

    /** The table this hash table stands for. */
    ghost function Contents(): Table
      reads this
    {
      View(chains)
    }

    constructor ()
      ensures Valid() && fresh(heads) && NodeSet() == {} && Contents() == Empty()
    {
      heads := new PsmRecord?[SIZE](_ => null);
      chains := seq(SIZE, _ => []);
    }

    /** A node's chain is fixed by its name, so no other chain holds it. */
    lemma InOneChain(i: nat, h: nat, n: PsmRecord)
      requires Valid() && i < SIZE && h < SIZE && i != h && n in chains[h]
      ensures n !in chains[i]
    {
      hide Bucket;
      assert forall k, j :: 0 <= k < SIZE && 0 <= j < |chains[k]| ==>
          View(chains)[k][j] == chains[k][j].rec && Bucket(chains[k][j].rec.name) == k;
    }

    /** `node` becomes the head of chain `h`. */
    method PushHead(node: PsmRecord, h: nat)
      requires heads.Length == SIZE == |chains| && h < SIZE
      requires forall i :: 0 <= i < SIZE ==> Linked(heads[i], chains[i])
      requires node !in NodeSet()
      modifies this, heads, node
      ensures chains == old(chains)[h := [node] + old(chains)[h]]
      ensures forall i :: 0 <= i < SIZE ==> Linked(heads[i], chains[i])
    {
      ghost var c := chains[h];
      assert forall i :: 0 <= i < SIZE ==> node !in chains[i];
      node.next := heads[h];
      heads[h] := node;
      chains := chains[h := [node] + c];
    }

    /** `node` takes the place of `rec`, which is at `j` in chain `h`, behind `prev`. */
    method Replace(node: PsmRecord, h: nat, prev: PsmRecord?, rec: PsmRecord, ghost j: nat)
      requires Valid() && h < SIZE && j < |chains[h]|
      requires node !in NodeSet()
      requires rec == chains[h][j] && prev == if j == 0 then null else chains[h][j - 1]
      modifies this, heads, NodeSet(), node
      ensures chains == old(chains)[h := old(chains)[h][j := node]]
      ensures forall i :: 0 <= i < SIZE ==> Linked(heads[i], chains[i])
    {
      ghost var c := chains[h];
      assert forall i :: 0 <= i < SIZE ==> node !in chains[i];
      forall i | 0 <= i < SIZE && i != h && prev != null ensures prev !in chains[i] {
        InOneChain(i, h, prev);
      }
      node.next := rec.next;
      if rec == heads[h] {
        heads[h] := node;
      } else {
        prev.next := node;
      }
      chains := chains[h := c[j := node]];
    }

    /** The walk along chain `h`: the first node of that name, and the node before it. */
    method Walk(h: nat, name: string) returns (prev: PsmRecord?, rec: PsmRecord?, ghost j: nat)
      requires Valid() && h < SIZE
      ensures j <= |chains[h]|
      ensures rec == if j < |chains[h]| then chains[h][j] else null
      ensures prev == if j == 0 then null else chains[h][j - 1]
      ensures rec != null ==> rec.rec.name == name
      ensures forall k :: 0 <= k < j ==> chains[h][k].rec.name != name
    {
      ghost var c := chains[h];
      prev, rec, j := null, heads[h], 0;
      while rec != null
        invariant 0 <= j <= |c|
        invariant rec == if j < |c| then c[j] else null
        invariant prev == if j == 0 then null else c[j - 1]
        invariant forall k :: 0 <= k < j ==> c[k].rec.name != name
        decreases |c| - j
      {
        if rec.rec.name == name {
          break;
        }
        prev, rec, j := rec, rec.next, j + 1;
      }
    }

    /** `insert_record`: relinks the chain of the name's bucket. */
    method InsertRecord(node: PsmRecord, overwrite: bool)
      requires Valid() && node !in NodeSet() && node.next == null
      requires node.rec.name != "" && node.rec.rtype != ""
      modifies this, heads, NodeSet(), node
      ensures Valid() && Contents() == RecordChains.Insert(old(Contents()), node.rec, overwrite)
      ensures NodeSet() <= old(NodeSet()) + {node}
    {
      hide Bucket, InsertChain, WellFormed;
      var h := Bucket(node.rec.name);
      ghost var c := chains[h];
      RecordChains.InsertWellFormed(View(chains), node.rec, overwrite);
      if heads[h] == null {
        PushedRecs(c, node, overwrite);
        ViewUpdate(chains, h, [node] + c);
        PushHead(node, h);
      } else {
        var prev, rec, j := Walk(h, node.rec.name);
        if rec == null {
          PushedRecs(c, node, overwrite);
          ViewUpdate(chains, h, [node] + c);
          PushHead(node, h);
        } else {
          ReplacedRecs(c, node, j, overwrite);
          ViewUpdate(chains, h, if overwrite then c[j := node] else c);
          if overwrite {
            Replace(node, h, prev, rec, j);
          } else {
            assert chains == chains[h := c];
          }
        }
      }
    }

    /** The walk to the last node of chain `h`. */
    method LastOf(h: nat) returns (last: PsmRecord)
      requires Valid() && h < SIZE && chains[h] != []
      ensures last == chains[h][|chains[h]| - 1]
    {
      ghost var c, j := chains[h], 0;
      last := heads[h];
      while last.next != null
        invariant 0 <= j < |c| && last == c[j]
        invariant last.next == if j < |c| - 1 then c[j + 1] else null
        decreases |c| - j
      {
        last, j := last.next, j + 1;
      }
    }

    /** `node` goes behind the last node of chain `h`. */
    method PushTail(node: PsmRecord, h: nat)
      requires Valid() && h < SIZE && node !in NodeSet() && node.next == null
      modifies this, heads, NodeSet(), node
      ensures chains == old(chains)[h := old(chains)[h] + [node]]
      ensures forall i :: 0 <= i < SIZE ==> Linked(heads[i], chains[i])
    {
      hide WellFormed;
      ghost var c := chains[h];
      assert forall i :: 0 <= i < SIZE ==> node !in chains[i];
      if heads[h] == null {
        heads[h] := node;
      } else {
        var last := LastOf(h);
        forall i | 0 <= i < SIZE && i != h ensures last !in chains[i] {
          InOneChain(i, h, last);
        }
        last.next := node;
      }
      chains := chains[h := c + [node]];
    }

    /** One round of `load_records`: the record goes to the tail, whatever names are there. */
    method AppendRecord(node: PsmRecord)
      requires Valid() && node !in NodeSet() && node.next == null
      requires node.rec.name != "" && node.rec.rtype != ""
      modifies this, heads, NodeSet(), node
      ensures Valid() && Contents() == RecordChains.Append(old(Contents()), node.rec)
      ensures NodeSet() <= old(NodeSet()) + {node}
    {
      hide Bucket, WellFormed;
      var h := Bucket(node.rec.name);
      ghost var c := chains[h];
      AppendWellFormed(View(chains), node.rec);
      AppendedRecs(c, node);
      ViewUpdate(chains, h, c + [node]);
      PushTail(node, h);
    }

    /** The body of the loop of `load_records`, on the line in the buffer. */
    method LoadLine(line: array<char>)
      requires Valid() && StrEnd(line[..], 0) < line.Length
      modifies this, heads, NodeSet(), line
      ensures Valid() && fresh(NodeSet() - old(NodeSet()))
      ensures Contents() == AppendAll(old(Contents()), LineRecord(old(line[..])))
    {
      ghost var s := CStr(line[..], 0);
      LineRecNamed(line[..]);
      hide ParseLine, Append;
      if FindSub(CStr(line[..], 0), OPEN_TAG).None? {
        NoOpenTag(s);
        return;
      }
      var r := RecordParse(line);
      if r.None? {
        return;
      }
      var node := new PsmRecord(r.value);
      AppendRecord(node);
    }

    /** One round of `load_records`: the next line of the file at `pos`. */
    method LoadNext(text: string, pos: nat, line: array<char>) returns (next: nat)
      requires Valid() && pos < |text| && line.Length == LINE_MAX + 1
      modifies this, heads, NodeSet(), line
      ensures Valid() && fresh(NodeSet() - old(NodeSet())) && pos < next <= |text|
      ensures AppendAll(Contents(), ParseText(text[next..])) == AppendAll(old(Contents()), ParseText(text[pos..]))
    {
      hide FgetsLength, LineRecord, ParseText, AppendAll, StrEnd, WellFormed, View;
      ghost var t := Contents();
      var n := Fgets(text, pos, line);
      LineRead(text, pos, n, line[..]);
      AppendAllConcat(t, LineRecord(line[..]), ParseText(text[pos + n..]));
      LoadLine(line);
      next := pos + n;
    }

    /** `load_records`; a file that cannot be opened is None. */
    method LoadRecords(file: Option<string>) returns (err: int)
      requires Valid()
      modifies this, heads, NodeSet()
      ensures Valid() && fresh(NodeSet() - old(NodeSet()))
      ensures err == if file.None? then -1 else 0
      ensures Contents() == if file.None? then old(Contents()) else AppendAll(old(Contents()), ParseText(file.value))
    {
      if file.None? {
        return -1;
      }
      var text := file.value;
      var line := new char[LINE_MAX + 1];
      var pos := 0;
      ghost var t0 := Contents();
      assert text[0..] == text;
      hide FgetsLength, LineRecord, View, WellFormed;
      while pos < |text|
        invariant pos <= |text| && Valid() && fresh(NodeSet() - old(NodeSet()))
        invariant AppendAll(Contents(), ParseText(text[pos..])) == AppendAll(t0, ParseText(text))
      {
        pos := LoadNext(text, pos, line);
      }
      assert text[pos..] == "";
      err := 0;
    }

    /** A record is created and inserted. */
    method Put(r: Rec, overwrite: bool)
      requires Valid() && r.name != "" && r.rtype != ""
      modifies this, heads, NodeSet()
      ensures Valid() && fresh(NodeSet() - old(NodeSet()))
      ensures Contents() == RecordChains.Insert(old(Contents()), r, overwrite)
    {
      var node := new PsmRecord(r);
      InsertRecord(node, overwrite);
    }

    /** `import_custom_params` and `import_custom_partners_params`; a failed HAL call is None. */
    method ImportParams(params: Option<seq<Param>>, overwrite: bool) returns (err: int)
      requires Valid()
      modifies this, heads, NodeSet()
      ensures Valid() && fresh(NodeSet() - old(NodeSet()))
      ensures err == if params.None? then -1 else 0
      ensures Contents() == InsertAll(old(Contents()), GivenRecs(params), overwrite)
      ensures params.None? ==> Contents() == old(Contents())
      ensures params.Some? ==> Imported(old(Contents()), Contents(), params.value, overwrite)
    {
      if params.None? {
        return -1;
      }
      var ps := params.value;
      ghost var t0 := Contents();
      assert ps[0..] == ps;
      ImportMeans(t0, ps, overwrite);
      hide WellFormed, View, InsertChain, Bucket, Imported;
      for i := 0 to |ps|
        invariant Valid() && fresh(NodeSet() - old(NodeSet()))
        invariant InsertAll(Contents(), ParamRecs(ps[i..]), overwrite) == InsertAll(t0, ParamRecs(ps), overwrite)
      {
        ParamRecsAt(ps, i);
        if |ps[i].name| == 0 {
          continue;
        }
        InsertAllCons(Contents(), ParamRec(ps[i]), ParamRecs(ps[i + 1..]), overwrite);
        Put(ParamRec(ps[i]), overwrite);
      }
      assert ps[|ps|..] == [];
      err := 0;
    }

    /** One round of `merge_missing_param`: the next line of the file at `pos`. */
    method MergeNext(text: string, pos: nat, line: array<char>, overwrite: bool) returns (next: nat)
      requires Valid() && pos < |text| && line.Length == LINE_MAX + 1
      modifies this, heads, NodeSet(), line
      ensures Valid() && fresh(NodeSet() - old(NodeSet())) && pos < next <= |text|
      ensures InsertAll(Contents(), ParseText(text[next..]), overwrite) ==
              InsertAll(old(Contents()), ParseText(text[pos..]), overwrite)
    {
      hide FgetsLength, ParseText, ParseLine, InsertAll, StrEnd, WellFormed, View, CStr, RecordChains.Insert;
      ghost var t := Contents();
      var n := Fgets(text, pos, line);
      LineRead(text, pos, n, line[..]);
      LineRecNamed(line[..]);
      next := pos + n;
      ghost var found, rest := LineRecord(line[..]), ParseText(text[next..]);
      var r := RecordParse(line);
      if r.None? {
        assert found + rest == rest;
        return;
      }
      assert found == [r.value] && found[0] == r.value;
      InsertAllCons(t, r.value, rest, overwrite);
      Put(r.value, overwrite);
    }

    /** `merge_missing_param`: every record of the file is inserted. */
    method MergeFile(file: Option<string>, overwrite: bool) returns (err: int)
      requires Valid()
      modifies this, heads, NodeSet()
      ensures Valid() && fresh(NodeSet() - old(NodeSet()))
      ensures err == if file.None? then -1 else 0
      ensures Contents() == InsertAll(old(Contents()), FileRecs(file), overwrite)
    {
      if file.None? {
        return -1;
      }
      var text := file.value;
      var line := new char[LINE_MAX + 1];
      var pos := 0;
      ghost var t0 := Contents();
      assert text[0..] == text;
      hide FgetsLength, LineRecord, View, WellFormed;
      while pos < |text|
        invariant pos <= |text| && Valid() && fresh(NodeSet() - old(NodeSet()))
        invariant InsertAll(Contents(), ParseText(text[pos..]), overwrite) == InsertAll(t0, ParseText(text), overwrite)
      {
        pos := MergeNext(text, pos, line, overwrite);
      }
      assert text[pos..] == "";
      err := 0;
    }

    /**
     One record of the flush: the buffer grows once when its estimate does not fit, and
     the record is printed behind what is there.  `ok` is false when the print was cut.
     */
    method FlushOne(buf0: array<char>, off0: nat, left0: nat, r: Rec)
        returns (ok: bool, buf: array<char>, off: nat, left: nat)
      requires 0 < left0 && off0 + left0 == buf0.Length
      modifies buf0
      ensures ok == (|PrintRec(r)| < RoomFor(r, left0))
      ensures ok ==> off + left == buf.Length && left == RoomFor(r, left0) - |PrintRec(r)| > 0
      ensures ok ==> buf[..off] == old(buf0[..off0]) + PrintRec(r)
      ensures buf == buf0 || fresh(buf)
    {
      hide PrintRec, Estimate;
      buf, off, left := buf0, off0, left0;
      if left < Estimate(r) {
        buf := new char[buf0.Length + GROW];
        forall i | 0 <= i < buf0.Length {
          buf[i] := buf0[i];
        }
        left := left + GROW;
        assert buf[..off] == buf0[..off];
      }
      var n := Snprintf(buf, off, left, PrintRec(r));
      ok := n < left;
      if ok {
        off, left := off + n, left - n;
      }
    }

    /** The inner loop of `flush_records`: the records of chain `i`, which is emptied. */
    method FlushChain(i: nat, buf0: array<char>, off0: nat, left0: nat,
                      ghost tail: seq<Rec>, ghost text: string, ghost room: Option<nat>)
        returns (ok: bool, buf: array<char>, off: nat, left: nat)
      requires Valid() && i < SIZE && 0 < left0 && off0 + left0 == buf0.Length
      requires buf0[..off0] + PrintRecs(Recs(chains[i]) + tail) == text
      requires FlushRoom(Recs(chains[i]) + tail, left0) == room
      modifies this, heads, buf0
      ensures buf == buf0 || fresh(buf)
      ensures !ok ==> room.None?
      ensures ok ==> Valid() && chains == old(chains)[i := []]
      ensures ok ==> 0 < left && off + left == buf.Length
      ensures ok ==> buf[..off] + PrintRecs(tail) == text && FlushRoom(tail, left) == room
    {
      hide PrintRecs, FlushRoom, PrintRec, RoomFor, WellFormed;
      buf, off, left := buf0, off0, left0;
      ok := true;
      ghost var c, j := chains[i], 0;
      var cur := heads[i];
      assert c[0..] == c;
      while cur != null
        invariant 0 <= j <= |c| && cur == if j < |c| then c[j] else null
        invariant buf == buf0 || fresh(buf)
        invariant Valid() && chains == old(chains)
        invariant 0 < left && off + left == buf.Length
        invariant buf[..off] + PrintRecs(Recs(c[j..]) + tail) == text
        invariant FlushRoom(Recs(c[j..]) + tail, left) == room
        decreases |c| - j
      {
        var next := cur.next;
        ghost var rest := Recs(c[j + 1..]) + tail;
        RecsFrom(c, j, tail);
        FlushStep(cur.rec, rest, left);
        ghost var pre := buf[..off];
        ok, buf, off, left := FlushOne(buf, off, left, cur.rec);
        if !ok {
          return;
        }
        assert pre + PrintRec(cur.rec) + PrintRecs(rest) == pre + (PrintRec(cur.rec) + PrintRecs(rest));
        cur, j := next, j + 1;
      }
      assert Recs(c[|c|..]) + tail == tail;
      heads[i] := null;
      EmptiedWellFormed(View(chains), i);
      ViewUpdate(chains, i, []);
      assert Recs([]) == [];
      chains := chains[i := []];
    }

    /** The closing line, and the text the caller gets. */
    static method FlushFooter(buf: array<char>, off: nat, left: nat) returns (out: Option<string>)
      requires 0 < left && off + left == buf.Length
      modifies buf
      ensures out == if left > |FOOTER| then Some(old(buf[..off]) + FOOTER) else None
    {
      var n := Snprintf(buf, off, left, FOOTER);
      if n >= left {
        return None;
      }
      out := Some(buf[..off + n]);
    }

    /**
     `flush_records`.  None when a print was cut short: the source counts the full length of
     that print and reports success with an offset past its buffer, which is not described.
     */
    method FlushRecords() returns (out: Option<string>)
      requires Valid()
      modifies this, heads
      ensures out.Some? <==> FlushRoom(Flat(old(Contents())), BASE - |HEADER|).Some? &&
                             FlushRoom(Flat(old(Contents())), BASE - |HEADER|).value > |FOOTER|
      ensures out.Some? ==> out.value == FlushText(Flat(old(Contents())))
      ensures out.Some? ==> Valid() && Contents() == Empty() && NodeSet() == {}
    {
      hide PrintRecs, FlushRoom, WellFormed;
      ghost var t, c0 := Contents(), chains;
      FlatStart(t);
      var buf := new char[BASE];
      var n := Snprintf(buf, 0, BASE, HEADER);
      HeaderFits();
      var off: nat, left: nat := n, BASE - n;
      ghost var text, room := HEADER + PrintRecs(Flat(t)), FlushRoom(Flat(t), BASE - |HEADER|);
      assert buf[..off] == HEADER;
      var ok;
      EmptiedAt(c0);
      hide Flat, FlatFrom, View, EmptiedBefore;
      for i := 0 to SIZE
        invariant fresh(buf) && Valid() && 0 < left && off + left == buf.Length
        invariant chains == EmptiedBefore(c0, i)
        invariant buf[..off] + PrintRecs(FlatFrom(t, i)) == text
        invariant FlushRoom(FlatFrom(t, i), left) == room
      {
        FlatAt(t, i);
        EmptiedNext(c0, i);
        if heads[i] == null {
          continue;
        }
        ok, buf, off, left := FlushChain(i, buf, off, left, FlatFrom(t, i + 1), text, room);
        if !ok {
          return None;
        }
      }
      AllFlushed(t, left);
      out := FlushFooter(buf, off, left);
    }
  }
}
