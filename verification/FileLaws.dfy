/**
 The hash of a name, the order of a flushed file, its text and the room it takes, told by
 characters and numbers (source/Ssp/ssp_cfmif.c).
 */
module FileLaws {
  import opened CStrings
  import opened Numbers
  import opened RecordText
  import opened ConfigText
  import opened RecordChains
  import opened FileWrites
  import opened ConfigStore

  // ---------- the hash ----------

  lemma {:induction false} HashSnoc(s: string, c: char, h: nat)
    ensures HashFrom(s + [c], h) == (HashFrom(s, h) * 33 + c as int) % 0x1_0000_0000
    decreases s
  {
    if s == "" {
      assert [] + [c] == [c] && [c][1..] == [];
      HashOne(c, h);
    } else {
      assert (s + [c])[1..] == s[1..] + [c];
      HashSnoc(s[1..], c, (h * 32 + h + s[0] as int) % WORD);
    }
  }

  lemma HashOne(c: char, h: nat)
    ensures HashFrom([c], h) == (h * 33 + c as int) % 0x1_0000_0000
  {
    assert [c][1..] == [];
    assert HashFrom([], (h * 32 + h + c as int) % WORD) == (h * 32 + h + c as int) % WORD;
  }

  /** The chain of a name: 5381 times 33 for each character plus the character, modulo 1024. */
  lemma BucketIs(s: string, c: char)
    ensures Bucket("") == 261
    ensures Bucket(s + [c]) == (Bucket(s) * 33 + c as int) % 1024
  {
    HashSnoc(s, c, 5381);
    ModOfMod(HashFrom(s, 5381), c as int);
    hide HashFrom;
    assert HashFrom("", 5381) == 5381 by { HashNothing(); }
  }

  lemma HashNothing()
    ensures HashFrom("", 5381) == 5381
  {
  }

  lemma ModOfMod(h: nat, c: nat)
    ensures (h * 33 + c) % 0x1_0000_0000 % 1024 == (h % 1024 * 33 + c) % 1024
  {
    var x := h * 33 + c;
    var q, r := x / 0x1_0000_0000, x % 0x1_0000_0000;
    assert x == 1024 * (4194304 * q) + r;
    AddMultiple(4194304 * q, r);
    assert h == 1024 * (h / 1024) + h % 1024;
    assert x == 1024 * (33 * (h / 1024)) + (h % 1024 * 33 + c);
    AddMultiple(33 * (h / 1024), h % 1024 * 33 + c);
  }

  lemma AddMultiple(k: nat, r: nat)
    ensures (1024 * k + r) % 1024 == r % 1024
  {
  }

  // ---------- where insertion puts a record ----------

  /** A new name heads its chain; other chains stay. */
  lemma InsertNew(t: Table, r: Rec, overwrite: bool, i: nat)
    requires |t| == SIZE && i < SIZE
    requires forall j :: 0 <= j < |t[Bucket(r.name)]| ==> t[Bucket(r.name)][j].name != r.name
    ensures Insert(t, r, overwrite)[i] == if i == Bucket(r.name) then [r] + t[i] else t[i]
  {
    hide Bucket;
  }

  /** A known name keeps its place; its first record is replaced with overwrite and stays without. */
  lemma InsertKnown(t: Table, r: Rec, overwrite: bool, k: nat, i: nat)
    requires |t| == SIZE && i < SIZE
    requires var c := t[Bucket(r.name)];
             k < |c| && c[k].name == r.name && forall j :: 0 <= j < k ==> c[j].name != r.name
    ensures Insert(t, r, overwrite)[i] == if overwrite && i == Bucket(r.name) then t[i][k := r] else t[i]
  {
    hide Bucket;
    IndexOfIs(t[Bucket(r.name)], r.name, k);
    hide IndexOf;
  }

  // ---------- the order of a flush ----------

  lemma {:induction false} FlatFromSorted(t: Table, from: nat, a: nat, b: nat)
    requires WellFormed(t) && from <= SIZE && a <= b < |FlatFrom(t, from)|
    ensures from <= Bucket(FlatFrom(t, from)[a].name) <= Bucket(FlatFrom(t, from)[b].name)
    decreases SIZE - from
  {
    hide Bucket;
    var n, more := |t[from]|, FlatFrom(t, from + 1);
    if a >= n {
      FlatFromSorted(t, from + 1, a - n, b - n);
    } else if b >= n {
      FlatFromSorted(t, from + 1, b - n, b - n);
      assert FlatFrom(t, from)[b] == more[b - n];
    }
  }

  /** The records are flushed chain by chain, and the records of one chain in its order. */
  lemma FlatOrder(t: Table, a: nat, b: nat, i: nat)
    requires WellFormed(t) && a <= b < |Flat(t)| && i < SIZE
    ensures Bucket(Flat(t)[a].name) <= Bucket(Flat(t)[b].name)
    ensures InBucket(Flat(t), i) == t[i]
  {
    hide FlatFrom, InBucket, Bucket, WellFormed;
    FlatFromSorted(t, 0, a, b);
    InBucketOfFlat(t, 0, i);
  }

  // ---------- the text of a flush ----------

  lemma {:induction false} PrintRecsConcat(a: seq<Rec>, b: seq<Rec>)
    ensures PrintRecs(a + b) == PrintRecs(a) + PrintRecs(b)
    decreases a
  {
    hide PrintRec;
    if a == [] {
      assert a + b == b;
    } else {
      assert (a + b)[1..] == a[1..] + b;
      PrintRecsConcat(a[1..], b);
    }
  }

  /** The frame of the file. */
  lemma FlushTextFrame()
    ensures FlushText([]) == "<?xml version=\"1.0\"  encoding=\"UTF-8\" ?>\n<Provision>\n" + "</Provision>\n"
  {
    assert HEADER == "<?xml version=\"1.0\"  encoding=\"UTF-8\" ?>\n<Provision>\n" && FOOTER == "</Provision>\n";
    hide HEADER, FOOTER;
    assert HEADER + [] + FOOTER == HEADER + FOOTER;
  }

  /** One more record is one more line before the last. */
  lemma FlushTextSnoc(a: seq<Rec>, r: Rec)
    ensures |FlushText(a)| >= 13
    ensures FlushText(a + [r]) == FlushText(a)[..|FlushText(a)| - 13] + PrintRec(r) + "</Provision>\n"
  {
    FooterIs();
    hide *;
    PrintRecsConcat(a, [r]);
    PrintRecsOne(r);
    FlushTextParts(a);
    FlushTextParts(a + [r]);
    CutFooter(HEADER, PrintRecs(a), FOOTER, PrintRec(r));
  }

  lemma FooterIs()
    ensures FOOTER == "</Provision>\n" && |FOOTER| == 13
  {
  }

  lemma FlushTextParts(rs: seq<Rec>)
    ensures FlushText(rs) == HEADER + PrintRecs(rs) + FOOTER
  {
    hide PrintRecs, HEADER, FOOTER;
  }

  lemma CutFooter(h: string, p: string, f: string, line: string)
    requires |f| == 13
    ensures |h + p + f| >= 13
    ensures h + (p + line) + f == (h + p + f)[..|h + p + f| - 13] + line + f
  {
    assert (h + p + f)[..|h + p + f| - 13] == h + p;
  }

  lemma PrintRecsOne(r: Rec)
    ensures PrintRecs([r]) == PrintRec(r)
  {
    hide PrintRec;
    assert [r][1..] == [];
    assert PrintRec(r) + "" == PrintRec(r);
  }

  // ---------- the room of a flush ----------

  /** The room wanted: the line with a content type, if only an empty one, and 22 more. */
  lemma EstimateIs(r: Rec)
    ensures Estimate(r) == |PrintRec(r.(ctype := Some(match r.ctype case None => "" case Some(c) => c)))| + 22
  {
    assert |TEMPLATE| == 59 && |FOOTER| == 13;
    assert |OPEN_TAG| == 7 && |CLOSE_TAG| == 9;
    hide TEMPLATE, FOOTER;
  }

  /** A buffer too small for that grows by 32 KiB, once; then the line and its NUL must fit. */
  lemma RoomAfterOne(r: Rec, left: nat)
    ensures var line := |PrintRec(r)|;
            var wanted := |PrintRec(r.(ctype := Some(match r.ctype case None => "" case Some(c) => c)))| + 22;
            var room := if left < wanted then left + 32768 else left;
            FlushRoom([r], left) == if line + 1 <= room then Some(room - line) else None
  {
    EstimateIs(r);
    FlushStep(r, [], left);
    hide PrintRec, Estimate;
  }

  lemma {:induction false} RoomConcat(a: seq<Rec>, b: seq<Rec>, left: nat)
    ensures FlushRoom(a + b, left) ==
            match FlushRoom(a, left) case None => None case Some(room) => FlushRoom(b, room)
    decreases a
  {
    hide PrintRec, RoomFor;
    if a == [] {
      assert a + b == b;
    } else {
      assert (a + b)[1..] == a[1..] + b;
      var room := RoomFor(a[0], left);
      if |PrintRec(a[0])| < room {
        RoomConcat(a[1..], b, room - |PrintRec(a[0])|);
      }
    }
  }

  /** A flush starts with 128 KiB and the header in it; lines of at most 32 KiB are never cut short. */
  lemma FlushStarts(rs: seq<Rec>)
    ensures |HEADER| == 53
    ensures Fits(rs) <==> FlushRoom(rs, 131072 - 53).Some? && FlushRoom(rs, 131072 - 53).value > 13
    ensures (forall i :: 0 <= i < |rs| ==> |PrintRec(rs[i])| <= 32768) ==> Fits(rs)
  {
    assert |HEADER| == 53 && |FOOTER| == 13;
    hide HEADER, FOOTER, FlushRoom, PrintRec;
    if forall i :: 0 <= i < |rs| ==> |PrintRec(rs[i])| <= 32768 {
      SmallRecordsFit(rs);
    }
  }

  // ---------- the files after a save ----------

  /**
   The current file is the text, a part of it, or as before when it could not be opened.  The
   backup is replaced only behind a whole current file, and then is the text when it was stored
   whole; otherwise it stays.
   */
  lemma SaveLeaves(cur0: Option<string>, bak0: Option<string>, text: string, w: Writes,
                   cur: Option<string>, bak: Option<string>, ok: bool)
    requires AfterSave(cur0, bak0, text, w, cur, bak, ok)
    ensures ok ==> cur == Some(text)
    ensures !w.canOpen ==> !ok && cur == cur0 && bak == bak0
    ensures w.canOpen && w.written >= |text| ==> ok
    ensures w.canOpen && w.written < |text| ==> !ok && cur == Some(text[..w.written]) && bak == bak0
    ensures bak == bak0 || cur == Some(text)
    ensures ok && w.started && text != "" && w.stored >= |text| ==> bak == Some(text)
    ensures ok && (!w.started || text == "") ==> bak == bak0
  {
  }

  // ---------- the lines of a file ----------

  /** A text without a newline is handed over whole, or 4095 characters at a time. */
  lemma FgetsRest(s: string)
    requires '\n' !in s
    ensures FgetsLength(s) == if |s| < 4095 then |s| else 4095
  {
  }

  lemma FgetsKeeps(s: string, t: string)
    requires s != "" && s[|s| - 1] == '\n'
    ensures FgetsLength(s + t) == FgetsLength(s)
  {
    var k := FindChar(s, '\n').value;
    assert (s + t)[..k] == s[..k];
    assert '\n' !in s[..k];
    FindCharIs(s + t, '\n', k);
  }

  ghost predicate WholeLines(s: string) {
    s != "" ==> s[|s| - 1] == '\n'
  }

  lemma CutFront(s: string, t: string, n: nat)
    requires n <= |s|
    ensures (s + t)[..n] == s[..n] && (s + t)[n..] == s[n..] + t
    ensures WholeLines(s) ==> WholeLines(s[n..])
  {
  }

  lemma Regroup(a: seq<Rec>, b: seq<Rec>, c: seq<Rec>)
    ensures a + (b + c) == a + b + c
  {
  }

  /** A file in two parts, the first of whole lines, holds the records of both. */
  lemma {:induction false} ParseTextConcat(s: string, t: string)
    requires WholeLines(s)
    ensures ParseText(s + t) == ParseText(s) + ParseText(t)
    decreases |s|
  {
    if s == "" {
      assert s + t == t;
      assert ParseText(s) == [];
    } else {
      FgetsKeeps(s, t);
      hide *;
      var n := FgetsLength(s);
      CutFront(s, t, n);
      ParseTextConcat(s[n..], t);
      ParseTextStep(s);
      ParseTextStep(s + t);
      Regroup(LineRecord(s[..n]), ParseText(s[n..]), ParseText(t));
    }
  }

  lemma ParseTextStep(s: string)
    requires s != ""
    ensures ParseText(s) == LineRecord(s[..FgetsLength(s)]) + ParseText(s[FgetsLength(s)..])
  {
    hide LineRecord, FgetsLength;
  }

  /** A line that the buffer holds yields its record, if it has one. */
  lemma ParseTextOneLine(line: string)
    requires OneLine(line) && |line| < 4095
    ensures ParseText(line + "\n") == LineRecord(line + "\n")
  {
    ParseTextLine(line, "");
    assert line + "\n" + "" == line + "\n";
    hide LineRecord, FgetsLength;
  }

  /** A longer one is cut after 4095 characters, and what is left is a line of its own. */
  lemma ParseTextLongLine(line: string)
    requires OneLine(line) && |line| >= 4095
    ensures ParseText(line + "\n") == LineRecord(line[..4095]) + ParseText(line[4095..] + "\n")
  {
    var s := line + "\n";
    FgetsLengthIs(line, "");
    assert line + "\n" + "" == s;
    assert s[..4095] == line[..4095] && s[4095..] == line[4095..] + "\n";
    hide LineRecord, FgetsLength;
  }

  /** The parser sees a line up to its first NUL. */
  lemma LineToNul(line: string, rest: string)
    requires NUL !in line
    ensures LineRecord(line + [NUL] + rest) == LineRecord(line)
    ensures LineRecord(line) == match ParseLine(line) case None => [] case Some(r) => [r]
  {
    var s := line + [NUL] + rest;
    StrEndIs(s, 0, |line|);
    assert CStr(s, 0) == line;
    WholeStringIsCStr(line);
    hide ParseLine, CStr;
  }

  // ---------- which parameters are reported as missing ----------

  /** A parameter just inserted heads its chain and is not reported. */
  lemma InsertedIsNotReported(t: Table, r: Rec)
    requires |t| == SIZE && Lookup(t, r.name) == None
    ensures !Reported(Insert(t, r, false), r.name)
  {
    hide Bucket;
  }

  /** One that another name of its chain is inserted in front of is, although it is there. */
  lemma CoveredIsReported(t: Table, r: Rec, name: string)
    requires |t| == SIZE && Lookup(t, name).Some? && Lookup(t, r.name) == None && Bucket(r.name) == Bucket(name)
    ensures Lookup(Insert(t, r, false), name).Some? && Reported(Insert(t, r, false), name)
  {
    LookupInsert(t, r, false, name);
    hide Bucket;
  }

  /** One that is nowhere is. */
  lemma AbsentIsReported(t: Table, name: string)
    requires |t| == SIZE && Lookup(t, name) == None
    ensures Reported(t, name)
  {
    hide Bucket;
  }
}
