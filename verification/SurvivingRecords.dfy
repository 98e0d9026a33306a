/**
 Which records survive the configuration file (source/Ssp/ssp_cfmif.c): what any text can
 yield when it is read, and from that the exact condition under which what was flushed is
 read back.
 */
module SurvivingRecords {
  import opened CStrings
  import opened RecordText
  import opened ConfigText
  import opened RecordChains
  import opened ConfigMerge

  // ---------- a record is shorter than the line it is read from ----------

  function TotalLength(toks: seq<string>): nat {
    if toks == [] then 0 else |toks[0]| + TotalLength(toks[1..])
  }

  lemma {:induction false} TokensFit(s: string)
    ensures TotalLength(Tokens(s)) <= |s|
    decreases |s|
  {
    if SkipDelims(s) == |s| {
    } else {
      TokensFit(AfterToken(s));
      assert Tokens(s) == [FirstToken(s)] + Tokens(AfterToken(s));
      assert Tokens(s)[1..] == Tokens(AfterToken(s));
      TokenAndRest(s);
      hide Tokens, FirstToken, AfterToken;
    }
  }

  lemma TokenAndRest(s: string)
    ensures |FirstToken(s)| + |AfterToken(s)| <= |s|
  {
  }

  /** The length of a field with its key, 0 for one that is missing. */
  function FieldLength(f: Option<string>, key: nat): nat {
    match f case None => 0 case Some(v) => key + |v|
  }

  function FieldsLength(f: Fields): nat {
    FieldLength(f.name, 5) + FieldLength(f.rtype, 5) + FieldLength(f.ctype, 12)
  }

  lemma SetFieldFits(f: Fields, tok: string)
    ensures FieldsLength(SetField(f, tok)) <= FieldsLength(f) + |tok|
  {
    StripShortens(tok[AttrOf(tok).1..]);
    hide StripQuotes;
  }

  lemma StripShortens(s: string)
    ensures |StripQuotes(s)| <= |s|
  {
  }

  lemma {:induction false} SetFieldsFit(f: Fields, toks: seq<string>)
    ensures FieldsLength(SetFields(f, toks)) <= FieldsLength(f) + TotalLength(toks)
    decreases toks
  {
    hide SetField, FieldsLength;
    if toks == [] {
    } else {
      SetFieldFits(f, toks[0]);
      SetFieldsFit(SetField(f, toks[0]), toks[1..]);
    }
  }

  /** The least number of characters that stand for a record between its `<Record` and its end. */
  function Size(q: Rec): nat {
    10 + |q.name| + |q.rtype| + FieldLength(q.ctype, 12) + ValueLength(q.value)
  }

  /** A value with its closing tag, or the '/' of a tag without one. */
  function ValueLength(value: Option<string>): nat {
    match value case None => 1 case Some(v) => |v| + |CLOSE_TAG|
  }

  lemma RegionFits(region: string, value: Option<string>)
    ensures var q := Create(SetFields(NO_FIELDS, Tokens(region)), value);
            q.Some? ==> Size(q.value) <= |region| + ValueLength(value)
  {
    TokensFit(region);
    SetFieldsFit(NO_FIELDS, Tokens(region));
    hide Tokens, SetFields;
  }

  lemma BodyFits(tag: string, text: string)
    ensures ParseBody(tag, text).Some? ==> Size(ParseBody(tag, text).value) <= |tag| + |text|
  {
    hide Tokens, SetFields, Create, FindSub, Size;
    if tag != "" && tag[|tag| - 1] == '/' {
      RegionFits(tag[..|tag| - 1], None);
    } else {
      var v := FindSub(text, CLOSE_TAG);
      if v.Some? {
        RegionFits(tag, Some(text[..v.value]));
      }
    }
  }

  lemma LineFits(line: string)
    ensures ParseLine(line).Some? ==> Size(ParseLine(line).value) + |OPEN_TAG| + 1 <= |line|
  {
    if ParseLine(line).Some? {
      var t := line[FindSub(line, OPEN_TAG).value + |OPEN_TAG|..];
      var e := FindChar(t, '>').value;
      BodyFits(t[..e], t[e + 1..]);
      hide Size, ParseBody, CLOSE_TAG;
    }
  }

  // ---------- a record has only characters of its line ----------

  ghost predicate Lacks(q: Rec, c: char) {
    && c !in q.name && c !in q.rtype
    && (q.ctype.Some? ==> c !in q.ctype.value) && (q.value.Some? ==> c !in q.value.value)
  }

  ghost predicate FieldsLack(f: Fields, c: char) {
    && (f.name.Some? ==> c !in f.name.value) && (f.rtype.Some? ==> c !in f.rtype.value)
    && (f.ctype.Some? ==> c !in f.ctype.value)
  }

  lemma {:induction false} TokensLack(s: string, c: char)
    requires c !in s
    ensures forall t :: t in Tokens(s) ==> c !in t
    decreases |s|
  {
    if SkipDelims(s) == |s| {
    } else {
      TokensLack(AfterToken(s), c);
      assert Tokens(s) == [FirstToken(s)] + Tokens(AfterToken(s));
      assert c !in FirstToken(s);
      hide Tokens, FirstToken, AfterToken;
    }
  }

  lemma SetFieldLacks(f: Fields, tok: string, c: char)
    requires FieldsLack(f, c) && c !in tok
    ensures FieldsLack(SetField(f, tok), c)
  {
    var k := AttrOf(tok).1;
    assert c !in StripQuotes(tok[k..]);
    hide StripQuotes, AttrOf;
  }

  lemma {:induction false} SetFieldsLack(f: Fields, toks: seq<string>, c: char)
    requires FieldsLack(f, c) && forall t :: t in toks ==> c !in t
    ensures FieldsLack(SetFields(f, toks), c)
    decreases toks
  {
    hide SetField, FieldsLack;
    if toks == [] {
    } else {
      SetFieldLacks(f, toks[0], c);
      SetFieldsLack(SetField(f, toks[0]), toks[1..], c);
    }
  }

  lemma RegionLacks(region: string, value: Option<string>, c: char)
    requires c !in region && (value.Some? ==> c !in value.value)
    ensures var q := Create(SetFields(NO_FIELDS, Tokens(region)), value); q.Some? ==> Lacks(q.value, c)
  {
    TokensLack(region, c);
    SetFieldsLack(NO_FIELDS, Tokens(region), c);
    hide Tokens, SetFields;
  }

  lemma BodyLacks(tag: string, text: string, c: char)
    requires c !in tag && (text != "" ==> c !in text[..|text| - 1])
    ensures ParseBody(tag, text).Some? ==> Lacks(ParseBody(tag, text).value, c)
  {
    hide Tokens, SetFields, FindSub, Lacks, Create;
    if tag != "" && tag[|tag| - 1] == '/' {
      RegionLacks(tag[..|tag| - 1], None, c);
    } else {
      var v := FindSub(text, CLOSE_TAG);
      if v.Some? {
        ValueBeforeEnd(text, v.value, c);
        RegionLacks(tag, Some(text[..v.value]), c);
      }
    }
  }

  lemma ValueBeforeEnd(text: string, v: nat, c: char)
    requires FindSub(text, CLOSE_TAG) == Some(v) && c !in text[..|text| - 1]
    ensures c !in text[..v]
  {
    hide FindSub;
    assert text[..v] == text[..|text| - 1][..v];
  }

  /** The last character of a line is in no field of its record. */
  lemma LineLacks(line: string, c: char)
    requires line != "" ==> c !in line[..|line| - 1]
    ensures ParseLine(line).Some? ==> Lacks(ParseLine(line).value, c)
  {
    if ParseLine(line).Some? {
      var k := FindSub(line, OPEN_TAG).value + |OPEN_TAG|;
      var t := line[k..];
      var e := FindChar(t, '>').value;
      TailLacks(line, k, c);
      assert t[..e] == t[..|t| - 1][..e];
      TailLacks(t, e + 1, c);
      BodyLacks(t[..e], t[e + 1..], c);
      hide ParseBody, Lacks, FindSub, FindChar;
    }
  }

  lemma TailLacks(s: string, k: nat, c: char)
    requires k <= |s| && (s != "" ==> c !in s[..|s| - 1])
    ensures s[k..] != "" ==> c !in s[k..][..|s[k..]| - 1]
  {
    if k < |s| {
      assert s[k..][..|s[k..]| - 1] == s[..|s| - 1][k..];
    }
  }

  // ---------- what any text can yield ----------

  /** A record some text may yield. */
  ghost predicate Yieldable(q: Rec) {
    Clean(q) && Lacks(q, '\n') && Lacks(q, NUL) && Size(q) + |OPEN_TAG| + 1 <= LINE_MAX
  }

  /** The one record of a line that holds a newline at its end at most. */
  lemma LineYields(line: string)
    requires line != "" ==> '\n' !in line[..|line| - 1]
    ensures forall q :: q in LineRecord(line) ==> Yieldable(q) || |line| > LINE_MAX
    ensures forall q :: q in LineRecord(line) ==> Size(q) + |OPEN_TAG| + 1 <= |line|
  {
    var s := CStr(line, 0);
    if s != "" {
      assert s[..|s| - 1] == line[..|line| - 1][..|s| - 1];
      assert NUL !in s[..|s| - 1];
    }
    LineLacks(s, '\n');
    LineLacks(s, NUL);
    LineFits(s);
    ParseYieldsClean(s);
    hide ParseLine, CStr, Lacks, Clean, Size;
  }

  lemma FgetsStopsAtNewline(text: string)
    requires text != ""
    ensures var n := FgetsLength(text); '\n' !in text[..n][..n - 1]
  {
    var n := FgetsLength(text);
    assert text[..n][..n - 1] == text[..n - 1];
  }

  lemma {:induction false} TextYields(text: string)
    ensures forall q :: q in ParseText(text) ==> Yieldable(q)
    decreases |text|
  {
    if text == "" {
    } else {
      var n := FgetsLength(text);
      FgetsStopsAtNewline(text);
      LineYields(text[..n]);
      TextYields(text[n..]);
      hide FgetsLength, LineRecord, Yieldable;
    }
  }

  // ---------- reading back what was flushed ----------

  /** A record whose printed line is one line, and too long by a few characters at most. */
  ghost predicate Short(r: Rec) {
    Clean(r) && OneLine(PrintBody(r)) && |PrintRec(r)| <= LINE_MAX + 20
  }

  /** Only a short record can be read from any text at all. */
  lemma YieldableIsShort(r: Rec)
    requires Yieldable(r)
    ensures Short(r)
  {
    PrintLacks(r, '\n');
    PrintLacks(r, NUL);
    hide PrintBody;
    PrintLengthIs(r);
  }

  lemma ShortIgnoresNull(r: Rec)
    requires Short(Norm(r))
    ensures Short(r)
  {
    CleanIgnoresNull(r);
    assert PrintRec(Norm(r)) == PrintRec(r) && PrintBody(Norm(r)) == PrintBody(r);
    hide PrintBody, PrintRec, Clean;
  }

  lemma PrintLengthIs(r: Rec)
    ensures |PrintRec(r)| == 36 + |r.name| + |r.rtype| + FieldLength(r.ctype, 15) + |ValueText(r)|
  {
  }

  lemma CleanIgnoresNull(r: Rec)
    ensures Clean(r) <==> Clean(Norm(r))
  {
    if r.value.None? {
      assert !Contains("", CLOSE_TAG);
    }
  }

  lemma PrintLacks(r: Rec, c: char)
    requires Lacks(r, c) && (c == '\n' || c == NUL)
    ensures c !in PrintBody(r)
  {
    assert c !in PrintAttrs(r);
  }

  /** A short record yields itself if it is loadable and nothing otherwise. */
  lemma ShortRecordRead(r: Rec, rest: string)
    requires Short(r)
    ensures ParseText(PrintRec(r) + rest) == Yield(r) + ParseText(rest)
  {
    if Loadable(r) {
      ParseTextRecord(r, rest);
    } else {
      LongLineHeadIsEmpty(r, rest);
      CutLineRead(r, rest);
      var tail := PrintBody(r)[LINE_MAX..];
      ParseTextLine(tail, rest);
      TailYieldsNothing(tail + "\n");
      hide ParseText, LineRecord, PrintBody;
    }
  }

  /** Reading a line that is too long: the first 4095 characters, and then the rest of it. */
  lemma CutLineRead(r: Rec, rest: string)
    requires OneLine(PrintBody(r)) && |PrintRec(r)| > LINE_MAX + 1
    ensures OneLine(PrintBody(r)[LINE_MAX..])
    ensures ParseText(PrintRec(r) + rest) ==
            LineRecord((PrintRec(r) + rest)[..LINE_MAX]) + ParseText(PrintBody(r)[LINE_MAX..] + "\n" + rest)
  {
    var b := PrintBody(r);
    hide PrintBody, LineRecord;
    var s := b + "\n" + rest;
    assert PrintRec(r) + rest == s;
    FgetsLengthIs(b, rest);
    assert s[LINE_MAX..] == b[LINE_MAX..] + "\n" + rest;
    hide FgetsLength;
  }

  lemma TailYieldsNothing(line: string)
    requires |line| <= 20 && line != "" && '\n' !in line[..|line| - 1]
    ensures LineRecord(line) == []
  {
    if LineRecord(line) != [] {
      YieldsNeedRoom(line);
    }
  }

  lemma YieldsNeedRoom(line: string)
    requires line != "" && '\n' !in line[..|line| - 1] && LineRecord(line) != []
    ensures |line| > 20
  {
    LineYields(line);
    assert LineRecord(line)[0] in LineRecord(line);
    hide LineRecord, Yieldable;
  }

  /** What a short record yields, and what a list of them does. */
  ghost function Yield(r: Rec): (y: seq<Rec>)
    ensures |y| <= 1 && (|y| == 1 <==> Loadable(r))
  {
    if Loadable(r) then [Norm(r)] else []
  }

  ghost function Yields(rs: seq<Rec>): (ys: seq<Rec>)
    ensures |ys| <= |rs|
  {
    if rs == [] then [] else Yield(rs[0]) + Yields(rs[1..])
  }

  lemma {:induction false} YieldsAll(rs: seq<Rec>)
    ensures |Yields(rs)| == |rs| <==> AllLoadable(rs)
    decreases rs
  {
    hide Loadable, Yield;
    if rs == [] {
    } else {
      YieldsAll(rs[1..]);
      assert AllLoadable(rs) <==> Loadable(rs[0]) && AllLoadable(rs[1..]) by {
        assert forall i :: 1 <= i < |rs| ==> rs[i] == rs[1..][i - 1];
      }
    }
  }

  lemma {:induction false} ShortRecordsRead(rs: seq<Rec>, rest: string)
    requires forall i :: 0 <= i < |rs| ==> Short(rs[i])
    ensures ParseText(PrintRecs(rs) + rest) == Yields(rs) + ParseText(rest)
    decreases rs
  {
    if rs == [] {
      hide ParseText;
      assert PrintRecs(rs) + rest == rest;
    } else {
      var r, more := rs[0], rs[1..];
      YieldsCons(r, more);
      assert rs == [r] + more && Short(r);
      hide *;
      ShortRecordsRead(more, rest);
      ShortRecordRead(r, PrintRecs(more) + rest);
      PrintRecsCons(r, more, rest);
      Associate(Yield(r), Yields(more), ParseText(rest));
    }
  }

  lemma YieldsCons(r: Rec, more: seq<Rec>)
    ensures Yields([r] + more) == Yield(r) + Yields(more)
  {
    assert ([r] + more)[1..] == more;
    hide Yield;
  }

  lemma FramedText(rs: seq<Rec>)
    ensures FlushText(rs) == XML_LINE + "\n" + (ROOT_LINE + "\n" + (PrintRecs(rs) + (END_LINE + "\n" + "")))
  {
    FrameIsLines();
    hide HEADER, FOOTER, XML_LINE, ROOT_LINE, END_LINE, PrintRecs;
    TextFrame(XML_LINE, ROOT_LINE, END_LINE, PrintRecs(rs));
  }

  lemma FrameSkipped(body: string)
    ensures ParseText(XML_LINE + "\n" + (ROOT_LINE + "\n" + body)) == ParseText(body)
  {
    hide *;
    XmlLineHasNoRecord();
    RootLineHasNoRecord();
    ParseTextSkips(XML_LINE, ROOT_LINE + "\n" + body);
    ParseTextSkips(ROOT_LINE, body);
  }

  lemma EndYieldsNothing()
    ensures ParseText(END_LINE + "\n" + "") == []
  {
    hide *;
    EndLineHasNoRecord();
    ParseTextSkips(END_LINE, "");
    NothingToRead();
  }

  lemma ShortFlushRead(rs: seq<Rec>)
    requires forall i :: 0 <= i < |rs| ==> Short(rs[i])
    ensures ParseText(FlushText(rs)) == Yields(rs)
  {
    hide *;
    var end := END_LINE + "\n" + "";
    FramedText(rs);
    FrameSkipped(PrintRecs(rs) + end);
    ShortRecordsRead(rs, end);
    EndYieldsNothing();
  }

  lemma NothingToRead()
    ensures ParseText("") == []
  {
  }

  /** If every flushed record is among as many records read back, all of them are loadable. */
  lemma AllReadBack(rs: seq<Rec>)
    requires forall i :: 0 <= i < |rs| ==> Norm(rs[i]) in ParseText(FlushText(rs))
    requires |ParseText(FlushText(rs))| >= |rs|
    ensures AllLoadable(rs)
  {
    TextYields(FlushText(rs));
    forall i | 0 <= i < |rs| ensures Short(rs[i]) {
      YieldableIsShort(Norm(rs[i]));
      ShortIgnoresNull(rs[i]);
    }
    hide *;
    ShortFlushRead(rs);
    YieldsAll(rs);
  }

  /**
   The file gives back what was flushed, in order (NULL values as empty), if and only if every
   record is loadable: the line format can carry it, it has no newline or NUL, and its printed
   line is at most 4096 characters long.
   */
  lemma FlushRoundTripIff(rs: seq<Rec>)
    ensures ParseText(FlushText(rs)) == NormAll(rs) <==> AllLoadable(rs)
  {
    hide ParseText, FlushText, Norm, Loadable;
    if ParseText(FlushText(rs)) == NormAll(rs) {
      assert forall i :: 0 <= i < |rs| ==> NormAll(rs)[i] == Norm(rs[i]);
      AllReadBack(rs);
    }
    if AllLoadable(rs) {
      FlushRoundTrip(rs);
    }
  }

  /** The same for a file of one record. */
  lemma RecordSurvivesIff(r: Rec)
    ensures ParseText(FlushText([r])) == [Norm(r)] <==> Loadable(r)
  {
    hide ParseText, FlushText, Norm, Loadable;
    FlushRoundTripIff([r]);
    assert NormAll([r]) == [Norm(r)];
    assert AllLoadable([r]) <==> Loadable([r][0]);
  }

  // ---------- the whole table ----------

  lemma {:induction false} FlatUpdated(t: Table, b: nat, c: Chain, from: nat)
    requires b < |t| && from <= |t|
    ensures |FlatFrom(t[b := c], from)| == |FlatFrom(t, from)| + if from <= b then |c| - |t[b]| else 0
    decreases |t| - from
  {
    if from == |t| {
    } else {
      FlatUpdated(t, b, c, from + 1);
    }
  }

  lemma {:induction false} AppendAllLength(t: Table, rs: seq<Rec>)
    requires |t| == SIZE
    ensures |FlatFrom(AppendAll(t, rs), 0)| == |FlatFrom(t, 0)| + |rs|
    decreases rs
  {
    if rs == [] {
    } else {
      var b := Bucket(rs[0].name);
      FlatUpdated(t, b, t[b] + [rs[0]], 0);
      AppendAllLength(Append(t, rs[0]), rs[1..]);
      hide Bucket, FlatFrom;
    }
  }

  lemma {:induction false} EmptyIsFlat(from: nat)
    requires from <= SIZE
    ensures FlatFrom(Empty(), from) == []
    decreases SIZE - from
  {
    if from == SIZE {
    } else {
      EmptyIsFlat(from + 1);
    }
  }

  lemma {:induction false} FlatOfLoaded(ys: seq<Rec>, t: Table, from: nat)
    requires t == AppendAll(Empty(), ys) && from <= |t|
    ensures forall r :: r in FlatFrom(t, from) ==> r in ys
    decreases |t| - from
  {
    hide AppendAll, InBucket;
    if from == |t| {
    } else {
      FlatOfLoaded(ys, t, from + 1);
      AppendAllChain(Empty(), ys, from);
      InBucketNames(ys, from);
      assert t[from] == InBucket(ys, from);
    }
  }

  lemma {:induction false} LoadableChains(t: Table, from: nat)
    requires from <= |t| && AllLoadable(FlatFrom(t, from))
    ensures forall i, j :: from <= i < |t| && 0 <= j < |t[i]| ==> Loadable(t[i][j])
    decreases |t| - from
  {
    hide Loadable;
    if from == |t| {
    } else {
      var c, more := t[from], FlatFrom(t, from + 1);
      assert forall k :: 0 <= k < |c| ==> c[k] == (c + more)[k];
      assert forall k :: 0 <= k < |more| ==> more[k] == (c + more)[|c| + k];
      LoadableChains(t, from + 1);
    }
  }

  /** What was read rebuilt the table, so it is as many records and has each of them. */
  lemma RebuiltFromAll(t: Table, ys: seq<Rec>)
    requires |t| == SIZE && AppendAll(Empty(), ys) == NormTable(t)
    ensures |ys| == |FlatFrom(t, 0)| && forall k :: 0 <= k < |ys| ==> Norm(FlatFrom(t, 0)[k]) in ys
  {
    assert |Empty()| == SIZE;
    hide *;
    var flat := FlatFrom(t, 0);
    EmptyIsFlat(0);
    AppendAllLength(Empty(), ys);
    NormFlat(t, 0);
    FlatOfLoaded(ys, NormTable(t), 0);
    assert NormAll(flat) == FlatFrom(AppendAll(Empty(), ys), 0);
    forall k | 0 <= k < |ys| ensures Norm(flat[k]) in ys {
      assert NormAll(flat)[k] == Norm(flat[k]);
    }
  }

  /**
   Loading the text a flush prints rebuilds every chain, with the same records in the same
   order, if and only if every record of the table is loadable.
   */
  lemma TableRoundTripIff(t: Table)
    requires WellFormed(t)
    ensures AppendAll(Empty(), ParseText(FlushText(Flat(t)))) == NormTable(t) <==> TableLoadable(t)
  {
    assert |t| == SIZE && Flat(t) == FlatFrom(t, 0);
    if AppendAll(Empty(), ParseText(FlushText(Flat(t)))) == NormTable(t) {
      hide AppendAll, NormTable, ParseText, FlushText, FlatFrom, Norm, Loadable, WellFormed;
      RebuiltFromAll(t, ParseText(FlushText(Flat(t))));
      AllReadBack(Flat(t));
      LoadableChains(t, 0);
    }
    if TableLoadable(t) {
      TableRoundTrip(t);
    }
  }
}
