/**
 Records whose printed line is too long for the line buffer (source/Ssp/ssp_cfmif.c): how
 they get into the table from a file or from the bootstrap values, and what the next boot
 makes of them.
 */
module LongLines {
  import opened CStrings
  import opened RecordText
  import opened ConfigText
  import opened RecordChains
  import opened ConfigMerge
  import opened SurvivingRecords

  // ---------- what becomes of the records of a file ----------

  /** Of the records of any file, a flush and a load keep those that print in 4096 characters and drop the others. */
  lemma FileRecordsFate(text: string)
    ensures var rs := ParseText(text); ParseText(FlushText(rs)) == Yields(rs)
    ensures forall q :: q in ParseText(text) ==> (Loadable(q) <==> |PrintRec(q)| <= LINE_MAX + 1)
  {
    TextYields(text);
    var rs := ParseText(text);
    forall i | 0 <= i < |rs| ensures Short(rs[i]) {
      YieldableIsShort(rs[i]);
    }
    ShortFlushRead(rs);
    hide ParseText, FlushText, Yields, Yieldable, PrintRec, PrintBody, Clean, OneLine;
    forall q | q in rs ensures Loadable(q) <==> |PrintRec(q)| <= LINE_MAX + 1 {
      YieldableIsShort(q);
    }
  }

  lemma OneYield(r: Rec)
    ensures Yields([r]) == if Loadable(r) then [Norm(r)] else []
  {
    hide Loadable, Norm;
    YieldsCons(r, []);
    assert [r] + [] == [r];
  }

  function Repeat(c: char, n: nat): (s: string)
    ensures |s| == n && forall i :: 0 <= i < n ==> s[i] == c
  {
    seq(n, _ => c)
  }

  const BARE_NAME := "name=a"
  const BARE_TYPE := "type=b"
  const BARE_CTYPE := "contentType=c"
  const BARE_TAG := " " + BARE_NAME + " " + BARE_TYPE + (" " + BARE_CTYPE)

  /** A line without quotes around its fields, as long as the line buffer allows. */
  const BARE_LINE := OPEN_TAG + (BARE_TAG + ">" + (Repeat('x', 4050) + CLOSE_TAG))

  const BARE_RECORD := Rec("a", "b", Some("c"), Some(Repeat('x', 4050)))

  /** Such a line is read, and lost with the next flush: the quotes make it too long. */
  lemma BareLineIsLost()
    ensures |BARE_LINE| == LINE_MAX && ParseText(BARE_LINE) == [BARE_RECORD]
    ensures ParseText(FlushText(ParseText(BARE_LINE))) == []
  {
    BareLineShape();
    BareLineParses();
    BareLineRead();
    PrintLengthIs(BARE_RECORD);
    assert |PrintRec(BARE_RECORD)| > LINE_MAX + 1;
    FileRecordsFate(BARE_LINE);
    OneYield(BARE_RECORD);
    hide ParseText, FlushText, BARE_LINE, PrintRec, Loadable;
  }

  lemma BareLineShape()
    ensures |BARE_LINE| == LINE_MAX && OneLine(BARE_LINE)
  {
    assert OneLine(OPEN_TAG) && OneLine(BARE_TAG) && OneLine(CLOSE_TAG);
    assert |OPEN_TAG| == 7 && |BARE_TAG| == 28 && |CLOSE_TAG| == 9;
  }

  lemma BareLineRead()
    requires |BARE_LINE| == LINE_MAX && OneLine(BARE_LINE) && ParseLine(BARE_LINE) == Some(BARE_RECORD)
    ensures ParseText(BARE_LINE) == [BARE_RECORD]
  {
    hide BARE_LINE, BARE_RECORD, ParseLine;
    WholeStringIsCStr(BARE_LINE);
    assert FgetsLength(BARE_LINE) == LINE_MAX;
    assert BARE_LINE[..LINE_MAX] == BARE_LINE && BARE_LINE[LINE_MAX..] == "";
    NothingToRead();
  }

  lemma BareLineParses()
    ensures ParseLine(BARE_LINE) == Some(BARE_RECORD)
  {
    var v := Repeat('x', 4050);
    NoSlashNoClose(v);
    BareFields();
    BareTagText();
    var t := BARE_TAG + ">" + (v + CLOSE_TAG);
    assert BARE_LINE == OPEN_TAG + t by {
      hide OPEN_TAG, CLOSE_TAG, BARE_TAG;
    }
    assert BARE_RECORD == Rec("a", "b", Some("c"), Some(v));
    assert CLOSE_TAG == CLOSE_TAG + "";
    hide *;
    OpenTagFirst(t);
    ParseTagSplits(BARE_TAG, v + CLOSE_TAG);
    BodyWithValue(BARE_TAG, v, Fields(Some("a"), Some("b"), Some("c")));
  }

  lemma BareTagText()
    ensures '>' !in BARE_TAG && BARE_TAG != "" && BARE_TAG[|BARE_TAG| - 1] == 'c'
    ensures FieldOk(BARE_NAME) && FieldOk(BARE_TYPE) && FieldOk(BARE_CTYPE)
    ensures BARE_NAME != "" && BARE_TYPE != "" && BARE_CTYPE != ""
  {
  }

  lemma BodyWithValue(tag: string, v: string, f: Fields)
    requires tag != "" && tag[|tag| - 1] != '/' && SetFields(NO_FIELDS, Tokens(tag)) == f
    requires !Contains(v, CLOSE_TAG) && f.name.Some? && f.rtype.Some? && f.name.value != "" && f.rtype.value != ""
    ensures ParseBody(tag, v + CLOSE_TAG) == Some(Rec(f.name.value, f.rtype.value, f.ctype, Some(v)))
  {
    hide Tokens, SetFields, FindSub, Contains, ParseBody, CLOSE_TAG;
    CloseTagAtEndOfValue(v, "");
    assert v + CLOSE_TAG + "" == v + CLOSE_TAG && (v + CLOSE_TAG)[..|v|] == v;
    OpenBody(tag, v + CLOSE_TAG, |v|);
  }

  lemma OpenBody(tag: string, text: string, n: nat)
    requires tag != "" && tag[|tag| - 1] != '/' && FindSub(text, CLOSE_TAG) == Some(n)
    ensures ParseBody(tag, text) == Create(SetFields(NO_FIELDS, Tokens(tag)), Some(text[..n]))
  {
    hide Tokens, SetFields, FindSub, Create, CLOSE_TAG;
  }

  lemma OpenTagFirst(t: string)
    ensures ParseLine(OPEN_TAG + t) == ParseTag(t)
  {
    var line := OPEN_TAG + t;
    assert At(line, 0, OPEN_TAG);
    FindSubIs(line, OPEN_TAG, 0);
    assert line[|OPEN_TAG|..] == t;
    hide ParseTag, FindSub;
  }

  lemma BareFields()
    ensures SetFields(NO_FIELDS, Tokens(BARE_TAG)) == Fields(Some("a"), Some("b"), Some("c"))
  {
    BareTagText();
    assert BARE_TAG == " " + BARE_NAME + " " + BARE_TYPE + (" " + BARE_CTYPE);
    hide BARE_TAG, BARE_NAME, BARE_TYPE, BARE_CTYPE, Tokens, SetField, SetFields;
    var c := " " + BARE_CTYPE;
    assert c[1..] == BARE_CTYPE && IsDelim(c[0]);
    TwoTokens(BARE_NAME, BARE_TYPE, c);
    LastToken(BARE_CTYPE);
    BareName();
    BareType();
    BareCtype();
    hide *;
    SetTwoFields(BARE_NAME, BARE_TYPE, [BARE_CTYPE]);
    SetLastField(Fields(Some("a"), Some("b"), None), BARE_CTYPE);
  }

  lemma SetLastField(f: Fields, tok: string)
    ensures SetFields(f, [tok]) == SetField(f, tok)
  {
    hide SetField;
    assert [tok][1..] == [];
  }

  lemma BareName()
    ensures SetField(NO_FIELDS, BARE_NAME) == Fields(Some("a"), None, None)
  {
    assert BARE_NAME[..5] == "name=" && BARE_NAME[5..] == "a";
  }

  lemma BareType()
    ensures SetField(Fields(Some("a"), None, None), BARE_TYPE) == Fields(Some("a"), Some("b"), None)
  {
    assert BARE_TYPE[0] == 't' && "name="[0] == 'n';
    assert BARE_TYPE[..5] == "type=" && BARE_TYPE[5..] == "b";
  }

  lemma BareCtype()
    ensures SetField(Fields(Some("a"), Some("b"), None), BARE_CTYPE) == Fields(Some("a"), Some("b"), Some("c"))
  {
    assert BARE_CTYPE[0] == 'c' && "name="[0] == 'n' && "type="[0] == 't';
    assert BARE_CTYPE[..12] == "contentType=" && BARE_CTYPE[12..] == "c";
  }

  // ---------- what a line that is too long yields ----------

  /** If what is left of a long line is the printed line of another record, that one is read. */
  lemma LongLineYields(r: Rec, q: Rec, rest: string)
    requires Clean(r) && OneLine(PrintBody(r)) && |PrintRec(r)| > LINE_MAX + 1
    requires Loadable(q) && PrintBody(r)[LINE_MAX..] == PrintBody(q)
    ensures ParseText(PrintRec(r) + rest) == [Norm(q)] + ParseText(rest)
  {
    LongLineHeadIsEmpty(r, rest);
    CutLineRead(r, rest);
    assert PrintBody(q) + "\n" + rest == PrintRec(q) + rest;
    ParseTextRecord(q, rest);
    hide ParseText, LineRecord, PrintBody;
  }

  /** A name as parameters have them. */
  ghost predicate Plain(name: string) {
    name != "" && FieldOk(name) && NUL !in name && '/' !in name && |name| <= 1000
  }

  /** The printed line of a string parameter up to its value. */
  function Head(name: string): (h: string)
    ensures |h| == 30 + |name|
  {
    "  " + OPEN_TAG + (" " + Attr("name=", name) + " " + Attr("type=", "astr")) + ">"
  }

  function Parameter(name: string, value: string): Rec {
    Rec(name, "astr", None, Some(value))
  }

  /** A value whose printed line, cut at 4095 characters, goes on with the line of the value "y". */
  function LongValue(name: string): string
    requires |name| <= 1000
  {
    Repeat('x', LINE_MAX - |Head(name)|) + (Head(name) + "y")
  }

  lemma ParameterBody(name: string, value: string)
    ensures PrintBody(Parameter(name, value)) == Head(name) + value + CLOSE_TAG
  {
    hide OPEN_TAG, CLOSE_TAG, Attr;
  }

  lemma HeadHas(name: string)
    requires Plain(name)
    ensures OneLine(Head(name)) && '/' !in Head(name)
  {
  }

  lemma NoSlashNoClose(s: string)
    requires '/' !in s
    ensures !Contains(s, CLOSE_TAG)
  {
    forall k ensures !At(s, k, CLOSE_TAG) {
      if At(s, k, CLOSE_TAG) {
        CloseTagHasSlash(s, k);
      }
    }
  }

  lemma CloseTagHasSlash(s: string, k: int)
    requires At(s, k, CLOSE_TAG)
    ensures '/' in s
  {
    assert s[k + 1] == s[k..k + |CLOSE_TAG|][1];
  }

  lemma ParameterClean(name: string, value: string)
    requires Plain(name) && '/' !in value && OneLine(value)
    ensures Clean(Parameter(name, value)) && OneLine(PrintBody(Parameter(name, value)))
  {
    NoSlashNoClose(value);
    HeadHas(name);
    ParameterBody(name, value);
    assert OneLine(CLOSE_TAG) && FieldOk("astr");
    hide PrintBody, Head, CLOSE_TAG;
  }

  lemma LongValueText(name: string)
    requires Plain(name)
    ensures '/' !in LongValue(name) && OneLine(LongValue(name)) && '/' !in "y" && OneLine("y")
  {
    HeadHas(name);
    hide Head;
  }

  /** The lengths, and the cut. */
  lemma LongValueCut(name: string)
    requires Plain(name)
    ensures var r, q := Parameter(name, LongValue(name)), Parameter(name, "y");
            && |PrintRec(r)| > LINE_MAX + 1 && |PrintRec(q)| <= LINE_MAX + 1
            && |PrintBody(r)| > LINE_MAX && PrintBody(r)[LINE_MAX..] == PrintBody(q)
  {
    var r, q, pad := Parameter(name, LongValue(name)), Parameter(name, "y"), Repeat('x', LINE_MAX - |Head(name)|);
    ParameterBody(name, LongValue(name));
    ParameterBody(name, "y");
    assert |CLOSE_TAG| == 9;
    hide Head, PrintBody, CLOSE_TAG;
    assert PrintBody(r) == (Head(name) + pad) + (Head(name) + "y" + CLOSE_TAG);
  }

  /** A parameter of any plain name may so come back with another value, cut out of its own. */
  lemma LongValueIsReplaced(name: string)
    requires Plain(name)
    ensures var r := Parameter(name, LongValue(name));
            && Clean(r) && OneLine(PrintBody(r)) && !Loadable(r)
            && ParseText(FlushText([r])) == [Parameter(name, "y")]
  {
    var r, q := Parameter(name, LongValue(name)), Parameter(name, "y");
    LongValueText(name);
    ParameterClean(name, LongValue(name));
    ParameterClean(name, "y");
    LongValueCut(name);
    assert Norm(q) == q && Loadable(q) && !Loadable(r);
    hide *;
    OneRecordText(r);
    LongLineYields(r, q, END_LINE + "\n" + "");
    EndYieldsNothing();
  }

  lemma OneRecordText(r: Rec)
    ensures ParseText(FlushText([r])) == ParseText(PrintRec(r) + (END_LINE + "\n" + ""))
  {
    assert PrintRecs([r]) == PrintRec(r);
    hide *;
    FramedText([r]);
    FrameSkipped(PrintRecs([r]) + (END_LINE + "\n" + ""));
  }

  // ---------- a bootstrap value over two boots ----------

  lemma OneInserted(r: Rec)
    ensures Flat(InsertAll(Empty(), [r], false)) == [r]
  {
    hide Bucket;
    var b := Bucket(r.name);
    assert IndexOf([], r.name) == None && [r] + [] == [r];
    assert RecordChains.Insert(Empty(), r, false) == Empty()[b := [r]];
    InsertAllCons(Empty(), r, [], false);
    OneChain(b, [r], 0);
  }

  lemma {:induction false} OneChain(b: nat, c: Chain, from: nat)
    requires b < SIZE && from <= SIZE
    ensures FlatFrom(Empty()[b := c], from) == if from <= b then c else []
    decreases SIZE - from
  {
    if from == SIZE {
    } else {
      OneChain(b, c, from + 1);
    }
  }

  /** A bootstrap file that gives one watched parameter a value, and no other source. */
  function OnlyBootstrap(name: string, partnerName: string, value: string): Inputs {
    Inputs(None, None, None, [Watch(name, partnerName)], Some(map[partnerName := value]))
  }

  lemma OnlyBootstrapMerged(name: string, partnerName: string, value: string)
    requires name != ""
    ensures Merged(None, OnlyBootstrap(name, partnerName, value), [false])
         == InsertAll(Empty(), [Parameter(name, value)], false)
  {
    var inp := OnlyBootstrap(name, partnerName, value);
    assert MergedParts(None, inp) == Empty();
    LookupEmpty(name);
    assert Flags(Empty(), inp.watch, [false]) == [false];
    hide Lookup, InsertAll, AppendAll, MergedParts;
    assert inp.watch[1..] == [] && [false][1..] == [];
    assert BootRecs(inp.watch, [false], inp.bootstrap.value) == [Parameter(name, value)];
  }

  /**
   A watched parameter, given such a value by the bootstrap file, has that value after the
   first boot and the value "y" after the second, though no source has changed.
   */
  lemma SecondBootReplacesValue(name: string, partnerName: string)
    requires Plain(name)
    ensures var inp := OnlyBootstrap(name, partnerName, LongValue(name));
            var first := Merged(None, inp, [false]);
            var second := Merged(Some(FlushText(Flat(first))), inp, [false]);
            && Lookup(first, name) == Some(Parameter(name, LongValue(name)))
            && Lookup(second, name) == Some(Parameter(name, "y"))
  {
    var r, q := Parameter(name, LongValue(name)), Parameter(name, "y");
    var inp := OnlyBootstrap(name, partnerName, LongValue(name));
    OnlyBootstrapMerged(name, partnerName, LongValue(name));
    OneInserted(r);
    LongValueIsReplaced(name);
    LookupEmpty(name);
    LookupInsertAllKeep(Empty(), [r], name);
    assert First([r], name) == Some(r) && First([q], name) == Some(q);
    assert Last([], name) == None && GivenRecs(inp.partners) == [];
    hide LongValue, Merged, InsertAll, Flat, FlushText, ParseText, Lookup, Head, BootValue, MergedParts, First;
    var file := FlushText(Flat(Merged(None, inp, [false])));
    assert FileRecs(Some(file)) == [q];
    MergeMeaning(Some(file), inp, [false], name);
  }

  /** One of the parameters the program watches. */
  const WEB_CONFIG_URL := "Device.X_RDK_WebConfig.URL"

  lemma WebConfigUrlIsReplaced()
    ensures Plain(WEB_CONFIG_URL)
    ensures var inp := OnlyBootstrap(WEB_CONFIG_URL, WEB_CONFIG_URL, LongValue(WEB_CONFIG_URL));
            var file := FlushText(Flat(Merged(None, inp, [false])));
            Lookup(Merged(Some(file), inp, [false]), WEB_CONFIG_URL) == Some(Parameter(WEB_CONFIG_URL, "y"))
  {
    assert Plain(WEB_CONFIG_URL);
    hide *;
    SecondBootReplacesValue(WEB_CONFIG_URL, WEB_CONFIG_URL);
  }
}
