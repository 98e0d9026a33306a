/**
 The whole configuration file (source/Ssp/ssp_cfmif.c): the lines `fgets`
 cuts it into, the records found in them, and the text a flush writes.
 */
module ConfigText {
  import opened CStrings
  import opened RecordText

  /** `fgets` with a 4096-byte line buffer stores at most this many characters. */
  const LINE_MAX := 4095

  const HEADER := "<?xml version=\"1.0\"  encoding=\"UTF-8\" ?>\n<Provision>\n"
  const FOOTER := "</Provision>\n"

  /** How many characters one `fgets` call takes: through a newline, or a full buffer, or to the end. */
  function FgetsLength(s: string): (n: nat)
    ensures n <= |s| && n <= LINE_MAX
    ensures s != "" ==> n > 0
  {
    match FindChar(s, '\n')
    case None => if |s| < LINE_MAX then |s| else LINE_MAX
    case Some(k) => if k + 1 < LINE_MAX then k + 1 else LINE_MAX
  }

  /** The record in one buffered line, which the parser sees up to the first NUL. */
  function LineRecord(line: string): seq<Rec> {
    match ParseLine(CStr(line, 0))
    case None => []
    case Some(r) => [r]
  }

  /** The records in a file, in file order; rejected lines are skipped. */
  function ParseText(text: string): seq<Rec> {
    if text == "" then []
    else
      var n := FgetsLength(text);
      LineRecord(text[..n]) + ParseText(text[n..])
  }

  function PrintRecs(rs: seq<Rec>): string {
    if rs == [] then "" else PrintRec(rs[0]) + PrintRecs(rs[1..])
  }

  /** The file a flush of the records produces. */
  function FlushText(rs: seq<Rec>): string {
    HEADER + PrintRecs(rs) + FOOTER
  }

  // ---------- the flush buffer ----------

  /** The format string of a record with a content type, whose length enters the size estimate. */
  const TEMPLATE := "  <Record name=\"%s\" type=\"%s\" contentType=\"%s\">%s</Record>\n"

  const BASE: nat := 128 * 1024
  const GROW: nat := BASE / 4

  /** The room the flush wants before it prints a record. */
  function Estimate(r: Rec): nat {
    |TEMPLATE| + |r.name| + |r.rtype| + (match r.ctype case None => 0 case Some(c) => |c|)
    + |ValueText(r)| + |FOOTER| + 1
  }

  /** The room there is for the record after at most one growth step. */
  function RoomFor(r: Rec, left: nat): nat {
    if left < Estimate(r) then left + GROW else left
  }

  /** The room left after the records are printed one after another; None when one is cut short. */
  function FlushRoom(rs: seq<Rec>, left: nat): Option<nat>
    decreases |rs|
  {
    if rs == [] then Some(left)
    else
      var room := RoomFor(rs[0], left);
      if |PrintRec(rs[0])| < room then FlushRoom(rs[1..], room - |PrintRec(rs[0])|) else None
  }

  function NormAll(rs: seq<Rec>): (ns: seq<Rec>)
    ensures |ns| == |rs|
    ensures forall i :: 0 <= i < |rs| ==> ns[i] == Norm(rs[i])
  {
    seq(|rs|, i requires 0 <= i < |rs| => Norm(rs[i]))
  }

  /** No character that would cut the printed line short. */
  predicate OneLine(s: string) {
    forall i :: 0 <= i < |s| ==> s[i] != '\n' && s[i] != NUL
  }

  /** The records that survive being written to the file and read again. */
  ghost predicate Loadable(r: Rec) {
    && Clean(r)
    && OneLine(PrintBody(r))
    && |PrintRec(r)| <= LINE_MAX + 1
  }

  // ---------- reading back what was written ----------

  lemma FgetsLengthIs(line: string, rest: string)
    requires OneLine(line)
    ensures FgetsLength(line + "\n" + rest) == if |line| < LINE_MAX then |line| + 1 else LINE_MAX
  {
    var s := line + "\n" + rest;
    assert s[..|line|] == line;
    FindCharIs(s, '\n', |line|);
  }

  lemma WholeStringIsCStr(s: string)
    requires NUL !in s
    ensures CStr(s, 0) == s
  {
    StrEndIs(s, 0, |s|);
  }

  /** A line that does not reach the buffer's end is read whole, newline included. */
  lemma ParseTextLine(line: string, rest: string)
    requires OneLine(line) && |line| < LINE_MAX
    ensures ParseText(line + "\n" + rest) == LineRecord(line + "\n") + ParseText(rest)
  {
    var s := line + "\n" + rest;
    FgetsLengthIs(line, rest);
    assert s[..|line| + 1] == line + "\n";
    assert s[|line| + 1..] == rest;
  }

  /** A line of exactly 4095 characters fills the buffer; its newline is the next, empty, line. */
  lemma ParseTextFullLine(line: string, rest: string)
    requires OneLine(line) && |line| == LINE_MAX
    ensures ParseText(line + "\n" + rest) == LineRecord(line) + (LineRecord("\n") + ParseText(rest))
  {
    var s := line + "\n" + rest;
    FgetsLengthIs(line, rest);
    assert s[..LINE_MAX] == line;
    assert s[LINE_MAX..] == "" + "\n" + rest;
    ParseTextLine("", rest);
    assert "" + "\n" == "\n";
  }

  lemma NoRecordIn(line: string)
    requires 'R' !in line
    ensures LineRecord(line) == []
  {
    var s := CStr(line, 0);
    forall k ensures !At(s, k, OPEN_TAG) {
      if At(s, k, OPEN_TAG) {
        OpenTagHasR(s, k);
      }
    }
  }

  lemma OpenTagHasR(s: string, k: int)
    requires At(s, k, OPEN_TAG)
    ensures 'R' in s
  {
    assert s[k + 1] == s[k..k + |OPEN_TAG|][1];
  }

  lemma LoadableLineRecord(r: Rec, tail: string)
    requires Loadable(r) && NUL !in tail
    ensures LineRecord(PrintBody(r) + tail) == [Norm(r)]
  {
    WholeStringIsCStr(PrintBody(r) + tail);
    CleanRoundTrip(r, tail);
  }

  /** A loadable record comes back from its place in the text; what follows it is unaffected. */
  lemma ParseTextRecord(r: Rec, rest: string)
    requires Loadable(r)
    ensures ParseText(PrintRec(r) + rest) == [Norm(r)] + ParseText(rest)
  {
    if |PrintBody(r)| < LINE_MAX {
      LoadableLineRecord(r, "\n");
      ParseTextLine(PrintBody(r), rest);
    } else {
      ParseTextFullRecord(r, rest);
    }
  }

  lemma ParseTextFullRecord(r: Rec, rest: string)
    requires Loadable(r) && |PrintBody(r)| == LINE_MAX
    ensures ParseText(PrintRec(r) + rest) == [Norm(r)] + ParseText(rest)
  {
    LoadableLineRecord(r, "");
    AppendNothing(PrintBody(r));
    FullLineWithRecord(PrintBody(r), Norm(r), rest);
  }

  lemma AppendNothing(s: string)
    ensures s + "" == s
  {
  }

  lemma FullLineWithRecord(line: string, r: Rec, rest: string)
    requires OneLine(line) && |line| == LINE_MAX && LineRecord(line) == [r]
    ensures ParseText(line + "\n" + rest) == [r] + ParseText(rest)
  {
    hide ParseLine, FgetsLength;
    ParseTextFullLine(line, rest);
    NoRecordIn("\n");
  }

  /** A longer line is cut, and the part `fgets` hands over first holds no record. */
  lemma LongLineHeadIsEmpty(r: Rec, rest: string)
    requires Clean(r) && OneLine(PrintBody(r)) && |PrintRec(r)| > LINE_MAX + 1
    ensures FgetsLength(PrintRec(r) + rest) == LINE_MAX
    ensures LineRecord((PrintRec(r) + rest)[..LINE_MAX]) == []
  {
    var b := PrintBody(r);
    FgetsLengthIs(b, rest);
    var cut := b[..LINE_MAX];
    assert (PrintRec(r) + rest)[..LINE_MAX] == cut;
    WholeStringIsCStr(cut);
    CutBodyHasNoRecord(r, LINE_MAX);
  }

  lemma CutBodyHasNoRecord(r: Rec, n: nat)
    requires Clean(r) && 2 + |OPEN_TAG| <= n < |PrintBody(r)|
    ensures ParseLine(PrintBody(r)[..n]).None?
  {
    var t := PrintAttrs(r) + ">" + (ValueText(r) + CLOSE_TAG);
    hide ParseTag, PrintAttrs;
    BodyIsIndentAndTag(r);
    PrintedAttrsShape(r);
    CutLine(t, n - 2 - |OPEN_TAG|);
    CutTag(PrintAttrs(r), ValueText(r), n - 2 - |OPEN_TAG|);
  }

  lemma BodyIsIndentAndTag(r: Rec)
    ensures PrintBody(r) == "  " + OPEN_TAG + (PrintAttrs(r) + ">" + (ValueText(r) + CLOSE_TAG))
  {
  }

  lemma CutLine(t: string, m: nat)
    requires m <= |t|
    ensures ParseLine(("  " + OPEN_TAG + t)[..m + 2 + |OPEN_TAG|]) == ParseTag(t[..m])
  {
    CutAfterOpenTag(t, m);
    ParseLineSkipsIndent(t[..m]);
  }

  lemma CutAfterOpenTag(t: string, m: nat)
    requires m <= |t|
    ensures ("  " + OPEN_TAG + t)[..m + 2 + |OPEN_TAG|] == "  " + OPEN_TAG + t[..m]
  {
  }

  lemma CutTag(a: string, v: string, m: nat)
    requires '>' !in a && a != "" && a[|a| - 1] != '/'
    requires !Contains(v, CLOSE_TAG) && m < |a| + 1 + |v + CLOSE_TAG|
    ensures ParseTag((a + ">" + (v + CLOSE_TAG))[..m]).None?
  {
    hide ParseTag, ParseBody;
    if m <= |a| {
      assert a + ">" + (v + CLOSE_TAG) == a + (">" + (v + CLOSE_TAG));
      CutInTag(a, ">" + (v + CLOSE_TAG), m);
    } else {
      var k := m - |a| - 1;
      CutAfterTag(a, v + CLOSE_TAG, k);
      ParseTagSplits(a, (v + CLOSE_TAG)[..k]);
      CutValueHasNoClose(v, k);
      NoClose(a, (v + CLOSE_TAG)[..k]);
    }
  }

  lemma CutInTag(a: string, w: string, m: nat)
    requires '>' !in a && m <= |a|
    ensures ParseTag((a + w)[..m]).None?
  {
    assert (a + w)[..m] == a[..m];
    NoTagEnd(a[..m]);
  }

  lemma CutAfterTag(a: string, w: string, k: nat)
    requires k <= |w|
    ensures (a + ">" + w)[..|a| + 1 + k] == a + ">" + w[..k]
  {
  }

  lemma NoTagEnd(t: string)
    requires '>' !in t
    ensures ParseTag(t).None?
  {
  }

  lemma NoClose(a: string, u: string)
    requires a != "" && a[|a| - 1] != '/' && FindSub(u, CLOSE_TAG).None?
    ensures ParseBody(a, u).None?
  {
  }

  lemma CutValueHasNoClose(v: string, n: nat)
    requires !Contains(v, CLOSE_TAG) && n < |v + CLOSE_TAG|
    ensures FindSub((v + CLOSE_TAG)[..n], CLOSE_TAG).None?
  {
    var s := v + CLOSE_TAG;
    CloseTagAtEndOfValue(v, "");
    assert s + "" == s;
    forall k ensures !At(s[..n], k, CLOSE_TAG) {
      assert At(s[..n], k, CLOSE_TAG) ==> At(s, k, CLOSE_TAG) && k < |v|;
    }
  }

  ghost predicate AllLoadable(rs: seq<Rec>) {
    forall i :: 0 <= i < |rs| ==> Loadable(rs[i])
  }

  lemma {:induction false} ParseTextRecords(rs: seq<Rec>, rest: string)
    requires AllLoadable(rs)
    ensures ParseText(PrintRecs(rs) + rest) == NormAll(rs) + ParseText(rest)
    decreases rs
  {
    if rs == [] {
      hide ParseText;
      assert PrintRecs(rs) + rest == rest;
    } else {
      AllLoadableCons(rs);
      hide *;
      ParseTextRecords(rs[1..], rest);
      ParseTextRecord(rs[0], PrintRecs(rs[1..]) + rest);
      assert rs == [rs[0]] + rs[1..];
      PrintRecsCons(rs[0], rs[1..], rest);
      NormAllCons(rs[0], rs[1..]);
      Associate([Norm(rs[0])], NormAll(rs[1..]), ParseText(rest));
    }
  }

  lemma AllLoadableCons(rs: seq<Rec>)
    requires AllLoadable(rs) && rs != []
    ensures Loadable(rs[0]) && AllLoadable(rs[1..])
  {
    hide Loadable;
  }

  lemma NormAllCons(r: Rec, more: seq<Rec>)
    ensures NormAll([r] + more) == [Norm(r)] + NormAll(more)
  {
  }

  lemma Associate(a: seq<Rec>, b: seq<Rec>, c: seq<Rec>)
    ensures a + (b + c) == a + b + c
  {
  }

  lemma PrintRecsCons(r: Rec, more: seq<Rec>, rest: string)
    ensures PrintRecs([r] + more) + rest == PrintRec(r) + (PrintRecs(more) + rest)
  {
    assert ([r] + more)[1..] == more;
  }

  const XML_LINE := "<?xml version=\"1.0\"  encoding=\"UTF-8\" ?>"
  const ROOT_LINE := "<Provision>"
  const END_LINE := "</Provision>"

  lemma XmlLineHasNoRecord()
    ensures OneLine(XML_LINE) && |XML_LINE| < LINE_MAX && 'R' !in XML_LINE + "\n"
  {
  }

  lemma RootLineHasNoRecord()
    ensures OneLine(ROOT_LINE) && |ROOT_LINE| < LINE_MAX && 'R' !in ROOT_LINE + "\n"
  {
  }

  lemma EndLineHasNoRecord()
    ensures OneLine(END_LINE) && |END_LINE| < LINE_MAX && 'R' !in END_LINE + "\n"
  {
  }

  lemma FrameIsLines()
    ensures HEADER == XML_LINE + "\n" + (ROOT_LINE + "\n") && FOOTER == END_LINE + "\n"
  {
  }

  lemma ParseTextSkips(line: string, rest: string)
    requires OneLine(line) && |line| < LINE_MAX && 'R' !in line + "\n"
    ensures ParseText(line + "\n" + rest) == ParseText(rest)
  {
    ParseTextLine(line, rest);
    NoRecordIn(line + "\n");
  }

  lemma TextFrame(x: string, p: string, e: string, body: string)
    ensures x + "\n" + (p + "\n") + body + (e + "\n") == x + "\n" + (p + "\n" + (body + (e + "\n" + "")))
  {
  }

  /** The file a flush writes holds exactly the records flushed, in order. */
  lemma FlushRoundTrip(rs: seq<Rec>)
    requires AllLoadable(rs)
    ensures ParseText(FlushText(rs)) == NormAll(rs)
  {
    var body := PrintRecs(rs) + (END_LINE + "\n" + "");
    FrameIsLines();
    XmlLineHasNoRecord();
    RootLineHasNoRecord();
    EndLineHasNoRecord();
    TextFrame(XML_LINE, ROOT_LINE, END_LINE, PrintRecs(rs));
    ParseTextSkips(XML_LINE, ROOT_LINE + "\n" + body);
    ParseTextSkips(ROOT_LINE, body);
    ParseTextRecords(rs, END_LINE + "\n" + "");
    ParseTextSkips(END_LINE, "");
  }

  // ---------- the flush buffer is always large enough ----------

  lemma PrintedLength(r: Rec)
    ensures |PrintRec(r)| + |FOOTER| + 1 <= Estimate(r)
  {
  }

  /**
   With no printed record longer than one growth step, no record is cut short, and the closing
   line and its NUL always fit.
   */
  lemma {:induction false} FlushFits(rs: seq<Rec>, left: nat)
    requires forall i :: 0 <= i < |rs| ==> |PrintRec(rs[i])| <= GROW
    requires left > |FOOTER|
    ensures FlushRoom(rs, left).Some? && FlushRoom(rs, left).value > |FOOTER|
    decreases rs
  {
    if rs == [] {
    } else {
      PrintedLength(rs[0]);
      hide Estimate, PrintRec;
      FlushFits(rs[1..], RoomFor(rs[0], left) - |PrintRec(rs[0])|);
    }
  }

  /** The first record of a flush takes its share of the text and of the room. */
  lemma FlushStep(r: Rec, rest: seq<Rec>, left: nat)
    ensures PrintRecs([r] + rest) == PrintRec(r) + PrintRecs(rest)
    ensures FlushRoom([r] + rest, left) ==
            if |PrintRec(r)| < RoomFor(r, left) then FlushRoom(rest, RoomFor(r, left) - |PrintRec(r)|) else None
  {
    assert ([r] + rest)[1..] == rest;
    hide PrintRec, RoomFor;
  }

  /**
   A record can be flushed into whatever room a flush may have left, keeping room for the
   closing line, exactly when its printed line is no longer than one growth step.
   */
  lemma FlushFitsIff(r: Rec)
    ensures (forall left: nat :: left > |FOOTER| ==>
                FlushRoom([r], left).Some? && FlushRoom([r], left).value > |FOOTER|)
       <==> |PrintRec(r)| <= GROW
  {
    if |PrintRec(r)| <= GROW {
      forall left: nat | left > |FOOTER|
        ensures FlushRoom([r], left).Some? && FlushRoom([r], left).value > |FOOTER|
      {
        FlushFits([r], left);
      }
    } else {
      var least := |FOOTER| + 1;
      PrintedLength(r);
      FlushStep(r, [], least);
      hide PrintRec, Estimate, FOOTER;
      assert !(FlushRoom([r], least).Some? && FlushRoom([r], least).value > |FOOTER|);
    }
  }
}
