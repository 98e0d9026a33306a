/**
 The `<Record ...>` line format of the configuration file
 (source/Ssp/ssp_cfmif.c): what a line means to the parser, what the printer
 writes for a record, and how far the two undo each other.
 */
module RecordText {
  import opened CStrings

  /** A record; `ctype` and `value` may be NULL in the source. */
  datatype Rec = Rec(name: string, rtype: string, ctype: Option<string>, value: Option<string>)

  const OPEN_TAG := "<Record"
  const CLOSE_TAG := "</Record>"

  // ---------- tokens ----------

  predicate IsDelim(c: char) {
    c == ' ' || c == '\t' || c == '\r' || c == '\n'
  }

  predicate NoDelim(s: string) {
    forall i :: 0 <= i < |s| ==> !IsDelim(s[i])
  }

  /** `strspn` over the delimiters. */
  function SkipDelims(s: string): (k: nat)
    ensures k <= |s|
    ensures forall i :: 0 <= i < k ==> IsDelim(s[i])
    ensures k < |s| ==> !IsDelim(s[k])
  {
    if s == "" || !IsDelim(s[0]) then 0 else 1 + SkipDelims(s[1..])
  }

  /** `strcspn` over the delimiters. */
  function TokenLength(s: string): (n: nat)
    ensures n <= |s|
    ensures forall i :: 0 <= i < n ==> !IsDelim(s[i])
    ensures n < |s| ==> IsDelim(s[n])
  {
    if s == "" || IsDelim(s[0]) then 0 else 1 + TokenLength(s[1..])
  }

  lemma SkipDelimsIs(s: string, k: nat)
    requires k <= |s|
    requires forall i :: 0 <= i < k ==> IsDelim(s[i])
    requires k < |s| ==> !IsDelim(s[k])
    ensures SkipDelims(s) == k
  {
  }

  lemma TokenLengthIs(s: string, n: nat)
    requires n <= |s|
    requires forall i :: 0 <= i < n ==> !IsDelim(s[i])
    requires n < |s| ==> IsDelim(s[n])
    ensures TokenLength(s) == n
  {
  }

  function FirstToken(s: string): string {
    var t := s[SkipDelims(s)..];
    t[..TokenLength(t)]
  }

  /** What is left for the next `strtok_r` call after the first token of `s`. */
  function AfterToken(s: string): (r: string)
    ensures s != "" ==> |r| < |s|
  {
    var k := SkipDelims(s);
    var n := TokenLength(s[k..]);
    if k + n < |s| then s[k + n + 1..] else ""
  }

  /** The tokens `strtok_r` delivers, in order. */
  function Tokens(s: string): seq<string>
    decreases |s|
  {
    if SkipDelims(s) == |s| then [] else [FirstToken(s)] + Tokens(AfterToken(s))
  }

  // ---------- attributes ----------

  /** The attribute pointers while a tag is scanned; None is NULL. */
  datatype Fields = Fields(name: Option<string>, rtype: Option<string>, ctype: Option<string>)

  const NO_FIELDS := Fields(None, None, None)

  function DropOpeningQuote(s: string): string {
    if s != "" && s[0] == '"' then s[1..] else s
  }

  function DropClosingQuote(s: string): string {
    if s != "" && s[|s| - 1] == '"' then s[..|s| - 1] else s
  }

  /** `remove_quotes`: one quote at each end, each on its own. */
  function StripQuotes(s: string): string {
    DropClosingQuote(DropOpeningQuote(s))
  }

  datatype AttrKind = NameAttr | TypeAttr | CtypeAttr | OtherAttr

  /** Which attribute a token sets, and how long its key is (the `strncmp` chain). */
  function AttrOf(tok: string): (a: (AttrKind, nat))
    ensures a.1 <= |tok|
  {
    if "name=" <= tok then (NameAttr, 5)
    else if "type=" <= tok then (TypeAttr, 5)
    else if "contentType=" <= tok then (CtypeAttr, 12)
    else (OtherAttr, 0)
  }

  /** One token of the tag; a later attribute of the same name wins. */
  function SetField(f: Fields, tok: string): Fields {
    var (kind, key) := AttrOf(tok);
    var v := Some(StripQuotes(tok[key..]));
    match kind
    case NameAttr => f.(name := v)
    case TypeAttr => f.(rtype := v)
    case CtypeAttr => f.(ctype := v)
    case OtherAttr => f
  }

  function SetFields(f: Fields, toks: seq<string>): Fields
    decreases toks
  {
    if toks == [] then f else SetFields(SetField(f, toks[0]), toks[1..])
  }

  /** `record_create`: a name and a type are needed, and neither may be empty. */
  function Create(f: Fields, value: Option<string>): Option<Rec> {
    if f.name.None? || f.rtype.None? || f.name.value == "" || f.rtype.value == "" then None
    else Some(Rec(f.name.value, f.rtype.value, f.ctype, value))
  }

  // ---------- parser and printer ----------

  /** The record `record_parse` finds in a line; None when it rejects the line. */
  function ParseLine(line: string): Option<Rec> {
    match FindSub(line, OPEN_TAG)
    case None => None
    case Some(k) => ParseTag(line[k + |OPEN_TAG|..])
  }

  /** The same, from just after the opening `<Record`: up to the first '>' is the tag. */
  function ParseTag(t: string): Option<Rec> {
    match FindChar(t, '>')
    case None => None
    case Some(e) => ParseBody(t[..e], t[e + 1..])
  }

  /** A tag that ends in '/' has a NULL value; any other needs its `</Record>`. */
  function ParseBody(tag: string, text: string): Option<Rec> {
    if tag != "" && tag[|tag| - 1] == '/' then
      Create(SetFields(NO_FIELDS, Tokens(tag[..|tag| - 1])), None)
    else
      match FindSub(text, CLOSE_TAG)
      case None => None
      case Some(v) => Create(SetFields(NO_FIELDS, Tokens(tag)), Some(text[..v]))
  }

  function Attr(key: string, v: string): string {
    key + "\"" + v + "\""
  }

  /** The attributes as `record_save` prints them. */
  function PrintAttrs(r: Rec): string {
    " " + Attr("name=", r.name) + " " + Attr("type=", r.rtype) + PrintCtype(r.ctype)
  }

  function PrintCtype(c: Option<string>): string {
    match c case None => "" case Some(c) => " " + Attr("contentType=", c)
  }

  function ValueText(r: Rec): string {
    match r.value case None => "" case Some(v) => v
  }

  /** A printed line without its newline. */
  function PrintBody(r: Rec): string {
    "  " + OPEN_TAG + PrintAttrs(r) + ">" + ValueText(r) + CLOSE_TAG
  }

  /** `record_save`: one line of the file. */
  function PrintRec(r: Rec): string {
    PrintBody(r) + "\n"
  }

  /** A NULL value is printed, and so read back, as the empty string. */
  function Norm(r: Rec): Rec {
    r.(value := Some(ValueText(r)))
  }

  // ---------- what the parser delivers ----------

  predicate FieldOk(s: string) {
    NoDelim(s) && '>' !in s
  }

  /** The records the line format can carry. */
  ghost predicate Clean(r: Rec) {
    && r.name != "" && r.rtype != ""
    && FieldOk(r.name) && FieldOk(r.rtype) && (r.ctype.Some? ==> FieldOk(r.ctype.value))
    && (r.value.Some? ==> !Contains(r.value.value, CLOSE_TAG))
  }

  ghost predicate FieldsOk(f: Fields) {
    && (f.name.Some? ==> FieldOk(f.name.value))
    && (f.rtype.Some? ==> FieldOk(f.rtype.value))
    && (f.ctype.Some? ==> FieldOk(f.ctype.value))
  }

  lemma {:induction false} TokensAreFieldOk(s: string)
    requires '>' !in s
    ensures forall t :: t in Tokens(s) ==> FieldOk(t)
    decreases |s|
  {
    var k := SkipDelims(s);
    if k < |s| {
      TokensAreFieldOk(AfterToken(s));
    }
  }

  lemma {:induction false} SetFieldsKeepsOk(f: Fields, toks: seq<string>)
    requires FieldsOk(f)
    requires forall t :: t in toks ==> FieldOk(t)
    ensures FieldsOk(SetFields(f, toks))
    decreases toks
  {
    if toks == [] {
    } else {
      assert FieldOk(toks[0]);
      SetFieldKeepsOk(f, toks[0]);
      hide SetField;
      SetFieldsKeepsOk(SetField(f, toks[0]), toks[1..]);
    }
  }

  lemma SetFieldKeepsOk(f: Fields, tok: string)
    requires FieldsOk(f) && FieldOk(tok)
    ensures FieldsOk(SetField(f, tok))
  {
    hide AttrOf, StripQuotes;
    StripKeepsOk(tok, AttrOf(tok).1);
  }

  lemma StripKeepsOk(tok: string, k: nat)
    requires FieldOk(tok) && k <= |tok|
    ensures FieldOk(StripQuotes(tok[k..]))
  {
  }

  /** Whatever line is accepted, the record it yields is one the format can carry. */
  lemma ParseYieldsClean(line: string)
    ensures ParseLine(line).Some? ==> Clean(ParseLine(line).value)
  {
    if ParseLine(line).Some? {
      var t := line[FindSub(line, OPEN_TAG).value + |OPEN_TAG|..];
      var e := FindChar(t, '>').value;
      BodyYieldsClean(t[..e], t[e + 1..]);
    }
  }

  lemma BodyYieldsClean(tag: string, text: string)
    requires '>' !in tag
    ensures ParseBody(tag, text).Some? ==> Clean(ParseBody(tag, text).value)
  {
    var closed := tag != "" && tag[|tag| - 1] == '/';
    var region := if closed then tag[..|tag| - 1] else tag;
    TokensAreFieldOk(region);
    SetFieldsKeepsOk(NO_FIELDS, Tokens(region));
    var v := FindSub(text, CLOSE_TAG);
    if !closed && v.Some? {
      NoMatchBeforeFirst(text, v.value);
    }
  }

  lemma NoMatchBeforeFirst(text: string, v: nat)
    requires FindSub(text, CLOSE_TAG) == Some(v)
    ensures !Contains(text[..v], CLOSE_TAG)
  {
    forall k ensures !At(text[..v], k, CLOSE_TAG) {
      assert At(text[..v], k, CLOSE_TAG) ==> At(text, k, CLOSE_TAG);
    }
  }

  // ---------- what the printer writes is read back ----------

  /** `</Record>` has no border: no occurrence straddles the end of a value. */
  lemma CloseTagAtEndOfValue(v: string, tail: string)
    requires !Contains(v, CLOSE_TAG)
    ensures FindSub(v + CLOSE_TAG + tail, CLOSE_TAG) == Some(|v|)
  {
    var s := v + CLOSE_TAG + tail;
    assert At(s, |v|, CLOSE_TAG);
    forall k | 0 <= k < |v| ensures !At(s, k, CLOSE_TAG) {
      if k + |CLOSE_TAG| <= |v| {
        assert !At(v, k, CLOSE_TAG);
        assert s[k..k + |CLOSE_TAG|] == v[k..k + |CLOSE_TAG|];
      } else {
        assert s[|v|] == '<' && CLOSE_TAG[|v| - k] != '<';
        assert s[k..k + |CLOSE_TAG|][|v| - k] == s[|v|];
      }
    }
    FindSubIs(s, CLOSE_TAG, |v|);
  }

  /** Skipping leading delimiters, a token that is followed by a delimiter or the end comes out whole. */
  lemma TokensStep(s: string, pre: string, w: string, rest: string)
    requires s == pre + w + rest
    requires forall i :: 0 <= i < |pre| ==> IsDelim(pre[i])
    requires w != "" && NoDelim(w)
    requires rest != "" ==> IsDelim(rest[0])
    ensures Tokens(s) == [w] + Tokens(if rest == "" then "" else rest[1..])
  {
    assert s[|pre|] == w[0];
    SkipDelimsIs(s, |pre|);
    var t := s[|pre|..];
    assert t == w + rest;
    TokenLengthIs(t, |w|);
    assert FirstToken(s) == w;
    assert AfterToken(s) == if rest == "" then "" else rest[1..];
  }

  lemma StripQuotesUndoesQuoting(s: string)
    ensures StripQuotes("\"" + s + "\"") == s
  {
    assert DropOpeningQuote("\"" + s + "\"") == s + "\"";
  }

  lemma SetFieldOfAttr(f: Fields, key: string, v: string)
    requires key == "name=" || key == "type=" || key == "contentType="
    ensures SetField(f, Attr(key, v)) ==
            if key == "name=" then f.(name := Some(v))
            else if key == "type=" then f.(rtype := Some(v))
            else f.(ctype := Some(v))
  {
    StripQuotesUndoesQuoting(v);
    var w := Attr(key, v);
    assert w[..|key|] == key && w[|key|..] == "\"" + v + "\"";
    assert w[0] == key[0];
  }

  lemma AttrIsOneToken(key: string, v: string)
    requires key != "" && FieldOk(key) && FieldOk(v)
    ensures FieldOk(Attr(key, v)) && Attr(key, v) != "" && Attr(key, v)[|key| + |v| + 1] == '"'
  {
  }

  lemma TwoTokens(n: string, t: string, c: string)
    requires n != "" && NoDelim(n) && t != "" && NoDelim(t) && (c != "" ==> IsDelim(c[0]))
    ensures Tokens(" " + n + " " + t + c) == [n] + ([t] + Tokens(if c == "" then "" else c[1..]))
  {
    Regroup(n, t, c);
    IndentedToken(n, t + c);
    LeadingToken(t, c);
  }

  lemma IndentedToken(n: string, y: string)
    requires n != "" && NoDelim(n)
    ensures Tokens(" " + n + (" " + y)) == [n] + Tokens(y)
  {
    var r := " " + y;
    assert r[1..] == y;
    TokensStep(" " + n + r, " ", n, r);
  }

  lemma LeadingToken(t: string, c: string)
    requires t != "" && NoDelim(t) && (c != "" ==> IsDelim(c[0]))
    ensures Tokens(t + c) == [t] + Tokens(if c == "" then "" else c[1..])
  {
    assert "" + t + c == t + c;
    TokensStep(t + c, "", t, c);
  }

  lemma Regroup(n: string, t: string, c: string)
    ensures " " + n + " " + t + c == " " + n + (" " + (t + c))
  {
  }

  lemma LastToken(w: string)
    requires w != "" && NoDelim(w)
    ensures Tokens(w) == [w]
  {
    assert w == "" + w + "";
    TokensStep(w, "", w, "");
  }

  /** The attributes of a clean record are tokenised as they were printed. */
  lemma PrintedAttrsTokens(r: Rec)
    requires Clean(r)
    ensures Tokens(PrintAttrs(r)) ==
            [Attr("name=", r.name)] + ([Attr("type=", r.rtype)] + CtypeToken(r.ctype))
  {
    AttrIsOneToken("name=", r.name);
    AttrIsOneToken("type=", r.rtype);
    var c := PrintCtype(r.ctype);
    CtypeIsOneToken(r.ctype);
    TwoTokens(Attr("name=", r.name), Attr("type=", r.rtype), c);
  }

  lemma CtypeIsOneToken(c: Option<string>)
    requires c.Some? ==> FieldOk(c.value)
    ensures '>' !in PrintCtype(c)
    ensures var p := PrintCtype(c); p != "" ==> IsDelim(p[0]) && p[|p| - 1] == '"'
    ensures var p := PrintCtype(c); Tokens(if p == "" then "" else p[1..]) == CtypeToken(c)
  {
    if c.Some? {
      AttrIsOneToken("contentType=", c.value);
      assert PrintCtype(c)[1..] == Attr("contentType=", c.value);
      LastToken(Attr("contentType=", c.value));
    }
  }

  function CtypeToken(c: Option<string>): seq<string> {
    match c case None => [] case Some(c) => [Attr("contentType=", c)]
  }

  lemma SetFieldsOne(f: Fields, tok: string, toks: seq<string>)
    ensures SetFields(f, [tok] + toks) == SetFields(SetField(f, tok), toks)
  {
    assert ([tok] + toks)[1..] == toks;
  }

  /** The attributes of a clean record come back from their printed form. */
  lemma PrintedAttrsParse(r: Rec)
    requires Clean(r)
    ensures SetFields(NO_FIELDS, Tokens(PrintAttrs(r))) == Fields(Some(r.name), Some(r.rtype), r.ctype)
  {
    PrintedAttrsTokens(r);
    SetTwoFields(Attr("name=", r.name), Attr("type=", r.rtype), CtypeToken(r.ctype));
    SetFieldOfAttr(NO_FIELDS, "name=", r.name);
    SetFieldOfAttr(Fields(Some(r.name), None, None), "type=", r.rtype);
    if r.ctype.Some? {
      SetFieldOfAttr(Fields(Some(r.name), Some(r.rtype), None), "contentType=", r.ctype.value);
      SetFieldsOne(Fields(Some(r.name), Some(r.rtype), None), CtypeToken(r.ctype)[0], []);
    }
  }

  lemma SetTwoFields(n: string, t: string, c: seq<string>)
    ensures SetFields(NO_FIELDS, [n] + ([t] + c)) == SetFields(SetField(SetField(NO_FIELDS, n), t), c)
  {
    SetFieldsOne(NO_FIELDS, n, [t] + c);
    SetFieldsOne(SetField(NO_FIELDS, n), t, c);
  }

  lemma ParseLineSkipsIndent(t: string)
    ensures ParseLine("  " + OPEN_TAG + t) == ParseTag(t)
  {
    var line := "  " + OPEN_TAG + t;
    assert At(line, 2, OPEN_TAG);
    forall j | 0 <= j < 2 ensures !At(line, j, OPEN_TAG) {
      assert line[j] == ' ';
    }
    FindSubIs(line, OPEN_TAG, 2);
    assert line[2 + |OPEN_TAG|..] == t;
  }

  lemma ParseTagSplits(tag: string, text: string)
    requires '>' !in tag
    ensures ParseTag(tag + ">" + text) == ParseBody(tag, text)
  {
    var t := tag + ">" + text;
    assert t[..|tag|] == tag && t[|tag| + 1..] == text;
    FindCharIs(t, '>', |tag|);
  }

  lemma PrintedAttrsShape(r: Rec)
    requires Clean(r)
    ensures var a := PrintAttrs(r); '>' !in a && a != "" && a[|a| - 1] == '"'
  {
    AttrIsOneToken("name=", r.name);
    AttrIsOneToken("type=", r.rtype);
    CtypeIsOneToken(r.ctype);
  }

  lemma BodyOfPrinted(r: Rec, tail: string)
    requires Clean(r)
    ensures ParseBody(PrintAttrs(r), ValueText(r) + CLOSE_TAG + tail) == Some(Norm(r))
  {
    PrintedAttrsShape(r);
    CloseTagAtEndOfValue(ValueText(r), tail);
    assert (ValueText(r) + CLOSE_TAG + tail)[..|ValueText(r)|] == ValueText(r);
    PrintedAttrsParse(r);
  }

  lemma BodyShape(r: Rec, tail: string)
    ensures PrintBody(r) + tail == "  " + OPEN_TAG + (PrintAttrs(r) + ">" + (ValueText(r) + CLOSE_TAG + tail))
  {
  }

  /** A printed clean record is read back, whatever follows it on the line. */
  lemma CleanRoundTrip(r: Rec, tail: string)
    requires Clean(r)
    ensures ParseLine(PrintBody(r) + tail) == Some(Norm(r))
  {
    var text := ValueText(r) + CLOSE_TAG + tail;
    BodyShape(r, tail);
    ParseLineSkipsIndent(PrintAttrs(r) + ">" + text);
    BodyOfPrinted(r, tail);
    PrintedAttrsShape(r);
    ParseTagSplits(PrintAttrs(r), text);
  }

  /** Printing and parsing give a record back exactly when the format can carry it. */
  lemma RoundTripIff(r: Rec)
    ensures ParseLine(PrintRec(r)) == Some(Norm(r)) <==> Clean(r)
  {
    if Clean(r) {
      CleanRoundTrip(r, "\n");
    }
    if ParseLine(PrintRec(r)) == Some(Norm(r)) {
      ParseYieldsClean(PrintRec(r));
    }
  }

  /** Parser normal form: an accepted line, printed and parsed again, yields the same record. */
  lemma ParserNormalForm(line: string)
    requires ParseLine(line).Some?
    ensures ParseLine(PrintRec(ParseLine(line).value)) == Some(Norm(ParseLine(line).value))
  {
    ParseYieldsClean(line);
    CleanRoundTrip(ParseLine(line).value, "\n");
  }
}
