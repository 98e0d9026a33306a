/**
 What a line of the configuration file means to the parser (source/Ssp/ssp_cfmif.c), told by
 its characters: which attributes a tag may hold, in which order, quoted or not, apart by
 which separators, and which lines are rejected.
 */
module LineLaws {
  import opened CStrings
  import opened RecordText

  // ---------- the tokens of a tag ----------

  predicate Separators(s: string) {
    forall i :: 0 <= i < |s| ==> s[i] == ' ' || s[i] == '\t' || s[i] == '\r' || s[i] == '\n'
  }

  predicate Word(s: string) {
    s != "" && forall i :: 0 <= i < |s| ==> s[i] != ' ' && s[i] != '\t' && s[i] != '\r' && s[i] != '\n'
  }

  /** Words with separators before, between and behind them; only those between must not be empty. */
  predicate Apart(seps: seq<string>, words: seq<string>) {
    && |seps| == |words| + 1
    && (forall i :: 0 <= i < |seps| ==> Separators(seps[i]))
    && (forall i :: 0 < i < |words| ==> seps[i] != "")
    && (forall i :: 0 <= i < |words| ==> Word(words[i]))
  }

  function Spaced(seps: seq<string>, words: seq<string>): string
    requires |seps| == |words| + 1
  {
    if words == [] then seps[0] else seps[0] + words[0] + Spaced(seps[1..], words[1..])
  }

  lemma {:induction false} WordsAreTokens(seps: seq<string>, words: seq<string>)
    requires Apart(seps, words)
    ensures Tokens(Spaced(seps, words)) == words
    decreases words
  {
    var s := Spaced(seps, words);
    if words == [] {
      SkipDelimsIs(s, |s|);
    } else {
      var more := Spaced(seps[1..], words[1..]);
      var seps' := [if seps[1] == "" then "" else seps[1][1..]] + seps[2..];
      assert Apart(seps', words[1..]) by { ApartRest(seps, words); }
      assert more != "" ==> IsDelim(more[0]);
      assert (if more == "" then "" else more[1..]) == Spaced(seps', words[1..]) by { SpacedRest(seps, words); }
      TokensStep(s, seps[0], words[0], more);
      WordsAreTokens(seps', words[1..]);
    }
  }

  lemma ApartRest(seps: seq<string>, words: seq<string>)
    requires Apart(seps, words) && words != []
    ensures Apart([if seps[1] == "" then "" else seps[1][1..]] + seps[2..], words[1..])
  {
    var seps' := [if seps[1] == "" then "" else seps[1][1..]] + seps[2..];
    assert Separators(seps[1]);
    assert forall i :: 0 < i < |seps'| ==> seps'[i] == seps[i + 1];
  }

  lemma SpacedRest(seps: seq<string>, words: seq<string>)
    requires Apart(seps, words) && words != []
    ensures var more := Spaced(seps[1..], words[1..]);
            && (more != "" ==> Separators(more[..1]))
            && (if more == "" then "" else more[1..])
            == Spaced([if seps[1] == "" then "" else seps[1][1..]] + seps[2..], words[1..])
  {
    var seps' := [if seps[1] == "" then "" else seps[1][1..]] + seps[2..];
    var more := Spaced(seps[1..], words[1..]);
    assert Separators(seps[1]);
    assert seps'[1..] == seps[1..][1..];
    if words[1..] == [] {
      assert more == seps[1];
    } else {
      assert seps[1] != "";
      assert more == seps[1] + words[1..][0] + Spaced(seps[1..][1..], words[1..][1..]);
      assert more[1..] == seps[1][1..] + words[1..][0] + Spaced(seps[1..][1..], words[1..][1..]);
    }
  }

  // ---------- the attributes ----------

  /** `v` is `raw` without one quote at each end, where there is one. */
  predicate Unquoted(raw: string, v: string) {
    || (raw == "\"" + v + "\"")
    || (raw == "\"" + v && (v == "" || v[|v| - 1] != '"'))
    || (raw == v + "\"" && (v == "" || v[0] != '"'))
    || (raw == v && (v == "" || (v[0] != '"' && v[|v| - 1] != '"')))
  }

  lemma UnquotedIs(raw: string, v: string)
    requires Unquoted(raw, v)
    ensures StripQuotes(raw) == v
  {
    if raw == "\"" + v + "\"" {
      assert raw[1..] == v + "\"";
    } else if raw == "\"" + v {
      assert raw[1..] == v;
    }
  }

  /** What the words give an attribute: the last word that starts with its key counts. */
  ghost predicate Gives(words: seq<string>, key: string, v: Option<string>) {
    match v
    case None => forall i :: 0 <= i < |words| ==> !(key <= words[i])
    case Some(v) =>
      exists i :: 0 <= i < |words| && key <= words[i] && Unquoted(words[i][|key|..], v) &&
                  forall j :: i < j < |words| ==> !(key <= words[j])
  }

  lemma {:induction false} SetFieldsSnoc(f: Fields, words: seq<string>)
    requires words != []
    ensures SetFields(f, words) == SetField(SetFields(f, words[..|words| - 1]), words[|words| - 1])
    decreases words
  {
    hide SetField;
    if |words| == 1 {
      assert words[..0] == [] && words[1..] == [];
    } else {
      SetFieldsSnoc(SetField(f, words[0]), words[1..]);
      assert words[1..][..|words[1..]| - 1] == words[..|words| - 1][1..];
    }
  }

  /** One more word sets the field of its key and leaves the others. */
  lemma SetsOne(f: Fields, w: string)
    ensures var g := SetField(f, w);
            && g.name == (if "name=" <= w then Some(StripQuotes(w[5..])) else f.name)
            && g.rtype == (if "type=" <= w then Some(StripQuotes(w[5..])) else f.rtype)
            && g.ctype == (if "contentType=" <= w then Some(StripQuotes(w[12..])) else f.ctype)
  {
    hide StripQuotes;
    assert "name="[0] == 'n' && "type="[0] == 't' && "contentType="[0] == 'c';
  }

  lemma GivesFront(words: seq<string>, key: string, v: Option<string>)
    requires words != [] && Gives(words, key, v)
    ensures var last := words[|words| - 1];
            if key <= last then v.Some? && Unquoted(last[|key|..], v.value)
            else Gives(words[..|words| - 1], key, v)
  {
    hide Unquoted;
    var front, last := words[..|words| - 1], words[|words| - 1];
    match v {
      case None =>
        assert forall i :: 0 <= i < |front| ==> front[i] == words[i];
      case Some(x) =>
        var i :| 0 <= i < |words| && key <= words[i] && Unquoted(words[i][|key|..], x) &&
                 forall j :: i < j < |words| ==> !(key <= words[j]);
        if key <= last {
          assert i == |words| - 1;
        } else {
          assert front[i] == words[i];
        }
    }
  }

  /** The field that a key sets. */
  function FieldOf(f: Fields, key: string): Option<string> {
    if key == "name=" then f.name else if key == "type=" then f.rtype else f.ctype
  }

  predicate IsKey(key: string) {
    key == "name=" || key == "type=" || key == "contentType="
  }

  lemma SetsItsKey(f: Fields, w: string, key: string)
    requires IsKey(key)
    ensures FieldOf(SetField(f, w), key) == if key <= w then Some(StripQuotes(w[|key|..])) else FieldOf(f, key)
  {
    SetsOne(f, w);
    hide StripQuotes, SetField;
  }

  lemma {:induction false} FieldIs(words: seq<string>, key: string, v: Option<string>)
    requires IsKey(key) && Gives(words, key, v)
    ensures FieldOf(SetFields(NO_FIELDS, words), key) == v
    decreases words
  {
    hide StripQuotes, SetField, Unquoted;
    if words == [] {
    } else {
      var front, last := words[..|words| - 1], words[|words| - 1];
      GivesFront(words, key, v);
      SetFieldsSnoc(NO_FIELDS, words);
      SetsItsKey(SetFields(NO_FIELDS, front), last, key);
      hide FieldOf, SetFields, Gives, IsKey;
      if key <= last {
        UnquotedIs(last[|key|..], v.value);
      } else {
        FieldIs(front, key, v);
      }
    }
  }

  // ---------- lines ----------

  /** The first opening tag of the line is there. */
  ghost predicate OpensAt(line: string, k: nat) {
    At(line, k, "<Record") && forall j :: 0 <= j < k ==> !At(line, j, "<Record")
  }

  lemma OpenedLine(line: string, head: string, t: string)
    requires line == head + "<Record" + t && OpensAt(line, |head|)
    ensures ParseLine(line) == ParseTag(t)
  {
    FindSubIs(line, "<Record", |head|);
    assert line[|head| + 7..] == t;
    hide ParseTag, FindSub;
  }

  /** A line without an opening tag is rejected. */
  lemma NoOpeningTag(line: string)
    requires forall k :: !At(line, k, "<Record")
    ensures ParseLine(line) == None
  {
    hide ParseTag;
  }

  /** So is one whose tag does not end. */
  lemma UnendedTag(line: string, head: string, tag: string)
    requires line == head + "<Record" + tag && OpensAt(line, |head|) && '>' !in tag
    ensures ParseLine(line) == None
  {
    OpenedLine(line, head, tag);
    hide ParseBody, ParseLine;
  }

  /** So is one without a closing tag, unless its tag ends in '/'. */
  lemma NoClosingTag(line: string, head: string, tag: string, text: string)
    requires line == head + "<Record" + (tag + ">" + text) && OpensAt(line, |head|) && '>' !in tag
    requires (tag != "" ==> tag[|tag| - 1] != '/') && forall k :: !At(text, k, "</Record>")
    ensures ParseLine(line) == None
  {
    OpenedLine(line, head, tag + ">" + text);
    ParseTagSplits(tag, text);
    hide ParseLine, ParseTag, Create, SetFields, Tokens;
  }

  /** The record of a tag: it needs a name and a type that are not empty. */
  function Built(n: Option<string>, t: Option<string>, c: Option<string>, value: Option<string>): Option<Rec> {
    match (n, t)
    case (Some(n), Some(t)) => if |n| > 0 && |t| > 0 then Some(Rec(n, t, c, value)) else None
    case _ => None
  }

  lemma BuiltFrom(seps: seq<string>, words: seq<string>,
                  n: Option<string>, t: Option<string>, c: Option<string>, value: Option<string>)
    requires Apart(seps, words)
    requires Gives(words, "name=", n) && Gives(words, "type=", t) && Gives(words, "contentType=", c)
    ensures Create(SetFields(NO_FIELDS, Tokens(Spaced(seps, words))), value) == Built(n, t, c, value)
  {
    hide Apart, Gives, Spaced, Tokens, SetFields;
    WordsAreTokens(seps, words);
    FieldIs(words, "name=", n);
    FieldIs(words, "type=", t);
    FieldIs(words, "contentType=", c);
    assert SetFields(NO_FIELDS, words) == Fields(n, t, c);
  }

  /** A tag with a closing tag behind it: the value is all that stands between them. */
  lemma ValueLine(line: string, head: string, seps: seq<string>, words: seq<string>, value: string, tail: string,
                  n: Option<string>, t: Option<string>, c: Option<string>)
    requires Apart(seps, words) && '>' !in Spaced(seps, words)
    requires var tag := Spaced(seps, words);
             line == head + "<Record" + (tag + ">" + (value + "</Record>" + tail)) && OpensAt(line, |head|)
    requires var tag := Spaced(seps, words); tag != "" ==> tag[|tag| - 1] != '/'
    requires forall k :: !At(value, k, "</Record>")
    requires Gives(words, "name=", n) && Gives(words, "type=", t) && Gives(words, "contentType=", c)
    ensures ParseLine(line) == Built(n, t, c, Some(value))
  {
    var tag, text := Spaced(seps, words), value + "</Record>" + tail;
    hide Apart, Gives, Spaced, ParseLine, ParseTag, OpensAt, Built, Create, SetFields, Tokens;
    OpenedLine(line, head, tag + ">" + text);
    ParseTagSplits(tag, text);
    CloseTagAtEndOfValue(value, tail);
    assert text[..|value|] == value;
    BuiltFrom(seps, words, n, t, c, Some(value));
  }

  /** A tag that ends in '/' has a NULL value, whatever follows. */
  lemma ClosedLine(line: string, head: string, seps: seq<string>, words: seq<string>, text: string,
                   n: Option<string>, t: Option<string>, c: Option<string>)
    requires Apart(seps, words) && '>' !in Spaced(seps, words)
    requires line == head + "<Record" + (Spaced(seps, words) + "/" + ">" + text) && OpensAt(line, |head|)
    requires Gives(words, "name=", n) && Gives(words, "type=", t) && Gives(words, "contentType=", c)
    ensures ParseLine(line) == Built(n, t, c, None)
  {
    var tag := Spaced(seps, words);
    hide Apart, Gives, Spaced, ParseLine, ParseTag, OpensAt, Built, Create, SetFields, Tokens;
    OpenedLine(line, head, tag + "/" + ">" + text);
    ParseTagSplits(tag + "/", text);
    assert (tag + "/")[..|tag|] == tag;
    BuiltFrom(seps, words, n, t, c, None);
  }

  // ---------- the printed line ----------

  /** The printed line, spelt out; a NULL content type is left out and a NULL value is empty. */
  lemma PrintedText(n: string, t: string, c: Option<string>, v: Option<string>)
    ensures PrintRec(Rec(n, t, c, v)) ==
            "  <Record" + (" name=\"" + n + "\"") + (" type=\"" + t + "\"")
            + (if c.None? then "" else " contentType=\"" + c.value + "\"")
            + ">" + (if v.None? then "" else v.value) + "</Record>" + "\n"
  {
    var ct := if c.None? then "" else " contentType=\"" + c.value + "\"";
    PrintedParts(Rec(n, t, c, v));
    PrintedAttr(n, t);
    if c.Some? {
      PrintedCtype(c.value);
    }
    hide PrintRec, PrintCtype, Attr;
    Regroup("  <Record", " name=\"" + n + "\"", " type=\"" + t + "\"", ct, ">");
  }

  lemma PrintedParts(r: Rec)
    ensures PrintRec(r) ==
            "  <Record" + (" " + Attr("name=", r.name) + " " + Attr("type=", r.rtype) + PrintCtype(r.ctype))
            + ">" + ValueText(r) + "</Record>" + "\n"
  {
    assert "  " + OPEN_TAG == "  <Record" && CLOSE_TAG == "</Record>";
    hide OPEN_TAG, CLOSE_TAG, Attr, PrintCtype, ValueText;
  }

  lemma PrintedAttr(n: string, t: string)
    ensures " " + Attr("name=", n) + " " + Attr("type=", t) == " name=\"" + n + "\"" + (" type=\"" + t + "\"")
  {
    assert " " + Attr("name=", n) == " name=\"" + n + "\"";
    assert " " + Attr("type=", t) == " type=\"" + t + "\"";
    hide Attr;
    Associate(" " + Attr("name=", n), " ", Attr("type=", t));
  }

  lemma PrintedCtype(c: string)
    ensures PrintCtype(Some(c)) == " contentType=\"" + c + "\""
  {
  }

  lemma Associate(a: string, b: string, c: string)
    ensures a + b + c == a + (b + c)
  {
  }

  lemma Regroup(h: string, n: string, t: string, c: string, g: string)
    ensures h + (n + t + c) + g == h + n + t + c + g
  {
  }
}
