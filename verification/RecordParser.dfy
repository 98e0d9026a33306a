/**
 `record_parse` as the source runs it (source/Ssp/ssp_cfmif.c): NULs are
 written over the separators of the line buffer, and the pieces of the record
 are pointers into that buffer until `record_create` copies them.
 */
module RecordParser {
  import opened CStrings
  import opened RecordText

  /** The pointers `record_parse` fills in; None is NULL. */
  datatype Pointers = Pointers(name: Option<nat>, rtype: Option<nat>, ctype: Option<nat>)

  /** Pointer `p` is the C string `v`, which ends at or before `lim`. */
  ghost predicate Holds(b: seq<char>, p: Option<nat>, lim: nat, v: Option<string>) {
    && p.Some? == v.Some?
    && (p.Some? ==>
          && p.value + |v.value| <= lim < |b|
          && (forall i :: 0 <= i < |v.value| ==> b[p.value + i] == v.value[i] && v.value[i] != NUL)
          && b[p.value + |v.value|] == NUL)
  }

  ghost predicate HoldsFields(b: seq<char>, ps: Pointers, lim: nat, f: Fields) {
    Holds(b, ps.name, lim, f.name) && Holds(b, ps.rtype, lim, f.rtype) && Holds(b, ps.ctype, lim, f.ctype)
  }

  lemma SameAsItself(b: seq<char>, p: nat, e: nat)
    requires p <= e <= |b|
    ensures SameOutside(b, b, p, e)
  {
  }

  lemma HoldsCStr(b: seq<char>, p: nat, lim: nat, v: string)
    requires Holds(b, Some(p), lim, Some(v))
    ensures CStr(b, p) == v
  {
    assert forall i :: p <= i < p + |v| ==> b[i] == v[i - p];
    StrEndIs(b, p, p + |v|);
  }

  /** What was found before `p` is still there after changes from `p` on, if `p` was not its end. */
  lemma HoldsKept(b: seq<char>, b': seq<char>, p: Option<nat>, lim: nat, e: nat, lim': nat, v: Option<string>)
    requires Holds(b, p, lim, v) && SameOutside(b, b', lim, e) && lim <= lim' < |b|
    requires lim < e ==> b[lim] != NUL
    ensures Holds(b', p, lim', v)
  {
  }

  lemma HoldsFieldsKept(b: seq<char>, b': seq<char>, ps: Pointers, lim: nat, e: nat, lim': nat, f: Fields)
    requires HoldsFields(b, ps, lim, f) && SameOutside(b, b', lim, e) && lim <= lim' < |b|
    requires lim < e ==> b[lim] != NUL
    ensures HoldsFields(b', ps, lim', f)
  {
    HoldsKept(b, b', ps.name, lim, e, lim', f.name);
    HoldsKept(b, b', ps.rtype, lim, e, lim', f.rtype);
    HoldsKept(b, b', ps.ctype, lim, e, lim', f.ctype);
  }

  // ---------- quotes ----------

  lemma ClosingQuoteCut(b: seq<char>, b': seq<char>, q: nat, e: nat)
    requires q <= e < |b| && b[e] == NUL && forall i :: q <= i < e ==> b[i] != NUL
    requires b' == if q < e && b[e - 1] == '"' then b[e - 1 := NUL] else b
    ensures Holds(b', Some(q), e, Some(DropClosingQuote(b[q..e])))
  {
    var v := DropClosingQuote(b[q..e]);
    assert v == b[q..q + |v|] && q + |v| <= e;
    assert b'[q..q + |v|] == v && b'[q + |v|] == NUL;
  }

  lemma QuotesStripped(b: seq<char>, b': seq<char>, p: nat, q: nat, e: nat)
    requires p <= e < |b| && e == StrEnd(b, p)
    requires q == if p < e && b[p] == '"' then p + 1 else p
    requires b' == if q < e && b[e - 1] == '"' then b[e - 1 := NUL] else b
    ensures Holds(b', Some(q), e, Some(StripQuotes(b[p..e]))) && SameOutside(b, b', p, e)
  {
    assert DropOpeningQuote(b[p..e]) == b[q..e];
    ClosingQuoteCut(b, b', q, e);
  }

  method RemoveQuotes(buf: array<char>, p: nat, ghost e: nat) returns (q: nat)
    requires p <= e < buf.Length && e == StrEnd(buf[..], p)
    modifies buf
    ensures Holds(buf[..], Some(q), e, Some(StripQuotes(old(buf[..])[p..e])))
    ensures SameOutside(old(buf[..]), buf[..], p, e)
  {
    ghost var b := buf[..];
    var len := StrEnd(buf[..], p) - p;
    q := p;
    if len > 0 && buf[q] == '"' {
      q := q + 1;
      len := len - 1;
    }
    if len > 0 && buf[q + len - 1] == '"' {
      buf[q + len - 1] := NUL;
    }
    QuotesStripped(b, buf[..], p, q, e);
  }

  // ---------- tokens ----------

  /**
   One `strtok_r` call on the string from `p` to its NUL at `e`: the buffer goes from
   `b` to `b'`, the token's `n` characters at `tok` end in a NUL, the next call starts at `next`.
   */
  ghost predicate Tokenised(b: seq<char>, b': seq<char>, p: nat, e: nat, tok: nat, n: nat, next: nat) {
    && p <= e < |b| && e == StrEnd(b, p)
    && tok == p + SkipDelims(b[p..e]) < e
    && n == TokenLength(b[tok..e])
    && b' == (if tok + n < e then b[tok + n := NUL] else b)
    && next == (if tok + n < e then tok + n + 1 else e)
  }

  method StrTok(buf: array<char>, p: nat, ghost e: nat) returns (tok: Option<nat>, n: nat, next: nat)
    requires p <= e < buf.Length && e == StrEnd(buf[..], p)
    modifies buf
    ensures tok.None? ==> SkipDelims(buf[..][p..e]) == e - p && buf[..] == old(buf[..])
    ensures tok.Some? ==> Tokenised(old(buf[..]), buf[..], p, e, tok.value, n, next)
  {
    ghost var b := buf[..];
    var skip := SkipDelims(CStr(buf[..], p));
    assert CStr(b, p) == b[p..e];
    tok, n, next := None, 0, p + skip;
    if buf[next] == NUL {
      assert next == e;
      return;
    }
    StrEndIs(b, next, e);
    assert CStr(b, next) == b[next..e];
    hide StrEnd, SkipDelims, TokenLength, CStr;
    var len := TokenLength(CStr(buf[..], next));
    tok, n, next := Some(next), len, next + len;
    if buf[next] != NUL {
      buf[next] := NUL;
      next := next + 1;
    }
  }

  /** A token ends in its own NUL, and what was found before it is untouched. */
  lemma TokenFound(b: seq<char>, b1: seq<char>, p: nat, e: nat, tok: nat, n: nat, next: nat, ps: Pointers, f: Fields)
    requires Tokenised(b, b1, p, e, tok, n, next) && HoldsFields(b, ps, p, f)
    ensures p <= tok < tok + n <= next <= e && SameOutside(b, b1, p, e) && SameOutside(b, b1, tok + n, e)
    ensures StrEnd(b1, tok) == tok + n && b1[tok..tok + n] == b[tok..tok + n]
    ensures HoldsFields(b1, ps, tok, f)
  {
    assert !IsDelim(b[p..e][tok - p]) && b[p..e][tok - p] == b[tok..e][0];
    hide SkipDelims, TokenLength, StrEnd, Holds;
    StrEndIs(b1, tok, tok + n);
    HoldsFieldsKept(b, b, ps, p, p, p, f);
    HoldsFieldsLater(b, b1, ps, p, tok + n, e, tok, f);
  }

  lemma HoldsFieldsLater(b: seq<char>, b': seq<char>, ps: Pointers, lim: nat, from: nat, e: nat, lim': nat, f: Fields)
    requires HoldsFields(b, ps, lim, f) && SameOutside(b, b', from, e) && lim < from && lim <= lim' < |b|
    ensures HoldsFields(b', ps, lim', f)
  {
  }

  /** After a token has been used, the scan stands at `next` with the same tokens ahead. */
  lemma TokenUsed(b: seq<char>, b1: seq<char>, b2: seq<char>, p: nat, e: nat, tok: nat, n: nat, next: nat)
    requires Tokenised(b, b1, p, e, tok, n, next) && SameOutside(b1, b2, tok, tok + n) && tok + n <= e
    ensures next <= e < |b2| && StrEnd(b2, next) == e && SameOutside(b, b2, p, e)
    ensures Tokens(b[p..e]) == [b[tok..tok + n]] + Tokens(b2[next..e])
  {
    hide SkipDelims, TokenLength, StrEnd, Tokens;
    RestKept(b, b1, b2, p, e, tok, n, next);
    StrEndIs(b2, next, e);
    TokensAhead(b, p, e, tok, n, next);
  }

  lemma RestKept(b: seq<char>, b1: seq<char>, b2: seq<char>, p: nat, e: nat, tok: nat, n: nat, next: nat)
    requires p <= tok <= tok + n <= e < |b| && b1 == (if tok + n < e then b[tok + n := NUL] else b)
    requires next == (if tok + n < e then tok + n + 1 else e) && SameOutside(b1, b2, tok, tok + n)
    ensures SameOutside(b, b2, p, e) && b2[next..e] == b[next..e] && b2[e] == b[e]
    ensures forall i :: next <= i < e ==> b2[i] == b[i]
  {
    assert forall i :: next <= i < |b| ==> b2[i] == b1[i] == b[i];
  }

  lemma TokensAhead(b: seq<char>, p: nat, e: nat, tok: nat, n: nat, next: nat)
    requires p <= e < |b| && tok == p + SkipDelims(b[p..e]) < e && n == TokenLength(b[tok..e])
    requires next == if tok + n < e then tok + n + 1 else e
    ensures Tokens(b[p..e]) == [b[tok..tok + n]] + Tokens(b[next..e])
  {
    hide SkipDelims, TokenLength, Tokens, AfterToken;
    SliceOfSlice(b, p, e, tok, n);
    NextToken(b[p..e], tok - p, n);
  }

  lemma SliceOfSlice(b: seq<char>, p: nat, e: nat, tok: nat, n: nat)
    requires p <= tok && tok + n <= e <= |b|
    ensures b[p..e][tok - p..] == b[tok..e] && b[tok..e][..n] == b[tok..tok + n]
    ensures tok + n < e ==> b[p..e][tok - p + n + 1..] == b[tok + n + 1..e]
  {
  }

  lemma NextToken(s: string, k: nat, n: nat)
    requires k == SkipDelims(s) < |s| && n == TokenLength(s[k..])
    ensures Tokens(s) == [s[k..][..n]] + Tokens(if k + n < |s| then s[k + n + 1..] else "")
  {
    TokensUnfold(s);
    FirstAndRest(s, k, n);
    hide *;
  }

  lemma FirstAndRest(s: string, k: nat, n: nat)
    requires k == SkipDelims(s) < |s| && n == TokenLength(s[k..])
    ensures FirstToken(s) == s[k..][..n]
    ensures AfterToken(s) == if k + n < |s| then s[k + n + 1..] else ""
  {
    hide SkipDelims, TokenLength;
  }

  lemma TokensUnfold(s: string)
    requires SkipDelims(s) < |s|
    ensures Tokens(s) == [FirstToken(s)] + Tokens(AfterToken(s))
  {
    hide SkipDelims, FirstToken, AfterToken;
  }

  lemma NoTokens(f: Fields, s: string)
    requires SkipDelims(s) == |s|
    ensures SetFields(f, Tokens(s)) == f
  {
  }

  // ---------- attributes ----------

  lemma KeyDropped(b: seq<char>, p: nat, k: nat, e: nat)
    requires p + k <= e <= |b| && e == StrEnd(b, p)
    ensures StrEnd(b, p + k) == e && b[p + k..e] == b[p..e][k..]
  {
    StrEndIs(b, p + k, e);
  }

  /** The pointers after the token `w`, whose value (if it is one of the three) is at `q`. */
  function PointTo(ps: Pointers, kind: AttrKind, q: nat): Pointers {
    match kind
    case NameAttr => ps.(name := Some(q))
    case TypeAttr => ps.(rtype := Some(q))
    case CtypeAttr => ps.(ctype := Some(q))
    case OtherAttr => ps
  }

  lemma FieldTaken(b: seq<char>, ps: Pointers, e: nat, f: Fields, w: string, q: nat)
    requires HoldsFields(b, ps, e, f)
    requires AttrOf(w).0 == OtherAttr || Holds(b, Some(q), e, Some(StripQuotes(w[AttrOf(w).1..])))
    ensures HoldsFields(b, PointTo(ps, AttrOf(w).0, q), e, SetField(f, w))
  {
    hide Holds, AttrOf, StripQuotes;
  }

  /** The body of the scanning loop: the token from `p` to its NUL at `e` may set one of the pointers. */
  method TakeToken(buf: array<char>, p: nat, ghost e: nat, ps0: Pointers, ghost f: Fields) returns (ps: Pointers)
    requires p < e < buf.Length && e == StrEnd(buf[..], p)
    requires HoldsFields(buf[..], ps0, p, f)
    modifies buf
    ensures HoldsFields(buf[..], ps, e, SetField(f, old(buf[..])[p..e]))
    ensures SameOutside(old(buf[..]), buf[..], p, e)
  {
    hide *;
    ghost var b := buf[..];
    TokenText(b, p, e);
    SameAsItself(b, p, e);
    var (kind, key) := AttrOf(CStr(buf[..], p));
    KeyDropped(b, p, key, e);
    var q := p + key;
    if kind != OtherAttr {
      q := RemoveQuotes(buf, q, e);
      SameOutsideWider(b, buf[..], p, p + key, e);
    }
    HoldsFieldsKept(b, buf[..], ps0, p, e, e, f);
    FieldTaken(buf[..], ps0, e, f, b[p..e], q);
    ps := PointTo(ps0, kind, q);
  }

  lemma TokenText(b: seq<char>, p: nat, e: nat)
    requires p < e < |b| && e == StrEnd(b, p)
    ensures CStr(b, p) == b[p..e] && b[p] != NUL && |b[p..e]| == e - p
  {
  }

  lemma SameOutsideWider(b: seq<char>, b': seq<char>, p: nat, p': nat, e: nat)
    requires SameOutside(b, b', p', e) && p <= p'
    ensures SameOutside(b, b', p, e)
  {
  }

  lemma ScanStep(b: seq<char>, b1: seq<char>, b2: seq<char>, p: nat, e: nat, tok: nat, n: nat, next: nat,
                 f: Fields, ps: Pointers)
    requires Tokenised(b, b1, p, e, tok, n, next) && SameOutside(b1, b2, tok, tok + n)
    requires p <= tok < tok + n <= next <= e < |b|
    requires b1[tok..tok + n] == b[tok..tok + n]
    requires HoldsFields(b2, ps, tok + n, SetField(f, b1[tok..tok + n]))
    ensures next <= e < |b2| && StrEnd(b2, next) == e && SameOutside(b, b2, p, e)
    ensures HoldsFields(b2, ps, next, SetField(f, b[tok..tok + n]))
    ensures SetFields(f, Tokens(b[p..e])) == SetFields(SetField(f, b[tok..tok + n]), Tokens(b2[next..e]))
  {
    hide *;
    TokenUsed(b, b1, b2, p, e, tok, n, next);
    SetFieldsOne(f, b[tok..tok + n], Tokens(b2[next..e]));
    HoldsFieldsWider(b2, ps, tok + n, next, SetField(f, b[tok..tok + n]));
  }

  lemma HoldsFieldsWider(b: seq<char>, ps: Pointers, lim: nat, lim': nat, f: Fields)
    requires HoldsFields(b, ps, lim, f) && lim <= lim' < |b|
    ensures HoldsFields(b, ps, lim', f)
  {
  }

  /** One round of the scanning loop, from `p`; `more` is false when no token was left. */
  method ScanOne(buf: array<char>, p: nat, ghost e: nat, ps0: Pointers, ghost f: Fields)
      returns (more: bool, next: nat, ps: Pointers, ghost f': Fields)
    requires p <= e < buf.Length && e == StrEnd(buf[..], p) && HoldsFields(buf[..], ps0, p, f)
    modifies buf
    ensures p <= next <= e && (more ==> p < next) && StrEnd(buf[..], next) == e
    ensures HoldsFields(buf[..], ps, next, f')
    ensures SetFields(f', Tokens(buf[..][next..e])) == SetFields(f, Tokens(old(buf[..])[p..e]))
    ensures !more ==> SetFields(f', Tokens(buf[..][next..e])) == f'
    ensures SameOutside(old(buf[..]), buf[..], p, e)
  {
    hide *;
    ghost var b := buf[..];
    SameAsItself(b, p, e);
    var tok, n, after := StrTok(buf, p, e);
    if tok.None? {
      NoTokens(f, b[p..e]);
      return false, p, ps0, f;
    }
    ghost var b1 := buf[..];
    TokenFound(b, b1, p, e, tok.value, n, after, ps0, f);
    ps := TakeToken(buf, tok.value, tok.value + n, ps0, f);
    more, next, f' := true, after, SetField(f, b[tok.value..tok.value + n]);
    ScanStep(b, b1, buf[..], p, e, tok.value, n, after, f, ps);
  }

  /** The `strtok_r` loop over a tag's attributes, between `t` and its NUL at `e`. */
  method ScanAttributes(buf: array<char>, t: nat, ghost e: nat) returns (ps: Pointers)
    requires t <= e < buf.Length && e == StrEnd(buf[..], t)
    modifies buf
    ensures HoldsFields(buf[..], ps, e, SetFields(NO_FIELDS, Tokens(old(buf[..])[t..e])))
    ensures SameOutside(old(buf[..]), buf[..], t, e)
  {
    ps := Pointers(None, None, None);
    ghost var b0, f := buf[..], NO_FIELDS;
    var next, more := t, true;
    hide StrEnd, Tokens, SetFields, Holds;
    while more
      invariant t <= next <= e && StrEnd(buf[..], next) == e
      invariant HoldsFields(buf[..], ps, next, f)
      invariant SetFields(f, Tokens(buf[..][next..e])) == SetFields(NO_FIELDS, Tokens(b0[t..e]))
      invariant !more ==> SetFields(f, Tokens(buf[..][next..e])) == f
      invariant SameOutside(b0, buf[..], t, e)
      decreases e - next, more
    {
      more, next, ps, f := ScanOne(buf, next, e, ps, f);
    }
    HoldsFieldsWider(buf[..], ps, next, e, f);
  }

  // ---------- the whole line ----------

  /** `record_create` copies the strings that the pointers stand for. */
  method CopyRecord(buf: array<char>, ps: Pointers, value: Option<nat>,
                    ghost e: nat, ghost f: Fields, ghost v: Option<string>)
      returns (r: Option<Rec>)
    requires HoldsFields(buf[..], ps, e, f)
    requires value.Some? == v.Some?
    requires value.Some? ==> value.value <= buf.Length && CStr(buf[..], value.value) == v.value
    ensures r == Create(f, v)
  {
    if ps.name.None? || ps.rtype.None? {
      return None;
    }
    HoldsCStr(buf[..], ps.name.value, e, f.name.value);
    HoldsCStr(buf[..], ps.rtype.value, e, f.rtype.value);
    if ps.ctype.Some? {
      HoldsCStr(buf[..], ps.ctype.value, e, f.ctype.value);
    }
    hide StrEnd, CStr;
    if |CStr(buf[..], ps.name.value)| == 0 || |CStr(buf[..], ps.rtype.value)| == 0 {
      return None;
    }
    r := Some(Rec(CStr(buf[..], ps.name.value), CStr(buf[..], ps.rtype.value),
                  if ps.ctype.None? then None else Some(CStr(buf[..], ps.ctype.value)),
                  if value.None? then None else Some(CStr(buf[..], value.value))));
  }

  /** The string from an index inside a C string is its suffix. */
  lemma SuffixInBuffer(b: seq<char>, p: nat, k: nat)
    requires p <= |b| && p + k <= StrEnd(b, p)
    ensures StrEnd(b, p + k) == StrEnd(b, p)
    ensures CStr(b, p)[k..] == CStr(b, p + k)
  {
    StrEndIs(b, p + k, StrEnd(b, p));
  }

  /** Writing the NUL at `e` ends the string that runs from `p` past `e`. */
  lemma CutAt(b: seq<char>, b': seq<char>, p: nat, e: nat)
    requires p <= e < |b| && e <= StrEnd(b, p) && b' == b[e := NUL]
    ensures StrEnd(b', p) == e && CStr(b', p) == CStr(b, p)[..e - p]
  {
    StrEndIs(b', p, e);
  }

  lemma CStrKept(b: seq<char>, b': seq<char>, t: nat, e: nat, p: nat)
    requires SameOutside(b, b', t, e) && e <= p <= |b|
    ensures StrEnd(b', p) == StrEnd(b, p) && CStr(b', p) == CStr(b, p)
  {
    StrEndIs(b', p, StrEnd(b, p));
  }

  lemma ParseLineAt(s: string, k: nat, g: nat)
    requires FindSub(s, OPEN_TAG) == Some(k) && FindChar(s[k + |OPEN_TAG|..], '>') == Some(g)
    ensures var t := s[k + |OPEN_TAG|..]; ParseLine(s) == ParseBody(t[..g], t[g + 1..])
  {
  }

  lemma TagAt(b: seq<char>, t: nat, g: nat)
    requires t <= |b| && t + g < StrEnd(b, t)
    ensures t + g < |b| && CStr(b, t)[..g] == b[t..t + g] && CStr(b, t)[g + 1..] == CStr(b, t + g + 1)
  {
    SuffixInBuffer(b, t, g + 1);
  }

  lemma NoOpenTag(s: string)
    requires FindSub(s, OPEN_TAG).None?
    ensures ParseLine(s).None?
  {
  }

  lemma NoTagEnd(b: seq<char>, k: nat, t: nat)
    requires FindSub(CStr(b, 0), OPEN_TAG) == Some(k) && t == k + |OPEN_TAG| <= StrEnd(b, 0)
    requires FindChar(CStr(b, t), '>').None?
    ensures ParseLine(CStr(b, 0)).None?
  {
    hide *;
    SuffixInBuffer(b, 0, t);
    NoTagEndIn(CStr(b, 0), k);
  }

  lemma NoTagEndIn(s: string, k: nat)
    requires FindSub(s, OPEN_TAG) == Some(k) && FindChar(s[k + |OPEN_TAG|..], '>').None?
    ensures ParseLine(s).None?
  {
    hide FindSub, FindChar, OPEN_TAG;
  }

  /** The opening tag ends in 'd', so a '/' just before the '>' is inside the tag's text. */
  lemma OpenTagInBuffer(b: seq<char>, k: nat)
    requires FindSub(CStr(b, 0), OPEN_TAG) == Some(k)
    ensures 0 < |OPEN_TAG| && k + |OPEN_TAG| <= StrEnd(b, 0) && k + |OPEN_TAG| <= |CStr(b, 0)|
    ensures b[k + |OPEN_TAG| - 1] == 'd'
  {
    assert At(CStr(b, 0), k, OPEN_TAG);
    hide FindSub, StrEnd;
    assert CStr(b, 0)[k..k + |OPEN_TAG|][6] == b[k + 6];
  }

  lemma TagInBuffer(b: seq<char>, k: nat, t: nat, g: nat)
    requires FindSub(CStr(b, 0), OPEN_TAG) == Some(k) && t == k + |OPEN_TAG| <= StrEnd(b, 0)
    requires b[t - 1] == 'd' && FindChar(CStr(b, t), '>') == Some(g)
    ensures 0 < t && t + g < StrEnd(b, t) && (b[t + g - 1] == '/' ==> g > 0)
    ensures ParseLine(CStr(b, 0)) == ParseBody(b[t..t + g], CStr(b, t + g + 1))
  {
    SuffixInBuffer(b, 0, t);
    hide StrEnd, FindSub, FindChar, ParseLine, ParseBody;
    ParseLineAt(CStr(b, 0), k, g);
    TagAt(b, t, g);
  }

  /** `record_parse`: the line in the buffer yields the record its text means. */
  method RecordParse(buf: array<char>) returns (r: Option<Rec>)
    requires StrEnd(buf[..], 0) < buf.Length
    modifies buf
    ensures r == ParseLine(CStr(old(buf[..]), 0))
  {
    hide *;
    var found := FindSub(CStr(buf[..], 0), OPEN_TAG);
    if found.None? {
      NoOpenTag(CStr(buf[..], 0));
      return None;
    }
    OpenTagInBuffer(buf[..], found.value);
    assert found.value + |OPEN_TAG| <= StrEnd(buf[..], 0);
    assert buf[..][found.value + |OPEN_TAG| - 1] == 'd';
    r := ParseTagText(buf, found.value, found.value + |OPEN_TAG|);
  }

  /** The opening tag was found at `k`; the tag's text starts at `t`. */
  method ParseTagText(buf: array<char>, ghost k: nat, t: nat) returns (r: Option<Rec>)
    requires StrEnd(buf[..], 0) < buf.Length
    requires FindSub(CStr(buf[..], 0), OPEN_TAG) == Some(k)
    requires t == k + |OPEN_TAG| <= StrEnd(buf[..], 0) && buf[..][t - 1] == 'd'
    modifies buf
    ensures r == ParseLine(CStr(old(buf[..]), 0))
  {
    hide *;
    ghost var b := buf[..];
    SuffixInBuffer(b, 0, t);
    var gt := FindChar(CStr(buf[..], t), '>');
    if gt.None? {
      NoTagEnd(b, k, t);
      return None;
    }
    TagInBuffer(b, k, t, gt.value);
    r := ParseFrom(buf, t, t + gt.value);
  }

  lemma ParseBodyCases(tag: string, text: string)
    ensures ParseBody(tag, text) ==
            if tag != "" && tag[|tag| - 1] == '/' then
              Create(SetFields(NO_FIELDS, Tokens(tag[..|tag| - 1])), None)
            else if FindSub(text, CLOSE_TAG).None? then None
            else Create(SetFields(NO_FIELDS, Tokens(tag)), Some(text[..FindSub(text, CLOSE_TAG).value]))
    ensures FindSub(text, CLOSE_TAG).Some? ==> FindSub(text, CLOSE_TAG).value < |text|
  {
  }

  /** The same from the tag's text at `t`, whose '>' is at `tEnd`. */
  method ParseFrom(buf: array<char>, t: nat, tEnd: nat) returns (r: Option<Rec>)
    requires 0 < t <= tEnd < buf.Length && tEnd < StrEnd(buf[..], t) < buf.Length
    requires buf[tEnd - 1] == '/' ==> t < tEnd
    modifies buf
    ensures r == ParseBody(old(buf[..])[t..tEnd], CStr(old(buf[..]), tEnd + 1))
  {
    ghost var b := buf[..];
    ParseBodyCases(b[t..tEnd], CStr(b, tEnd + 1));
    hide *;
    buf[tEnd] := NUL;
    if buf[tEnd - 1] == '/' {
      assert b[t..tEnd][tEnd - t - 1] == b[tEnd - 1];
      r := ParseClosed(buf, t, tEnd, b);
    } else {
      r := ParseWithValue(buf, t, tEnd, b);
      assert t < tEnd ==> b[t..tEnd][tEnd - t - 1] == b[tEnd - 1];
    }
  }

  lemma ClosedTagCut(b: seq<char>, b': seq<char>, t: nat, tEnd: nat)
    requires t < tEnd < |b| && tEnd <= StrEnd(b, t) && b' == b[tEnd := NUL][tEnd - 1 := NUL]
    ensures StrEnd(b', t) == tEnd - 1 && b'[t..tEnd - 1] == b[t..tEnd][..tEnd - 1 - t]
  {
    StrEndIs(b', t, tEnd - 1);
  }

  /** The tag has been cut at `tEnd` and ends in '/': the value is NULL. */
  method ParseClosed(buf: array<char>, t: nat, tEnd: nat, ghost b: seq<char>) returns (r: Option<Rec>)
    requires t < tEnd < |b| && tEnd < StrEnd(b, t) && buf[..] == b[tEnd := NUL]
    modifies buf
    ensures r == Create(SetFields(NO_FIELDS, Tokens(b[t..tEnd][..tEnd - t - 1])), None)
  {
    hide *;
    assert |b| == |buf[..]| == buf.Length;
    buf[tEnd - 1] := NUL;
    assert buf[..] == b[tEnd := NUL][tEnd - 1 := NUL];
    ClosedTagCut(b, buf[..], t, tEnd);
    ghost var f := SetFields(NO_FIELDS, Tokens(buf[..][t..tEnd - 1]));
    var ps := ScanAttributes(buf, t, tEnd - 1);
    r := CopyRecord(buf, ps, None, tEnd - 1, f, None);
  }

  lemma OpenTagCut(b: seq<char>, b1: seq<char>, b': seq<char>, t: nat, tEnd: nat, v: nat)
    requires t <= tEnd < |b| && tEnd < StrEnd(b, t) < |b| && b1 == b[tEnd := NUL]
    requires v < |CStr(b1, tEnd + 1)| && b' == b1[tEnd + 1 + v := NUL]
    ensures StrEnd(b', t) == tEnd && b'[t..tEnd] == b[t..tEnd]
    ensures CStr(b', tEnd + 1) == CStr(b1, tEnd + 1)[..v]
  {
    StrEndIs(b', t, tEnd);
    CutAt(b1, b', tEnd + 1, tEnd + 1 + v);
  }

  lemma CStrInBuffer(b: seq<char>, b1: seq<char>, e: nat)
    requires e < |b| && b1 == b[e := NUL]
    ensures CStr(b1, e + 1) == CStr(b, e + 1) && e + 1 + |CStr(b, e + 1)| <= |b|
  {
    CStrKept(b, b1, e, e + 1, e + 1);
  }

  /** The tag has been cut at `tEnd`; its value starts after that and needs its closing tag. */
  method ParseWithValue(buf: array<char>, t: nat, tEnd: nat, ghost b: seq<char>) returns (r: Option<Rec>)
    requires t <= tEnd < |b| && tEnd < StrEnd(b, t) < |b| && buf[..] == b[tEnd := NUL]
    modifies buf
    ensures var found := FindSub(CStr(b, tEnd + 1), CLOSE_TAG);
            r == if found.None? then None
                 else Create(SetFields(NO_FIELDS, Tokens(b[t..tEnd])), Some(CStr(b, tEnd + 1)[..found.value]))
  {
    ghost var b1 := buf[..];
    assert |b1| == buf.Length;
    CStrInBuffer(b, b1, tEnd);
    ParseBodyCases("", CStr(b, tEnd + 1));
    hide *;
    var found := FindSub(CStr(buf[..], tEnd + 1), CLOSE_TAG);
    if found.None? {
      return None;
    }
    buf[tEnd + 1 + found.value] := NUL;
    ghost var b2 := buf[..];
    assert b2 == b1[tEnd + 1 + found.value := NUL];
    OpenTagCut(b, b1, b2, t, tEnd, found.value);
    ghost var f := SetFields(NO_FIELDS, Tokens(b2[t..tEnd]));
    var ps := ScanAttributes(buf, t, tEnd);
    CStrKept(b2, buf[..], t, tEnd, tEnd + 1);
    r := CopyRecord(buf, ps, Some(tEnd + 1), tEnd, f, Some(CStr(b2, tEnd + 1)));
  }
}
