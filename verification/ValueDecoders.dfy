/**
 The decoders of source/PsmFileLoader/psm_flo_parse.c as they run: separators of
 the text are overwritten with NULs, and the two list decoders count the segments in
 one pass and fill an array of that size in another.
 */
module ValueDecoders {
  import opened CStrings
  import opened Numbers
  import opened ValueCodecs

  lemma SplitLast(s: string, c: char)
    requires FindChar(s, c).None?
    ensures Split(s, c) == [s]
  {
  }

  lemma SplitStep(s: string, c: char, k: nat)
    requires FindChar(s, c) == Some(k)
    ensures Split(s, c) == [s[..k]] + Split(s[k + 1..], c)
  {
  }

  lemma CutFacts(b: seq<char>, p: nat, e: nat, k: nat)
    requires p + k < e < |b| && e == StrEnd(b, p)
    ensures var b' := b[p + k := NUL];
            && StrEnd(b', p) == p + k && CStr(b', p) == b[p..e][..k]
            && StrEnd(b', p + k + 1) == e && b'[p + k + 1..e] == b[p..e][k + 1..]
  {
    var b' := b[p + k := NUL];
    StrEndIs(b', p, p + k);
    StrEndIs(b', p + k + 1, e);
    hide StrEnd;
    assert b'[p..p + k] == b[p..e][..k];
    assert b'[p + k + 1..e] == b[p..e][k + 1..];
  }

  /**
   The step all decoders share: the separator behind the segment at `p`, if there is one,
   becomes a NUL, and `next` is the start of the following segment.
   */
  method CutSegment(buf: array<char>, p: nat, c: char, ghost e: nat) returns (more: bool, next: nat, ghost end: nat)
    requires p <= e < buf.Length && e == StrEnd(buf[..], p)
    modifies buf
    ensures p <= end <= e && StrEnd(buf[..], p) == end && end < buf.Length && SameOutside(old(buf[..]), buf[..], p, e)
    ensures p <= next <= e && (more ==> end < next && StrEnd(buf[..], next) == e)
    ensures Split(old(buf[..])[p..e], c) == [CStr(buf[..], p)] + if more then Split(buf[..][next..e], c) else []
    ensures old(buf[..])[p..e] != "" && !more ==> CStr(buf[..], p) != ""
  {
    ghost var b := buf[..];
    assert CStr(b, p) == b[p..e];
    var pos := FindChar(CStr(buf[..], p), c);
    hide StrEnd, CStr, Split, FindChar;
    match pos {
      case None =>
        SplitLast(b[p..e], c);
        more, next, end := false, p, e;
      case Some(k) =>
        SplitStep(b[p..e], c, k);
        CutFacts(b, p, e, k);
        buf[p + k] := NUL;
        more, next, end := true, p + k + 1, p + k;
    }
  }

  /** `parts` is the whole split; `done` of them have been read, and `rest`, if there is more, holds the others. */
  ghost predicate Progress(parts: seq<string>, done: nat, more: bool, rest: string, c: char) {
    && done <= |parts|
    && (if more then parts[done..] == Split(rest, c) else done == |parts|)
  }

  lemma ProgressStart(b: seq<char>, p: nat, e: nat, parts: seq<string>, c: char)
    requires p <= e <= |b| && parts == Split(b[p..e], c)
    ensures SameOutside(b, b, p, e) && Progress(parts, 0, true, b[p..e], c)
  {
    hide Split;
  }

  lemma ProgressEnds(parts: seq<string>, done: nat, rest: string, c: char)
    requires Progress(parts, done, false, rest, c)
    ensures done == |parts|
  {
  }

  lemma ProgressStep(parts: seq<string>, done: nat, rest: string, c: char, seg: string, more': bool, rest': string)
    requires Progress(parts, done, true, rest, c)
    requires Split(rest, c) == [seg] + if more' then Split(rest', c) else []
    ensures done < |parts| && parts[done] == seg && Progress(parts, done + 1, more', rest', c)
  {
    hide Split;
    assert parts[done..][0] == parts[done];
    assert parts[done + 1..] == parts[done..][1..];
  }

  /** The four parts, once read, are the address. */
  lemma IpComplete(s: string, parts: seq<string>, ip: seq<u8>, failed: bool)
    requires s != "" && parts == Split(s, '.') && |ip| <= 4 && |ip| <= |parts|
    requires forall i :: 0 <= i < |ip| ==> Octet(parts[i]) == ip[i]
    requires failed ==> |ip| < |parts| && (Octet(parts[|ip|]) > 0xFF || |ip| == 4)
    requires !failed ==> |ip| == |parts|
    ensures ParseIp(s) == if !failed && |ip| == 4 then Some(ip) else None
  {
    hide Octet, Split;
    if !failed && |ip| == 4 {
      assert ip == [ip[0], ip[1], ip[2], ip[3]];
      assert Octet(parts[0]) == ip[0] && Octet(parts[1]) == ip[1];
      assert Octet(parts[2]) == ip[2] && Octet(parts[3]) == ip[3];
    }
  }

  /** `decodeIpAddr` on the string from `p` to its NUL at `e`; the address goes to `out[at..at + 4]`. */
  method DecodeIpAddr(buf: array<char>, p: nat, ghost e: nat, out: array<u8>, at: nat) returns (ok: bool)
    requires p <= e < buf.Length && e == StrEnd(buf[..], p) && at + 4 <= out.Length
    modifies buf, out
    ensures SameOutside(old(buf[..]), buf[..], p, e)
    ensures ok == ParseIp(old(buf[..])[p..e]).Some?
    ensures ok ==> out[at..at + 4] == ParseIp(old(buf[..])[p..e]).value
    ensures forall i :: 0 <= i < out.Length && !(ok && at <= i < at + 4) ==> out[i] == old(out[i])
  {
    ghost var s := buf[..][p..e];
    TextAt(buf[..], p, e);
    assert s == "" ==> ParseIp(s) == Some([0, 0, 0, 0]);
    hide ParseIp, StrEnd, CStr, Split, Octet, SameOutside;
    SameItself(buf[..], p, e);
    if |CStr(buf[..], p)| == 0 {
      out[at], out[at + 1], out[at + 2], out[at + 3] := 0, 0, 0, 0;
      return true;
    }
    var dot := new u8[4];
    ghost var ip;
    var count: nat, failed;
    count, failed, ip := ReadOctets(buf, p, e, dot);
    IpComplete(s, Split(s, '.'), ip, failed);
    ok := !failed && count == 4;
    if ok {
      CopyAddress(dot, out, at);
    }
  }

  /** `AnscCopyMemory` of the four bytes. */
  method CopyAddress(dot: array<u8>, out: array<u8>, at: nat)
    requires dot.Length == 4 && at + 4 <= out.Length
    modifies out
    ensures dot != out ==> out[at..at + 4] == dot[..4]
    ensures forall i :: 0 <= i < out.Length && !(at <= i < at + 4) ==> out[i] == old(out[i])
  {
    out[at], out[at + 1], out[at + 2], out[at + 3] := dot[0], dot[1], dot[2], dot[3];
  }

  lemma SameItself(b: seq<char>, p: nat, e: nat)
    requires p <= e <= |b|
    ensures SameOutside(b, b, p, e)
  {
  }

  /** One part of a text: it is cut off in the buffer, up to `end`, and the next one starts at `next`. */
  method ReadPart(buf: array<char>, cur: nat, ghost e: nat, ghost parts: seq<string>, ghost done: nat, c: char)
      returns (part: string, more: bool, next: nat, ghost end: nat)
    requires cur <= e < buf.Length && e == StrEnd(buf[..], cur) && Progress(parts, done, true, buf[..][cur..e], c)
    modifies buf
    ensures SameOutside(old(buf[..]), buf[..], cur, e)
    ensures cur <= next <= e && (more ==> cur <= end < next && StrEnd(buf[..], next) == e)
    ensures cur <= end <= e && StrEnd(buf[..], cur) == end && buf[..][cur..end] == part
    ensures done < |parts| && part == parts[done] && Progress(parts, done + 1, more, buf[..][next..e], c)
  {
    hide *;
    ghost var rest := buf[..][cur..e];
    more, next, end := CutSegment(buf, cur, c, e);
    part := CStr(buf[..], cur);
    TextAt(buf[..], cur, end);
    ProgressStep(parts, done, rest, c, part, more, buf[..][next..e]);
  }

  /** The loop of `decodeIpAddr`; `failed` when a part is too large or there is a fifth. */
  method ReadOctets(buf: array<char>, p: nat, ghost e: nat, dot: array<u8>)
      returns (count: nat, failed: bool, ghost ip: seq<u8>)
    requires p <= e < buf.Length && e == StrEnd(buf[..], p) && dot.Length == 4
    modifies buf, dot
    ensures SameOutside(old(buf[..]), buf[..], p, e)
    ensures var parts := Split(old(buf[..])[p..e], '.');
            && |ip| == count <= 4 && count <= |parts| && dot[..count] == ip
            && (forall i :: 0 <= i < count ==> Octet(parts[i]) == ip[i])
            && (failed ==> count < |parts| && (Octet(parts[count]) > 0xFF || count == 4))
            && (!failed ==> count == |parts|)
  {
    ghost var b0, parts := buf[..], Split(buf[..][p..e], '.');
    var cur, more := p, true;
    count, failed, ip := 0, false, [];
    ProgressStart(b0, p, e, parts, '.');
    hide Octet, Split, StrEnd, CStr, SameOutside, Progress;
    while more
      invariant p <= cur <= e && |ip| == count <= 4 && count <= |parts| && dot[..count] == ip
      invariant more ==> StrEnd(buf[..], cur) == e
      invariant SameOutside(b0, buf[..], p, e)
      invariant Progress(parts, count, more, buf[..][cur..e], '.')
      invariant forall i :: 0 <= i < count ==> Octet(parts[i]) == ip[i]
      decreases e - cur, more
    {
      ghost var b, before, end := buf[..], cur, 0;
      var part;
      part, more, cur, end := ReadPart(buf, cur, e, parts, count, '.');
      SameOutsideTwice(b0, b, buf[..], p, before, e);
      var val := Octet(part);
      if val > 0xFF || count + 1 > 4 {
        failed := true;
        return;
      }
      dot[count] := val;
      count, ip := count + 1, ip + [val];
    }
    ProgressEnds(parts, count, buf[..][cur..e], '.');
  }

  lemma SameOutsideTwice(b0: seq<char>, b: seq<char>, b': seq<char>, p: nat, cur: nat, e: nat)
    requires p <= cur && SameOutside(b0, b, p, e) && SameOutside(b, b', cur, e)
    ensures SameOutside(b0, b', p, e)
  {
  }

  // ---------- the two passes over a list ----------

  /** The counting pass: how many segments of the list hold something. */
  method CountItems(buf: array<char>, ghost e: nat) returns (total: nat)
    requires e < buf.Length && e == StrEnd(buf[..], 0)
    ensures total == |Items(buf[..][0..e])|
  {
    var cur, more := 0, true;
    total := 0;
    ghost var parts := Split(buf[..][0..e], ',');
    ghost var done := 0;
    hide Split, StrEnd, CStr, NonEmpty;
    ProgressStart(buf[..], 0, e, parts, ',');
    ItemsStart(parts);
    while more
      invariant 0 <= cur <= e && done <= |parts|
      invariant more ==> StrEnd(buf[..], cur) == e
      invariant Progress(parts, done, more, buf[..][cur..e], ',')
      invariant total + |NonEmpty(parts[done..])| == |NonEmpty(parts)|
      decreases e - cur, more
    {
      var part;
      part, more, cur := NextItem(buf, cur, e, parts, done);
      NonEmptyStep(parts, done);
      if |part| > 0 {
        total := total + 1;
      }
      done := done + 1;
    }
    ProgressEnds(parts, done, buf[..][cur..e], ',');
    assert parts[done..] == [];
    NothingNonEmpty();
  }

  /** The same step as `ReadPart`, without cutting the text. */
  method NextItem(buf: array<char>, cur: nat, ghost e: nat, ghost parts: seq<string>, ghost done: nat)
      returns (part: string, more: bool, next: nat)
    requires cur <= e < buf.Length && e == StrEnd(buf[..], cur) && Progress(parts, done, true, buf[..][cur..e], ',')
    ensures cur <= next <= e && (more ==> cur < next && StrEnd(buf[..], next) == e)
    ensures done < |parts| && part == parts[done] && Progress(parts, done + 1, more, buf[..][next..e], ',')
  {
    ghost var rest := buf[..][cur..e];
    TextAt(buf[..], cur, e);
    hide *;
    var s := CStr(buf[..], cur);
    var pos := FindChar(s, ',');
    match pos {
      case None =>
        SplitLast(rest, ',');
        part, more, next := s, false, cur;
      case Some(k) =>
        SplitStep(rest, ',', k);
        AfterSegment(buf[..], cur, e, k);
        part, more, next := s[..k], true, cur + k + 1;
    }
    ProgressStep(parts, done, rest, ',', part, more, buf[..][next..e]);
  }

  lemma TextAt(b: seq<char>, p: nat, e: nat)
    requires p <= e < |b| && e == StrEnd(b, p)
    ensures CStr(b, p) == b[p..e]
  {
  }

  lemma AfterSegment(b: seq<char>, p: nat, e: nat, k: nat)
    requires p + k < e < |b| && e == StrEnd(b, p)
    ensures StrEnd(b, p + k + 1) == e && b[p + k + 1..e] == b[p..e][k + 1..]
  {
    StrEndIs(b, p + k + 1, e);
  }

  lemma ItemsStart(parts: seq<string>)
    ensures parts[0..] == parts
  {
  }

  lemma NothingNonEmpty()
    ensures NonEmpty([]) == []
  {
  }

  lemma NonEmptyStep(parts: seq<string>, i: nat)
    requires i < |parts|
    ensures NonEmpty(parts[i..]) == (if parts[i] == "" then [] else [parts[i]]) + NonEmpty(parts[i + 1..])
  {
    assert parts[i..][1..] == parts[i + 1..];
  }

  lemma {:induction false} LongsAt(ps: seq<string>, i: nat)
    requires i < |ps|
    ensures |Longs(ps)| == |ps| && Longs(ps)[i] == ULong(Atoi(ps[i]))
    decreases ps
  {
    hide Atoi;
    if i > 0 {
      LongsAt(ps[1..], i - 1);
    } else if |ps| > 1 {
      LongsAt(ps[1..], 0);
    }
  }

  /**
   `decodeIntList`.  `found` is false when NULL is returned; otherwise the array has one place
   for every segment counted and the second pass, which cuts the text up, fills them all.
   */
  method DecodeIntList(buf: array<char>, ghost e: nat) returns (found: bool, longs: array<u32>)
    requires e < buf.Length && e == StrEnd(buf[..], 0)
    modifies buf
    ensures fresh(longs)
    ensures found == ParseInts(old(buf[..])[0..e]).Some?
    ensures found ==> longs[..] == ParseInts(old(buf[..])[0..e]).value
  {
    ghost var s := buf[..][0..e];
    var total := CountItems(buf, e);
    longs := new u32[total](_ => 0);
    found := total != 0;
    if found {
      FillInts(buf, e, s, longs);
    }
  }

  /** With `done` segments read, the first `total` of the items have been taken. */
  ghost predicate Taken(items: seq<string>, parts: seq<string>, done: nat, total: nat) {
    done <= |parts| && total <= |items| && items[total..] == NonEmpty(parts[done..])
  }

  lemma TakenStart(parts: seq<string>)
    ensures Taken(NonEmpty(parts), parts, 0, 0)
  {
    assert parts[0..] == parts;
    hide NonEmpty;
  }

  lemma TakenStep(items: seq<string>, parts: seq<string>, done: nat, total: nat)
    requires Taken(items, parts, done, total) && done < |parts|
    ensures parts[done] == "" ==> Taken(items, parts, done + 1, total)
    ensures parts[done] != "" ==>
              total < |items| && items[total] == parts[done] && Taken(items, parts, done + 1, total + 1)
  {
    NonEmptyStep(parts, done);
    hide NonEmpty;
    if parts[done] != "" {
      assert items[total..][0] == parts[done];
      assert items[total + 1..] == items[total..][1..];
    } else {
      assert [] + NonEmpty(parts[done + 1..]) == NonEmpty(parts[done + 1..]);
    }
  }

  lemma TakenAll(items: seq<string>, parts: seq<string>, total: nat)
    requires Taken(items, parts, |parts|, total)
    ensures total == |items|
  {
    assert parts[|parts|..] == [];
  }

  /** The first `total` items are stored as numbers. */
  ghost predicate Stored(longs: seq<u32>, items: seq<string>, total: nat) {
    total <= |items| == |longs| && forall i :: 0 <= i < total ==> longs[i] == ULong(Atoi(items[i]))
  }

  lemma StoredStart(longs: seq<u32>, items: seq<string>)
    requires |longs| == |items|
    ensures Stored(longs, items, 0)
  {
  }

  lemma StoredStep(longs: seq<u32>, items: seq<string>, total: nat)
    requires Stored(longs, items, total) && total < |items|
    ensures Stored(longs[total := ULong(Atoi(items[total]))], items, total + 1)
  {
    hide Atoi, ULong;
  }

  lemma StoredAll(longs: seq<u32>, items: seq<string>)
    requires Stored(longs, items, |items|)
    ensures longs == Longs(items)
  {
    hide Atoi, ULong;
    if items == [] {
      assert Longs(items) == [];
    } else {
      LongsAt(items, 0);
      forall i | 0 <= i < |items| ensures longs[i] == Longs(items)[i] {
        LongsAt(items, i);
      }
    }
  }

  /** One round of the filling pass: a segment that holds something becomes the next number. */
  method FillNextInt(buf: array<char>, cur: nat, ghost e: nat, ghost parts: seq<string>, ghost done: nat,
                     longs: array<u32>, total: nat, ghost items: seq<string>)
      returns (more: bool, next: nat, newTotal: nat)
    requires cur <= e < buf.Length && e == StrEnd(buf[..], cur) && Progress(parts, done, true, buf[..][cur..e], ',')
    requires Taken(items, parts, done, total) && Stored(longs[..], items, total) && longs.Length == |items|
    modifies buf, longs
    ensures done < |parts| && cur <= next <= e && (more ==> cur < next && StrEnd(buf[..], next) == e)
    ensures Progress(parts, done + 1, more, buf[..][next..e], ',')
    ensures Taken(items, parts, done + 1, newTotal) && Stored(longs[..], items, newTotal)
  {
    hide *;
    ghost var end;
    var part;
    part, more, next, end := ReadPart(buf, cur, e, parts, done, ',');
    TakenStep(items, parts, done, total);
    newTotal := total;
    if |part| > 0 {
      StoredStep(longs[..], items, total);
      Store(longs, total, part);
      newTotal := total + 1;
    }
  }

  /** The filling pass of `decodeIntList`. */
  method FillInts(buf: array<char>, ghost e: nat, ghost s: string, longs: array<u32>)
    requires e < buf.Length && e == StrEnd(buf[..], 0) && s == buf[..][0..e]
    requires longs.Length == |Items(s)|
    modifies buf, longs
    ensures longs[..] == Longs(Items(s))
  {
    ghost var parts := Split(s, ',');
    ghost var items, done := NonEmpty(parts), 0;
    var cur: nat, more, total: nat := 0, true, 0;
    ProgressStart(buf[..], 0, e, parts, ',');
    TakenStart(parts);
    assert items == Items(s);
    StoredStart(longs[..], items);
    hide *;
    while more
      invariant 0 <= cur <= e && (more ==> StrEnd(buf[..], cur) == e)
      invariant Progress(parts, done, more, buf[..][cur..e], ',')
      invariant Taken(items, parts, done, total)
      invariant Stored(longs[..], items, total) && longs.Length == |items|
      decreases e - cur, more
    {
      more, cur, total := FillNextInt(buf, cur, e, parts, done, longs, total, items);
      done := done + 1;
    }
    ProgressEnds(parts, done, buf[..][cur..e], ',');
    TakenAll(items, parts, total);
    StoredAll(longs[..], items);
  }

  /** One number of the list goes to its place. */
  method Store(longs: array<u32>, total: nat, part: string)
    requires total < longs.Length
    modifies longs
    ensures longs[..] == old(longs[..])[total := ULong(Atoi(part))]
  {
    longs[total] := ULong(Atoi(part));
  }

  // ---------- lists of addresses ----------

  /** The first `total` items are decoded, four bytes each. */
  ghost predicate IpsStored(out: seq<u8>, items: seq<string>, total: nat) {
    && total <= |items| && |out| == 4 * |items|
    && forall i :: 0 <= i < total ==> ParseIp(items[i]) == Some(out[4 * i..4 * i + 4])
  }

  lemma IpsStoredStart(out: seq<u8>, items: seq<string>)
    requires |out| == 4 * |items|
    ensures IpsStored(out, items, 0)
  {
  }

  lemma IpsStoredStep(out: seq<u8>, out': seq<u8>, items: seq<string>, total: nat)
    requires IpsStored(out, items, total) && total < |items| && |out'| == |out|
    requires forall i :: 0 <= i < |out| && !(4 * total <= i < 4 * total + 4) ==> out'[i] == out[i]
    requires ParseIp(items[total]) == Some(out'[4 * total..4 * total + 4])
    ensures IpsStored(out', items, total + 1)
  {
    hide ParseIp;
    forall i | 0 <= i < total ensures out'[4 * i..4 * i + 4] == out[4 * i..4 * i + 4] {
    }
  }

  lemma {:induction false} IpsStoredFrom(out: seq<u8>, items: seq<string>, from: nat)
    requires IpsStored(out, items, |items|) && from <= |items|
    ensures ParseAll(items[from..]) == Some(out[4 * from..])
    decreases |items| - from
  {
    hide ParseIp;
    if from == |items| {
      assert items[from..] == [] && out[4 * from..] == [];
    } else {
      IpsStoredFrom(out, items, from + 1);
      assert items[from..][1..] == items[from + 1..];
      assert out[4 * from..] == out[4 * from..4 * from + 4] + out[4 * (from + 1)..];
    }
  }

  lemma IpsStoredAll(out: seq<u8>, items: seq<string>)
    requires IpsStored(out, items, |items|)
    ensures ParseAll(items) == Some(out)
  {
    IpsStoredFrom(out, items, 0);
    assert items[0..] == items && out[4 * 0..] == out;
  }

  lemma {:induction false} OneRejected(items: seq<string>, i: nat)
    requires i < |items| && ParseIp(items[i]).None?
    ensures ParseAll(items).None?
    decreases items
  {
    hide ParseIp;
    if i > 0 {
      OneRejected(items[1..], i - 1);
    }
  }

  /** What the inner decoder writes stays inside the segment, so the list goes on behind it. */
  lemma InnerStaysInside(b: seq<char>, b': seq<char>, cur: nat, end: nat, next: nat, e: nat, more: bool)
    requires SameOutside(b, b', cur, end) && e < |b| && next <= e && (more ==> end < next && StrEnd(b, next) == e)
    ensures more ==> StrEnd(b', next) == e && b'[next..e] == b[next..e]
  {
    if more {
      StrEndIs(b', next, e);
    }
  }

  lemma ProgressKept(parts: seq<string>, done: nat, more: bool, rest: string, rest': string, c: char)
    requires Progress(parts, done, more, rest, c) && (more ==> rest' == rest)
    ensures Progress(parts, done, more, rest', c)
  {
  }

  /**
   `decodeIP4AddrList`.  `found` is false when NULL is returned: no segment holds anything, or
   one is no address.  The array has four bytes for every segment counted, and all are filled.
   */
  method DecodeIp4AddrList(buf: array<char>, ghost e: nat) returns (found: bool, out: array<u8>)
    requires e < buf.Length && e == StrEnd(buf[..], 0)
    modifies buf
    ensures fresh(out)
    ensures found == ParseIps(old(buf[..])[0..e]).Some?
    ensures found ==> out[..] == ParseIps(old(buf[..])[0..e]).value
  {
    ghost var s := buf[..][0..e];
    var total := CountItems(buf, e);
    out := new u8[total * 4](_ => 0);
    found := total != 0;
    if found {
      found := FillIps(buf, e, s, out);
    }
  }

  /** The inner decoder on the segment at `start`; the rest of the list, from `next`, is not touched. */
  method TakeAddress(buf: array<char>, start: nat, ghost end: nat, ghost next: nat, ghost e: nat, ghost more: bool,
                     ghost parts: seq<string>, ghost done: nat, out: array<u8>, total: nat, ghost items: seq<string>)
      returns (ok: bool)
    requires start <= end <= e < buf.Length && StrEnd(buf[..], start) == end && next <= e
    requires more ==> end < next && StrEnd(buf[..], next) == e
    requires Progress(parts, done, more, buf[..][next..e], ',')
    requires total < |items| && buf[..][start..end] == items[total]
    requires IpsStored(out[..], items, total) && out.Length == 4 * |items|
    modifies buf, out
    ensures ok == ParseIp(items[total]).Some?
    ensures ok ==> IpsStored(out[..], items, total + 1)
    ensures more ==> StrEnd(buf[..], next) == e
    ensures Progress(parts, done, more, buf[..][next..e], ',')
  {
    hide *;
    ghost var b, o := buf[..], out[..];
    ok := DecodeIpAddr(buf, start, end, out, 4 * total);
    InnerStaysInside(b, buf[..], start, end, next, e, more);
    ProgressKept(parts, done, more, b[next..e], buf[..][next..e], ',');
    if ok {
      IpsStoredStep(o, out[..], items, total);
    }
  }

  /** One round of the filling pass: a segment that holds something is decoded behind the others. */
  method FillNext(buf: array<char>, cur: nat, ghost e: nat, ghost parts: seq<string>, ghost done: nat,
                  out: array<u8>, total: nat, ghost items: seq<string>)
      returns (ok: bool, more: bool, next: nat, newTotal: nat)
    requires cur <= e < buf.Length && e == StrEnd(buf[..], cur) && Progress(parts, done, true, buf[..][cur..e], ',')
    requires Taken(items, parts, done, total)
    requires IpsStored(out[..], items, total) && out.Length == 4 * |items|
    modifies buf, out
    ensures done < |parts| && cur <= next <= e
    ensures ok ==> more ==> cur < next && StrEnd(buf[..], next) == e
    ensures ok ==> Progress(parts, done + 1, more, buf[..][next..e], ',')
    ensures ok ==> Taken(items, parts, done + 1, newTotal) && IpsStored(out[..], items, newTotal)
    ensures !ok ==> total < |items| && ParseIp(items[total]).None?
  {
    hide *;
    ghost var end;
    var part;
    part, more, next, end := ReadPart(buf, cur, e, parts, done, ',');
    TakenStep(items, parts, done, total);
    ok, newTotal := true, total;
    if |part| > 0 {
      ok := TakeAddress(buf, cur, end, next, e, more, parts, done + 1, out, total, items);
      newTotal := total + 1;
    }
  }

  /** The filling pass of `decodeIP4AddrList`; false when a segment is rejected. */
  method FillIps(buf: array<char>, ghost e: nat, ghost s: string, out: array<u8>) returns (ok: bool)
    requires e < buf.Length && e == StrEnd(buf[..], 0) && s == buf[..][0..e]
    requires out.Length == 4 * |Items(s)|
    modifies buf, out
    ensures ok == ParseAll(Items(s)).Some?
    ensures ok ==> out[..] == ParseAll(Items(s)).value
  {
    ghost var parts := Split(s, ',');
    ghost var items, done := NonEmpty(parts), 0;
    var cur: nat, more, total: nat := 0, true, 0;
    ProgressStart(buf[..], 0, e, parts, ',');
    TakenStart(parts);
    assert items == Items(s);
    IpsStoredStart(out[..], items);
    hide *;
    ok := true;
    while more
      invariant 0 <= cur <= e && (more ==> StrEnd(buf[..], cur) == e)
      invariant Progress(parts, done, more, buf[..][cur..e], ',')
      invariant Taken(items, parts, done, total)
      invariant IpsStored(out[..], items, total) && out.Length == 4 * |items|
      decreases e - cur, more
    {
      ghost var before := total;
      ok, more, cur, total := FillNext(buf, cur, e, parts, done, out, total, items);
      if !ok {
        OneRejected(items, before);
        return;
      }
      done := done + 1;
    }
    ProgressEnds(parts, done, buf[..][cur..e], ',');
    TakenAll(items, parts, total);
    IpsStoredAll(out[..], items);
    ok := true;
  }
}
