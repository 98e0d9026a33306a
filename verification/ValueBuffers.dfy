/**
 The writers and decoders of source/PsmFileLoader/psm_flo_parse.c that work in buffers of
 a fixed size: the address list is printed into 16 bytes an address, MAC addresses and
 integer lists into 64 bytes; a MAC address is decoded over its own text, and a calendar
 time field by field through 8 bytes.
 */
module ValueBuffers {
  import opened CStrings
  import opened Numbers
  import opened ValueCodecs
  import opened MacCalendar

  /** What a list writer does: sets a text, sets nothing, or reports a failure. */
  datatype Written = Text(text: string) | Nothing | Failed

  lemma {:induction false} JoinSnoc(ps: seq<string>, x: string, c: char)
    ensures Join(ps + [x], c) == if ps == [] then x else Join(ps, c) + [c] + x
    decreases ps
  {
    if |ps| > 1 {
      assert (ps + [x])[1..] == ps[1..] + [x];
      JoinSnoc(ps[1..], x, c);
    } else if |ps| == 1 {
      assert (ps + [x])[1..] == [x];
    } else {
      assert ps + [x] == [x];
    }
  }

  lemma {:induction false} IpTextAt(d: seq<u8>, i: nat)
    requires |d| % 4 == 0 && i < |d| / 4
    ensures IpTexts(d)[i] == WriteIp(d[4 * i..4 * i + 4])
    decreases i
  {
    if i > 0 {
      IpTextAt(d[4..], i - 1);
      assert d[4..][4 * (i - 1)..4 * (i - 1) + 4] == d[4 * i..4 * i + 4];
    }
  }

  /** The text of the first `i` addresses, and the next one behind it. */
  lemma NextAddress(d: seq<u8>, i: nat)
    requires |d| % 4 == 0 && i < |d| / 4
    ensures Join(IpTexts(d)[..i + 1], ',') ==
            if i == 0 then WriteIp(d[4 * i..4 * i + 4])
            else Join(IpTexts(d)[..i], ',') + "," + WriteIp(d[4 * i..4 * i + 4])
    ensures |WriteIp(d[4 * i..4 * i + 4])| <= 15
  {
    IpTextAt(d, i);
    IpLength(d[4 * i..4 * i + 4]);
    var ps := IpTexts(d);
    hide IpTexts, WriteIp, Join;
    assert ps[..i + 1] == ps[..i] + [ps[i]];
    JoinSnoc(ps[..i], ps[i], ',');
  }

  /** `sprintf(buf + off, "%s", s)`. */
  method Sprintf(buf: array<char>, off: nat, s: string)
    requires off + |s| < buf.Length
    modifies buf
    ensures buf[..off + |s|] == old(buf[..off]) + s && buf[off + |s|] == NUL
  {
    forall i | 0 <= i < |s| {
      buf[off + i] := s[i];
    }
    buf[off + |s|] := NUL;
  }

  /** One round of `writeIP4AddrList`: the address, behind a comma unless it is the first. */
  method AppendAddress(buf: array<char>, off: nat, data: seq<u8>, i: nat) returns (newOff: nat)
    requires |data| % 4 == 0 && i < |data| / 4 && buf.Length == 4 * |data|
    requires off <= 16 * i && (i > 0 ==> off < 16 * i)
    requires buf[..off] == Join(IpTexts(data)[..i], ',')
    modifies buf
    ensures newOff < 16 * (i + 1) && buf[..newOff] == Join(IpTexts(data)[..i + 1], ',')
  {
    hide WriteIp, IpTexts, Join;
    NextAddress(data, i);
    FirstIsEmpty(data);
    ghost var before, t := buf[..off], WriteIp(data[4 * i..4 * i + 4]);
    var temp := WriteIp(data[4 * i..4 * i + 4]);
    if i > 0 {
      temp := "," + temp;
      assert before + ("," + t) == before + "," + t;
    } else {
      assert before + t == t;
    }
    Sprintf(buf, off, temp);
    newOff := off + |temp|;
  }

  lemma FirstIsEmpty(data: seq<u8>)
    requires |data| % 4 == 0
    ensures Join(IpTexts(data)[..0], ',') == ""
  {
    assert IpTexts(data)[..0] == [];
  }

  /** `writeIP4AddrList`: the buffer of 16 bytes an address is never overrun. */
  method WriteIp4AddrList(data: seq<u8>) returns (w: Written)
    ensures w == if data == [] then Nothing else if |data| % 4 != 0 then Failed else Text(WriteIps(data))
  {
    if |data| == 0 {
      return Nothing;
    }
    if |data| % 4 != 0 {
      return Failed;
    }
    var n := |data| / 4;
    var buf := new char[|data| * 16 / 4](_ => NUL);
    var off: nat := 0;
    hide WriteIp, IpTexts, Join;
    FirstIsEmpty(data);
    for i := 0 to n
      invariant off <= 16 * i && (i > 0 ==> off < 16 * i)
      invariant buf[..off] == Join(IpTexts(data)[..i], ',')
    {
      off := AppendAddress(buf, off, data, i);
    }
    assert IpTexts(data)[..n] == IpTexts(data);
    w := Text(buf[..off]);
  }

  function NibbleAt(s: string, k: nat): (n: nat)
    requires k < |s|
    ensures n < 16
  {
    if Nibble(s[k]).Some? then Nibble(s[k]).value else 0
  }

  /** What has been gathered of byte `j` when the characters before `i` have been read. */
  function Gathered(s: string, i: nat, j: nat): (g: nat)
    requires 3 * j + 1 < |s|
    ensures g < 256
  {
    (if 3 * j < i then NibbleAt(s, 3 * j) * 16 else 0) + (if 3 * j + 1 < i then NibbleAt(s, 3 * j + 1) else 0)
  }

  lemma GatheredStep(s: string, i: nat, j: nat)
    requires |s| % 3 == 2 && 3 * j + 1 < |s| && i < |s|
    ensures i % 3 == 2 || j != i / 3 ==> Gathered(s, i + 1, j) == Gathered(s, i, j)
    ensures i % 3 != 2 && j == i / 3 ==>
              Gathered(s, i + 1, j) == Gathered(s, i, j) + NibbleAt(s, i) * if i % 3 != 0 then 1 else 16
  {
    hide NibbleAt;
  }

  lemma GatheredAll(s: string, j: nat)
    requires AllPlaced(s) && j <= |s| / 3
    ensures Gathered(s, |s|, j) == PairAt(s, j)
  {
    assert PlaceOk(s, 3 * j) && PlaceOk(s, 3 * j + 1);
    hide Nibble;
  }

  /** The first character out of place decides the outcome. */
  lemma MacRejected(s: string, i: nat)
    requires |s| % 3 == 2 && i < |s| && !PlaceOk(s, i) && forall k :: 0 <= k < i ==> PlaceOk(s, k)
    ensures DecodeMac(s) == if i % 3 == 2 then MacFailure else MacInvalid
  {
    FirstBadIs(s, 0, i);
    hide PlaceOk;
  }

  lemma {:induction false} FirstBadIs(s: string, from: nat, i: nat)
    requires from <= i < |s| && !PlaceOk(s, i) && forall k :: from <= k < i ==> PlaceOk(s, k)
    ensures FirstBad(s, from) == Some(i)
    decreases i - from
  {
    hide PlaceOk;
    if from < i {
      FirstBadIs(s, from + 1, i);
    }
  }

  lemma MacAccepted(s: string, d: seq<u8>)
    requires AllPlaced(s) && |d| == |s| / 3 + 1 && forall j :: 0 <= j < |d| ==> d[j] == Gathered(s, |s|, j)
    ensures DecodeMac(s) == MacOk(d)
  {
    forall j | 0 <= j < |d| ensures d[j] == PairAt(s, j) {
      GatheredAll(s, j);
    }
    hide PlaceOk, Gathered, PairAt;
    assert MacBytes(s) == d;
  }

  /**
   `decodeMacAddress` on the first `size` characters of the buffer: the bytes are gathered
   digit by digit and, when all is well, copied over the text.
   */
  method DecodeMacAddress(buf: array<char>, size: nat) returns (r: MacResult, newSize: nat)
    requires size <= buf.Length
    modifies buf
    ensures r == DecodeMac(old(buf[..size]))
    ensures r.MacOk? ==> newSize == |r.data| <= size && forall i :: 0 <= i < newSize ==> buf[i] as int == r.data[i]
    ensures !r.MacOk? ==> newSize == size && buf[..] == old(buf[..])
  {
    ghost var s := buf[..size];
    newSize := size;
    if size % 3 != 2 {
      return MacFailure, size;
    }
    var dataSize := size / 3 + 1;
    var data := new u8[dataSize](_ => 0);
    GatheredNothing(s);
    hide Nibble, NibbleAt, Gathered;
    for i := 0 to dataSize * 3 - 1
      invariant buf[..] == old(buf[..])
      invariant forall k :: 0 <= k < i ==> PlaceOk(s, k)
      invariant forall j :: 0 <= j < dataSize ==> data[j] == Gathered(s, i, j)
    {
      var c := buf[i];
      assert c == buf[..][i] == s[i];
      if i % 3 == 2 {
        if c != ':' {
          MacRejected(s, i);
          return MacFailure, size;
        }
      } else if Nibble(c).None? {
        MacRejected(s, i);
        return MacInvalid, size;
      }
      assert PlaceOk(s, i);
      NibbleOf(s, i);
      Gather(s, i, data, if Nibble(c).Some? then Nibble(c).value else 0);
    }
    assert AllPlaced(s);
    MacAccepted(s, data[..]);
    forall i | 0 <= i < dataSize {
      buf[i] := data[i] as char;
    }
    r, newSize := MacOk(data[..]), dataSize;
  }

  lemma NibbleOf(s: string, i: nat)
    requires i < |s|
    ensures NibbleAt(s, i) == if Nibble(s[i]).Some? then Nibble(s[i]).value else 0
  {
  }

  /** `pBinaryData[i / 3] += ...` for the digit `n` at position `i`; a colon adds nothing. */
  method Gather(ghost s: string, i: nat, data: array<u8>, n: nat)
    requires |s| % 3 == 2 && i < |s| && data.Length == |s| / 3 + 1 && n == NibbleAt(s, i)
    requires forall j :: 0 <= j < data.Length ==> data[j] == Gathered(s, i, j)
    modifies data
    ensures forall j :: 0 <= j < data.Length ==> data[j] == Gathered(s, i + 1, j)
  {
    hide NibbleAt, Gathered;
    forall j | 0 <= j < data.Length
      ensures i % 3 == 2 || j != i / 3 ==> Gathered(s, i + 1, j) == Gathered(s, i, j)
    {
      GatheredStep(s, i, j);
    }
    GatheredStep(s, i, i / 3);
    if i % 3 != 2 {
      data[i / 3] := data[i / 3] + if i % 3 != 0 then n else n * 16;
    }
  }

  lemma GatheredNothing(s: string)
    ensures forall j: nat :: 3 * j + 1 < |s| ==> Gathered(s, 0, j) == 0
  {
  }

  // ---------- the 64-byte writers ----------

  /** The size of `pTemp` and `pString`. */
  const TEXT_SIZE: nat := 64

  lemma {:induction false} MacSnoc(d: seq<u8>, b: u8)
    ensures WriteMac(d + [b]) == if d == [] then Hex2(b) else WriteMac(d) + ":" + Hex2(b)
    decreases d
  {
    hide Hex2;
    if d == [] {
      assert d + [b] == [b];
    } else {
      assert (d + [b])[1..] == d[1..] + [b];
      MacSnoc(d[1..], b);
    }
  }

  /** `writeMacAddress`: with 21 bytes or fewer the text and its NUL stay within the buffer. */
  method WriteMacAddress(data: seq<u8>) returns (text: string)
    requires 3 * |data| <= TEXT_SIZE
    ensures text == WriteMac(data)
  {
    var temp := new char[TEXT_SIZE](_ => NUL);
    var len: nat := 0;
    hide Hex2;
    for i := 0 to |data|
      invariant len == (if i == 0 then 0 else 3 * i - 1) && temp[..len] == WriteMac(data[..i])
    {
      assert data[..i + 1] == data[..i] + [data[i]];
      MacSnoc(data[..i], data[i]);
      ghost var before := temp[..len];
      var t := (if i == 0 then "" else ":") + Hex2(data[i]);
      assert i == 0 ==> before == "" && t == Hex2(data[i]);
      assert i > 0 ==> before + t == before + ":" + Hex2(data[i]);
      HexLength(data[i]);
      Sprintf(temp, len, t);
      len := len + |t|;
    }
    assert data[..|data|] == data;
    text := temp[..len];
  }

  /** `writeIP4Address`: the text and its NUL stay within the 32-byte buffer. */
  method WriteIp4Address(data: seq<u8>) returns (text: string)
    requires |data| == 4
    ensures text == WriteIp(data)
  {
    IpLength(data);
    hide WriteIp;
    var temp := new char[32](_ => NUL);
    var t := WriteIp(data);
    Sprintf(temp, 0, t);
    text := temp[..|t|];
    assert temp[..0] == [];
  }

  /** `writeCalendar`: 64 bytes hold every time of six 16-bit fields. */
  method WriteCalendarTime(c: Calendar) returns (text: string)
    ensures text == WriteCalendar(c)
  {
    CalendarLength(c);
    hide WriteCalendar;
    var temp := new char[64](_ => NUL);
    var t := WriteCalendar(c);
    Sprintf(temp, 0, t);
    text := temp[..|t|];
    assert temp[..0] == [];
  }

  lemma HexLength(b: u8)
    ensures |Hex2(b)| == 2
  {
  }

  lemma IntsSnoc(xs: seq<u32>, x: u32)
    ensures WriteInts(xs + [x]) == if xs == [] then Dec(x) else WriteInts(xs) + "," + Dec(x)
  {
    hide Dec, Join;
    assert Decs(xs + [x]) == Decs(xs) + [Dec(x)];
    JoinSnoc(Decs(xs), Dec(x), ',');
  }

  lemma {:induction false} IntsGrow(xs: seq<u32>, i: nat)
    requires i <= |xs|
    ensures |WriteInts(xs[..i])| <= |WriteInts(xs)|
    decreases |xs| - i
  {
    hide WriteInts;
    if i < |xs| {
      IntsGrow(xs, i + 1);
      assert xs[..i + 1] == xs[..i] + [xs[i]];
      IntsSnoc(xs[..i], xs[i]);
      assert WriteInts([]) == "" by { NoInts(); }
    } else {
      assert xs[..i] == xs;
    }
  }

  lemma NoInts()
    ensures WriteInts([]) == ""
  {
  }

  /** One round of `writeIntList`: the number, behind a comma unless it is the first. */
  method AppendInt(temp: array<char>, len: nat, xs: seq<u32>, i: nat) returns (newLen: nat)
    requires i < |xs| && |WriteInts(xs)| < TEXT_SIZE == temp.Length && len <= temp.Length
    requires temp[..len] == WriteInts(xs[..i])
    modifies temp
    ensures newLen < TEXT_SIZE && temp[..newLen] == WriteInts(xs[..i + 1])
  {
    hide WriteInts, Dec;
    ghost var before := temp[..len];
    assert xs[..i + 1] == xs[..i] + [xs[i]];
    IntsSnoc(xs[..i], xs[i]);
    IntsGrow(xs, i + 1);
    var t := Dec(xs[i]);
    if i > 0 {
      t := "," + t;
      assert before + ("," + Dec(xs[i])) == before + "," + Dec(xs[i]);
    } else {
      NoInts();
      assert before + t == t;
    }
    Sprintf(temp, len, t);
    newLen := len + |t|;
  }

  /** The printing loop of `writeIntList`, for lists whose text fits. */
  method PrintInts(xs: seq<u32>) returns (text: string)
    requires |WriteInts(xs)| < TEXT_SIZE
    ensures text == WriteInts(xs)
  {
    hide *;
    var temp := new char[64](_ => NUL);
    var len: nat := 0;
    NoInts();
    assert xs[..0] == [] && TEXT_SIZE == 64 by { SixtyFour(); }
    for i := 0 to |xs|
      invariant len <= temp.Length && temp[..len] == WriteInts(xs[..i])
    {
      len := AppendInt(temp, len, xs, i);
    }
    assert xs[..|xs|] == xs;
    text := temp[..len];
  }

  lemma SixtyFour()
    ensures TEXT_SIZE == 64
  {
  }

  // ---------- the calendar scanner ----------

  lemma {:induction false} NextDigitIs(s: string, k: nat)
    requires k <= |s| && (k < |s| ==> IsDigit(s[k])) && forall i :: 0 <= i < k ==> !IsDigit(s[i])
    ensures NextDigit(s) == k
    decreases k
  {
    if k > 0 {
      NextDigitIs(s[1..], k - 1);
    }
  }

  /** One field of the scan: what comes before its digits, the digits, and what comes behind. */
  lemma ScanOne(pre: string, run: string, rest: string, n: nat)
    requires (forall i :: 0 <= i < |pre| ==> !IsDigit(pre[i])) && run != "" && AllDigits(run)
    requires (rest != "" ==> !IsDigit(rest[0])) && n > 0
    ensures ScanFields(pre + run + rest, n) ==
            if |run| > VALUE_MAX then None
            else if n == 1 then Some([ULong(Atoi(run)) % 0x1_0000])
            else if rest == "" then None
            else match ScanFields(rest[1..], n - 1)
                 case None => None
                 case Some(more) => Some([ULong(Atoi(run)) % 0x1_0000] + more)
  {
    var s, t := pre + run + rest, run + rest;
    assert s[|pre|] == run[0];
    NextDigitIs(s, |pre|);
    assert s[|pre|..] == t && t[..|run|] == run;
    DigitSpanIs(t, |run|);
    assert rest != "" ==> t[|run| + 1..] == rest[1..];
    hide Atoi, DigitSpan, NextDigit, ULong;
  }

  /** A scan that succeeds finds a digit. */
  lemma ScanHasDigit(s: string, n: nat)
    requires n > 0 && ScanFields(s, n).Some?
    ensures exists i :: 0 <= i < |s| && IsDigit(s[i])
  {
    if NextDigit(s) < |s| {
      assert IsDigit(s[NextDigit(s)]);
    }
  }

  /** The two inner loops of `decodeCalendar`: to the first digit, and behind the last of its run. */
  method NextRun(buf: array<char>, p: nat, ghost e: nat) returns (a: nat, b: nat)
    requires p <= e < buf.Length && StrEnd(buf[..], p) == e
    requires exists i :: p <= i < e && IsDigit(buf[i])
    ensures p <= a < b <= e && (forall i :: p <= i < a ==> !IsDigit(buf[i]))
    ensures (forall i :: a <= i < b ==> IsDigit(buf[i])) && !IsDigit(buf[b])
  {
    assert buf[..][e] == NUL;
    hide StrEnd;
    a := p;
    while !(IsDigit(buf[a]) || buf[a] == NUL)
      invariant p <= a < e && forall i :: p <= i < a ==> !IsDigit(buf[i])
      decreases e - a
    {
      a := a + 1;
    }
    assert forall i :: p <= i < e ==> buf[..][i] != NUL;
    b := a + 1;
    while IsDigit(buf[b])
      invariant a < b <= e && forall i :: a <= i < b ==> IsDigit(buf[i])
      decreases e - b
    {
      b := b + 1;
    }
  }

  /** `AnscCopyMemory` of a field into the 8-byte buffer, with its NUL, and its value in 16 bits. */
  method ReadField(buf: array<char>, a: nat, b: nat) returns (field: u16)
    requires a < b <= buf.Length && b - a <= VALUE_MAX && forall i :: a <= i < b ==> IsDigit(buf[i])
    ensures field == ULong(Atoi(buf[..][a..b])) % 0x1_0000
  {
    var value := new char[VALUE_MAX + 1](_ => NUL);
    forall i | 0 <= i < b - a {
      value[i] := buf[a + i];
    }
    value[b - a] := NUL;
    StrEndIs(value[..], 0, b - a);
    assert value[..][0..b - a] == buf[..][a..b];
    hide StrEnd, Atoi;
    field := ULong(Atoi(CStr(value[..], 0))) % 0x1_0000;
  }

  /** One round of `decodeCalendar`. */
  method ReadNext(buf: array<char>, p: nat, ghost e: nat, ghost n: nat) returns (field: u16, next: nat)
    requires p <= e < buf.Length && StrEnd(buf[..], p) == e && n > 0 && ScanFields(buf[..][p..e], n).Some?
    ensures n == 1 ==> ScanFields(buf[..][p..e], n) == Some([field])
    ensures n > 1 ==> next <= e && StrEnd(buf[..], next) == e && ScanFields(buf[..][next..e], n - 1).Some?
    ensures n > 1 ==> ScanFields(buf[..][p..e], n).value == [field] + ScanFields(buf[..][next..e], n - 1).value
  {
    hide ScanFields, StrEnd, Atoi, ULong;
    ScanHasDigit(buf[..][p..e], n);
    RunExists(buf[..], p, e);
    var a, b := NextRun(buf, p, e);
    RunParts(buf[..], p, a, b, e);
    ScanOne(buf[..][p..a], buf[..][a..b], buf[..][b..e], n);
    field := ReadField(buf, a, b);
    next := b + 1;
    if n > 1 {
      StrEndLater(buf[..], p, next, e);
    }
  }

  lemma RunExists(b: seq<char>, p: nat, e: nat)
    requires p <= e <= |b| && exists i :: 0 <= i < |b[p..e]| && IsDigit(b[p..e][i])
    ensures exists i :: p <= i < e && IsDigit(b[i])
  {
    var i :| 0 <= i < |b[p..e]| && IsDigit(b[p..e][i]);
    assert b[p + i] == b[p..e][i];
  }

  lemma RunParts(b: seq<char>, p: nat, x: nat, y: nat, e: nat)
    requires p <= x < y <= e < |b| && (forall i :: p <= i < x ==> !IsDigit(b[i]))
    requires (forall i :: x <= i < y ==> IsDigit(b[i])) && !IsDigit(b[y])
    ensures forall i :: 0 <= i < |b[p..x]| ==> !IsDigit(b[p..x][i])
    ensures b[x..y] != "" && AllDigits(b[x..y])
    ensures b[y..e] != "" ==> !IsDigit(b[y..e][0]) && b[y..e][1..] == b[y + 1..e]
    ensures b[p..e] == b[p..x] + b[x..y] + b[y..e]
  {
  }

  lemma StrEndLater(b: seq<char>, p: nat, q: nat, e: nat)
    requires p <= q <= e < |b| && StrEnd(b, p) == e
    ensures StrEnd(b, q) == e
  {
    StrEndIs(b, q, e);
  }

  /** `decodeCalendar` on a text its scan does not run past: all six fields. */
  method DecodeCalendar(buf: array<char>, ghost e: nat) returns (date: array<u16>)
    requires e < buf.Length && StrEnd(buf[..], 0) == e && ScanFields(buf[..][0..e], 6).Some?
    ensures fresh(date) && date.Length == 6 && Some(date[..]) == ScanFields(buf[..][0..e], 6)
  {
    hide *;
    date := new u16[6](_ => 0);
    var p: nat := 0;
    ghost var b, got := buf[..], [];
    ghost var rest := ScanFields(b[0..e], 6).value;
    ghost var all := rest;
    assert [] + rest == rest;
    for index := 0 to 6
      invariant buf[..] == b && |got| == index && forall k :: 0 <= k < index ==> date[k] == got[k]
      invariant index < 6 ==> p <= e && StrEnd(b, p) == e && ScanFields(b[p..e], 6 - index) == Some(rest)
      invariant all == if index < 6 then got + rest else got
    {
      var field, next := ReadNext(buf, p, e, 6 - index);
      date[index] := field;
      if index < 5 {
        ghost var more := ScanFields(b[next..e], 5 - index).value;
        Regroup(got, [field], more);
        rest := more;
      }
      got, p := got + [field], next;
    }
    assert date[..] == got;
  }

  lemma Regroup<T>(a: seq<T>, b: seq<T>, c: seq<T>)
    ensures a + (b + c) == a + b + c
  {
  }
}
