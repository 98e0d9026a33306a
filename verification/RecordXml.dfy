/**
 One record of the repository as an XML node and back
 (`addRecordToXMLHandle2` and `loadRecordFromXML` of
 source/PsmFileLoader/psm_flo_parse.c).
 */
module RecordXml {
  import opened CStrings
  import opened Numbers
  import opened ValueCodecs
  import opened MacCalendar

  // ---------- the repository's records and the document's nodes ----------

  /** `ANSC_UNIVERSAL_TIME`. */
  datatype UniversalTime = UniversalTime(fields: Calendar, milliSecond: u16, dayLightSaving: bool)

  /** The memory of a record's value: bytes, or a time structure. */
  datatype Payload = Bytes(b: seq<u8>) | Time(t: UniversalTime)

  datatype Record = Record(name: string, rtype: nat, ctype: nat, permission: u32, data: Payload)

  /** The attributes the translator knows: `name`, `type`, `contentType` and `permission`. */
  datatype AttrName = NameAttr | TypeAttr | ContentAttr | AccessAttr

  datatype Attr = Text(s: string) | Num(n: u32)

  /** Node names: `Folder`, `Record` or another. */
  datatype Tag = FolderTag | RecordTag | OtherTag(s: string)

  /** What the data accessors of the document library store and return. */
  datatype Data = NoData | Str(s: string) | Ulong(n: u32) | Flag(on: bool) | Binary(b: seq<u8>)

  datatype Xml = Xml(tag: Tag, attrs: map<AttrName, Attr>, data: Data, children: seq<Xml>)

  const SINT: nat := 1
  const UINT: nat := 2
  const BOOL: nat := 3
  const ASTR: nat := 4
  const BSTR: nat := 5
  const HCXT: nat := 6
  const ENUM: nat := 7

  const TYPES: seq<string> := ["sint", "uint", "bool", "astr", "bstr", "hcxt", "enum"]

  const IP4_ADDR: nat := 2
  const MAC_ADDR: nat := 3
  const IP4_ADDR_LIST: nat := 4
  const CALENDAR_TIME: nat := 9
  const SINT_LIST: nat := 14
  const UINT_LIST: nat := 15

  /** The names content types are written with, and the ones of older files. */
  const CONTENTS: seq<string> :=
    ["int", "uint", "bool", "datetime", "base64", "long", "ulong", "float",
     "double", "byte", "none", "unknown1", "unknown2", "unknown3", "unknown4", "unknown5"]
  const OLD_CONTENTS: seq<string> :=
    ["mapped", "ip4Addr", "macAddr", "ip4AddrList", "port", "seconds", "minutes",
     "hours", "calendar", "password", "masked", "button", "switch", "sintList", "uintList"]
  const CONTENT_TOTAL: nat := 15

  /** `DEFAULT_RRO_PERMISSION`; its value plays no part. */
  const ALL_ACCESS: u32 := 0xFFFF_FFFF

  /** The size of the text buffers of the writers. */
  const TEXT_BUFFER: nat := 64

  // ---------- names of types ----------

  function LowerChar(c: char): char {
    if 'A' <= c <= 'Z' then (c as int - 'A' as int + 'a' as int) as char else c
  }

  predicate SameNoCase(a: string, b: string) {
    |a| == |b| && forall i :: 0 <= i < |a| ==> LowerChar(a[i]) == LowerChar(b[i])
  }

  /** One more than the index of the first name that matches, or 0. */
  function Position(names: seq<string>, s: string): (k: nat)
    ensures k <= |names|
    ensures k > 0 ==> SameNoCase(names[k - 1], s)
    ensures forall i :: 0 <= i < |names| && (k > 0 ==> i < k - 1) ==> !SameNoCase(names[i], s)
  {
    PositionFrom(names, s, 0)
  }

  function PositionFrom(names: seq<string>, s: string, from: nat): (k: nat)
    requires from <= |names|
    ensures k == 0 || from < k <= |names|
    ensures k > 0 ==> SameNoCase(names[k - 1], s)
    ensures forall i :: from <= i < |names| && (k > 0 ==> i < k - 1) ==> !SameNoCase(names[i], s)
    decreases |names| - from
  {
    if from == |names| then 0
    else if SameNoCase(names[from], s) then from + 1
    else PositionFrom(names, s, from + 1)
  }

  /** `getRecordContentTypeFromString`: the new names, then the old ones; 0 is the default. */
  function ContentOf(s: string): nat {
    var k := Position(CONTENTS[..CONTENT_TOTAL], s);
    if k > 0 then k else Position(OLD_CONTENTS, s)
  }

  predicate Lower(s: string) {
    forall i :: 0 <= i < |s| ==> LowerChar(s[i]) == s[i]
  }

  /** Lower-case names that are pairwise different find their own position. */
  lemma PositionOfOwn(names: seq<string>, i: nat)
    requires i < |names| && forall j :: 0 <= j < |names| ==> Lower(names[j])
    requires forall j :: 0 <= j < |names| && j != i ==> names[j] != names[i]
    ensures Position(names, names[i]) == i + 1
  {
    forall j | 0 <= j < |names| && j != i ensures !SameNoCase(names[j], names[i]) {
      if SameNoCase(names[j], names[i]) {
        SameLowerIsEqual(names[j], names[i]);
      }
    }
    PositionOfUnlike(names, i);
  }

  lemma PositionOfUnlike(names: seq<string>, i: nat)
    requires i < |names| && forall j :: 0 <= j < |names| && j != i ==> !SameNoCase(names[j], names[i])
    ensures Position(names, names[i]) == i + 1
  {
    var k := Position(names, names[i]);
    hide LowerChar;
    assert SameNoCase(names[i], names[i]);
    assert k != 0;
  }

  lemma SameLowerIsEqual(a: string, b: string)
    requires Lower(a) && Lower(b) && SameNoCase(a, b)
    ensures a == b
  {
    hide LowerChar;
    assert forall i :: 0 <= i < |a| ==> a[i] == LowerChar(a[i]) == LowerChar(b[i]) == b[i];
  }

  /** What tells the names of a table apart: the length, the first and the last character. */
  function Key(s: string): (nat, char, char)
    requires s != ""
  {
    (|s|, s[0], s[|s| - 1])
  }

  lemma TypeNames()
    ensures forall i :: 0 <= i < 7 ==> Lower(TYPES[i]) && TYPES[i] != ""
    ensures forall i, j :: 0 <= i < j < 7 ==> TYPES[i] != TYPES[j]
  {
    var ks := [(4, 's', 't'), (4, 'u', 't'), (4, 'b', 'l'), (4, 'a', 'r'), (4, 'b', 'r'), (4, 'h', 't'), (4, 'e', 'm')];
    assert forall i :: 0 <= i < 7 ==> Key(TYPES[i]) == ks[i];
    assert forall i, j :: 0 <= i < j < 7 ==> ks[i] != ks[j];
  }

  const CONTENT_KEYS: seq<(nat, char, char)> :=
    [(3, 'i', 't'), (4, 'u', 't'), (4, 'b', 'l'), (8, 'd', 'e'), (6, 'b', '4'),
     (4, 'l', 'g'), (5, 'u', 'g'), (5, 'f', 't'), (6, 'd', 'e'), (4, 'b', 'e'),
     (4, 'n', 'e'), (8, 'u', '1'), (8, 'u', '2'), (8, 'u', '3'), (8, 'u', '4')]

  lemma ContentKeys()
    ensures forall i :: 0 <= i < 15 ==> CONTENTS[i] != "" && Key(CONTENTS[i]) == CONTENT_KEYS[i]
  {
  }

  lemma ContentKeysDiffer()
    ensures forall i, j :: 0 <= i < j < 15 ==> CONTENT_KEYS[i] != CONTENT_KEYS[j]
  {
  }

  lemma ContentNames()
    ensures forall i :: 0 <= i < 15 ==> Lower(CONTENTS[i]) && CONTENTS[i] != ""
    ensures forall i, j :: 0 <= i < j < 15 ==> CONTENTS[i] != CONTENTS[j]
  {
    ContentKeys();
    ContentKeysDiffer();
    ContentsLower();
    assert |CONTENTS| == 16 && |CONTENT_KEYS| == 15;
    hide CONTENTS, CONTENT_KEYS, Lower;
  }

  lemma ContentsLower()
    ensures forall i :: 0 <= i < 15 ==> Lower(CONTENTS[i])
  {
  }

  lemma TypeRoundTrip(t: nat)
    requires 1 <= t <= 7
    ensures Position(TYPES, TYPES[t - 1]) == t
  {
    TypeNames();
    hide Lower;
    PositionOfOwn(TYPES, t - 1);
  }

  /** A content type comes back from its name exactly when it is one of the first fifteen. */
  lemma ContentRoundTripIff(c: nat)
    requires 1 <= c <= |CONTENTS|
    ensures ContentOf(CONTENTS[c - 1]) == c <==> c <= CONTENT_TOTAL
  {
    if c <= CONTENT_TOTAL {
      ContentNames();
      hide Lower;
      var names := CONTENTS[..CONTENT_TOTAL];
      assert names[c - 1] == CONTENTS[c - 1];
      PositionOfOwn(names, c - 1);
    }
  }

  // ---------- values in memory ----------

  /** A ULONG in memory (little-endian; loading undoes it, so the order plays no part). */
  function LongBytes(n: u32): (b: seq<u8>)
    ensures |b| == 4
  {
    [n % 256, n / 256 % 256, n / 65536 % 256, n / 16777216]
  }

  function LongAt(b: seq<u8>): u32
    requires |b| >= 4
  {
    (b[0] as int) + 256 * (b[1] as int) + 65536 * (b[2] as int) + 16777216 * (b[3] as int)
  }

  lemma LongBytesAt(b: seq<u8>)
    requires |b| == 4
    ensures LongBytes(LongAt(b)) == b
  {
    var n, b0: int, b1: int, b2: int, b3: int := LongAt(b), b[0], b[1], b[2], b[3];
    assert n == b0 + 256 * (b1 + 256 * b2 + 65536 * b3);
    assert n / 256 == b1 + 256 * (b2 + 256 * b3);
    assert n / 65536 == b2 + 256 * b3;
    assert n / 16777216 == b3;
  }

  function LongsIn(b: seq<u8>): (xs: seq<u32>)
    requires |b| % 4 == 0
    ensures |xs| == |b| / 4
  {
    if b == [] then [] else [LongAt(b)] + LongsIn(b[4..])
  }

  function BytesOf(xs: seq<u32>): (b: seq<u8>)
    ensures |b| == 4 * |xs|
  {
    if xs == [] then [] else LongBytes(xs[0]) + BytesOf(xs[1..])
  }

  lemma {:induction false} BytesOfLongs(b: seq<u8>)
    requires |b| % 4 == 0
    ensures BytesOf(LongsIn(b)) == b
    decreases b
  {
    if b == [] {
    } else {
      LongBytesAt(b[..4]);
      BytesOfLongs(b[4..]);
      hide LongBytes, LongAt;
      LongAtFront(b);
      assert b[..4] + b[4..] == b;
    }
  }

  lemma LongAtFront(b: seq<u8>)
    requires |b| >= 4
    ensures LongAt(b) == LongAt(b[..4])
  {
  }

  lemma {:induction false} BytesOfInjective(xs: seq<u32>, ys: seq<u32>)
    requires BytesOf(xs) == BytesOf(ys)
    ensures xs == ys
    decreases xs
  {
    if xs != [] && ys != [] {
      assert LongBytes(xs[0]) == BytesOf(xs)[..4] == BytesOf(ys)[..4] == LongBytes(ys[0]);
      LongBytesInjective(xs[0], ys[0]);
      assert BytesOf(xs[1..]) == BytesOf(xs)[4..] == BytesOf(ys)[4..] == BytesOf(ys[1..]);
      hide LongBytes;
      BytesOfInjective(xs[1..], ys[1..]);
    }
  }

  lemma LongBytesInjective(m: u32, n: u32)
    requires LongBytes(m) == LongBytes(n)
    ensures m == n
  {
    LongSplit(m);
    LongSplit(n);
    assert LongBytes(m)[0] == LongBytes(n)[0] && LongBytes(m)[1] == LongBytes(n)[1];
    assert LongBytes(m)[2] == LongBytes(n)[2] && LongBytes(m)[3] == LongBytes(n)[3];
  }

  lemma LongSplit(n: u32)
    ensures n == n % 256 + 256 * (n / 256 % 256) + 65536 * (n / 65536 % 256) + 16777216 * (n / 16777216)
  {
    assert n / 256 / 256 == n / 65536 && n / 65536 / 256 == n / 16777216;
  }

  function Chars(b: seq<u8>): (s: string)
    ensures |s| == |b|
    ensures forall i :: 0 <= i < |b| ==> s[i] as int == b[i]
  {
    seq(|b|, i requires 0 <= i < |b| => b[i] as char)
  }

  /** The bytes of a text; the texts of a document are made of bytes. */
  function Codes(s: string): (b: seq<u8>)
    ensures |b| == |s|
    ensures forall i :: 0 <= i < |s| ==> b[i] == s[i] as int % 256
  {
    seq(|s|, i requires 0 <= i < |s| => s[i] as int % 256)
  }

  // ---------- writing ----------

  predicate IsLong(rtype: nat) {
    rtype == SINT || rtype == UINT || rtype == HCXT
  }

  /** The memory the writer reads is there: a long, a boolean, four address bytes, or a time. */
  predicate Sized(r: Record) {
    && 1 <= r.rtype <= 7 && r.ctype <= |CONTENTS|
    && (if r.rtype == BSTR && r.ctype == CALENDAR_TIME then r.data.Time? else r.data.Bytes?)
    && (IsLong(r.rtype) || (r.rtype == BSTR && r.ctype == IP4_ADDR) ==> |r.data.b| >= 4)
    && (r.rtype == BOOL ==> |r.data.b| >= 1)
    && (r.rtype == BSTR && r.ctype == MAC_ADDR ==> 3 * |r.data.b| <= TEXT_BUFFER)
    && (r.rtype == BSTR && (r.ctype == SINT_LIST || r.ctype == UINT_LIST) && IntListTaken(r.data.b) ==>
          |WriteInts(LongsIn(r.data.b))| < TEXT_BUFFER)
  }

  /** The lengths `writeIntList` takes: whole longs, at most 64 bytes. */
  predicate IntListTaken(b: seq<u8>) {
    |b| % 4 == 0 && |b| <= 64
  }

  /** The data set on the node; a refused or empty list sets none, and an enum has no writer. */
  function WriteData(r: Record): Data
    requires Sized(r)
  {
    if IsLong(r.rtype) then
      if r.ctype == IP4_ADDR then Str(WriteIp(r.data.b[..4])) else Ulong(LongAt(r.data.b))
    else if r.rtype == BOOL then Flag(r.data.b[0] != 0)
    else if r.rtype == ASTR then Str(Chars(r.data.b))
    else if r.rtype == BSTR then WriteBinary(r.ctype, r.data)
    else NoData
  }

  function WriteBinary(ctype: nat, data: Payload): Data
    requires if ctype == CALENDAR_TIME then data.Time? else data.Bytes?
    requires ctype == IP4_ADDR ==> |data.b| >= 4
  {
    if ctype == IP4_ADDR then Str(WriteIp(data.b[..4]))
    else if ctype == MAC_ADDR then Str(WriteMac(data.b))
    else if ctype == CALENDAR_TIME then Str(WriteCalendar(data.t.fields))
    else if ctype == SINT_LIST || ctype == UINT_LIST then
      if data.b == [] || !IntListTaken(data.b) then NoData else Str(WriteInts(LongsIn(data.b)))
    else if ctype == IP4_ADDR_LIST then
      if data.b == [] || |data.b| % 4 != 0 then NoData else Str(WriteIps(data.b))
    else Binary(data.b)
  }

  /** `addRecordToXMLHandle2`: the permission is not written. */
  function WriteRecord(r: Record): Xml
    requires Sized(r)
  {
    var attrs := map[NameAttr := Text(r.name), TypeAttr := Text(TYPES[r.rtype - 1])];
    Xml(RecordTag, if r.ctype == 0 then attrs else attrs[ContentAttr := Text(CONTENTS[r.ctype - 1])], WriteData(r), [])
  }

  // ---------- loading ----------

  /**
   What loading a node does: a record is added, nothing is added but success reported, the
   load fails, or the outcome rests on what the document library does with other data.
   */
  datatype Outcome = Added(r: Record) | Skipped | Failed | Unseen

  /** A text attribute read into a buffer of `cap + 1` characters. */
  function TextAttr(attrs: map<AttrName, Attr>, name: AttrName, cap: nat): Option<string> {
    if name in attrs && attrs[name].Text? && |attrs[name].s| <= cap then Some(attrs[name].s) else None
  }

  /** The permission, or the one there is without the attribute. */
  function AccessOf(attrs: map<AttrName, Attr>, default: u32): u32 {
    if AccessAttr in attrs && attrs[AccessAttr].Num? then attrs[AccessAttr].n else default
  }

  /**
   A text read into the loader's buffer of `cap + 1` characters: an empty one ends the load of
   the record with the status of reading it, and what reading a longer one reports is not seen.
   */
  function Unread(s: string, cap: nat): Option<Value> {
    if s == "" then Some(NoValue) else if |s| > cap then Some(OtherData) else None
  }

  /** The outcome of the value alone: the payload that would be added, or why none is. */
  datatype Value = Got(p: Payload) | NoValue | BadValue | OtherData

  function LoadIp(d: Data, cap: nat): Value {
    if !d.Str? then OtherData
    else if Unread(d.s, cap).Some? then Unread(d.s, cap).value
    else match ParseIp(d.s) case None => BadValue case Some(b) => Got(Bytes(b))
  }

  /** `loadRecordFromXML` on the value of a node of the given types. */
  function LoadValue(rtype: nat, ctype: nat, d: Data, cap: nat): Value {
    if IsLong(rtype) || rtype == ENUM then
      if ctype == IP4_ADDR then LoadIp(d, cap)
      else if d.Ulong? then Got(Bytes(LongBytes(d.n))) else OtherData
    else if rtype == BOOL then
      if d.Flag? then Got(Bytes([if d.on then 1 else 0])) else OtherData
    else if rtype == ASTR then
      if d.Str? then Got(Bytes(Codes(d.s))) else OtherData
    else LoadBinary(ctype, d, cap)
  }

  function LoadBinary(ctype: nat, d: Data, cap: nat): Value {
    if ctype == IP4_ADDR then LoadIp(d, cap)
    else if ctype == CALENDAR_TIME then
      if !d.Str? then OtherData
      else if Unread(d.s, cap).Some? then Unread(d.s, cap).value
      else
        match ScanFields(d.s, 6)
        case None => OtherData
        case Some(f) =>
          if |f| != 6 then OtherData
          else Got(Time(UniversalTime(Calendar(f[0], f[1], f[2], f[3], f[4], f[5]), 0, false)))
    else if ctype == SINT_LIST || ctype == UINT_LIST then
      if !d.Str? || |d.s| > cap then OtherData
      else match ParseInts(d.s) case None => Got(Bytes([])) case Some(xs) => Got(Bytes(BytesOf(xs)))
    else if ctype == IP4_ADDR_LIST then
      if !d.Str? then OtherData
      else if Unread(d.s, cap).Some? then Unread(d.s, cap).value
      else match ParseIps(d.s) case None => Got(Bytes([])) case Some(b) => Got(Bytes(b))
    else if ctype == MAC_ADDR then
      if !d.Str? then OtherData
      else if Unread(d.s, cap).Some? then Unread(d.s, cap).value
      else match DecodeMac(d.s) case MacOk(b) => Got(Bytes(b)) case _ => BadValue
    else if d.Binary? then Got(Bytes(d.b)) else OtherData
  }

  /** `loadRecordFromXML`; `cap` is SYS_MAX_RECORD_NAME_SIZE. */
  function LoadRecord(x: Xml, cap: nat): Outcome {
    var name := TextAttr(x.attrs, NameAttr, cap);
    var rtype := TypeOfNode(x.attrs, cap);
    if name.None? || rtype == 0 then Failed
    else
      var ctype := ContentOfNode(x.attrs, cap);
      OutcomeOf(LoadValue(rtype, ctype, x.data, cap), name.value, rtype, ctype, AccessOf(x.attrs, ALL_ACCESS))
  }

  /** The record type a node names; none is taken for a signed integer, an unknown one is 0. */
  function TypeOfNode(attrs: map<AttrName, Attr>, cap: nat): nat {
    var typeName := TextAttr(attrs, TypeAttr, cap);
    if typeName.None? then SINT else Position(TYPES, typeName.value)
  }

  function ContentOfNode(attrs: map<AttrName, Attr>, cap: nat): nat {
    var content := TextAttr(attrs, ContentAttr, cap);
    if content.None? then 0 else ContentOf(content.value)
  }

  function OutcomeOf(v: Value, name: string, rtype: nat, ctype: nat, permission: u32): Outcome {
    match v
    case Got(p) => Added(Record(name, rtype, ctype, permission, p))
    case NoValue => Skipped
    case BadValue => Failed
    case OtherData => Unseen
  }

  // ---------- which records come back ----------

  /**
   The value survives: longs and addresses of exactly four bytes, booleans 0 or 1, times
   without milliseconds or daylight saving, integer lists without a number above 2^31 - 1,
   and lists of addresses whose text the loader's buffer holds.
   */
  ghost predicate ValueSurvives(r: Record, cap: nat)
    requires Sized(r)
  {
    if r.rtype == ENUM then false
    else if IsLong(r.rtype) then |r.data.b| == 4
    else if r.rtype == BOOL then r.data.b == [0] || r.data.b == [1]
    else if r.rtype == ASTR then true
    else if r.ctype == IP4_ADDR then |r.data.b| == 4
    else if r.ctype == CALENDAR_TIME then r.data.t.milliSecond == 0 && !r.data.t.dayLightSaving
    else if r.ctype == SINT_LIST || r.ctype == UINT_LIST then
      |r.data.b| % 4 == 0 && forall i :: 0 <= i < |r.data.b| / 4 ==> LongsIn(r.data.b)[i] <= LONG_MAX
    else if r.ctype == IP4_ADDR_LIST then |r.data.b| % 4 == 0 && |WriteIps(r.data.b)| <= cap
    else true
  }

  /** Enums, empty or refused lists and empty MAC addresses are left to the document library. */
  predicate HasWriter(r: Record) {
    && r.rtype != ENUM
    && (r.rtype == BSTR && r.data.Bytes? ==>
          && (r.ctype == SINT_LIST || r.ctype == UINT_LIST ==> r.data.b != [] && IntListTaken(r.data.b))
          && (r.ctype == IP4_ADDR_LIST ==> r.data.b != [] && |r.data.b| % 4 == 0)
          && (r.ctype == MAC_ADDR ==> r.data.b != []))
  }

  /** The records that come back as they were. */
  ghost predicate Faithful(r: Record, cap: nat)
    requires Sized(r)
  {
    && |r.name| <= cap && r.ctype <= CONTENT_TOTAL && r.permission == ALL_ACCESS
    && ValueSurvives(r, cap)
  }

  lemma CodesOfChars(b: seq<u8>)
    ensures Codes(Chars(b)) == b
  {
  }

  lemma LongValueIff(r: Record, cap: nat)
    requires Sized(r) && IsLong(r.rtype) && cap >= TEXT_BUFFER
    ensures LoadValue(r.rtype, r.ctype, WriteData(r), cap) == Got(r.data) <==> |r.data.b| == 4
  {
    var b := r.data.b;
    IpRoundTrip(b[..4]);
    IpLength(b[..4]);
    if |b| == 4 {
      LongBytesAt(b);
      assert b[..4] == b;
    }
    hide LongBytes, LongAt, WriteIp, ParseIp;
  }

  lemma BinaryIpIff(b: seq<u8>, cap: nat)
    requires |b| >= 4 && cap >= TEXT_BUFFER
    ensures LoadBinary(IP4_ADDR, WriteBinary(IP4_ADDR, Bytes(b)), cap) == Got(Bytes(b)) <==> |b| == 4
  {
    IpRoundTrip(b[..4]);
    IpLength(b[..4]);
    assert |b| == 4 ==> b[..4] == b;
    hide WriteIp, ParseIp;
  }

  lemma BinaryMac(b: seq<u8>, cap: nat)
    requires b != [] && 3 * |b| <= TEXT_BUFFER && cap >= TEXT_BUFFER
    ensures LoadBinary(MAC_ADDR, WriteBinary(MAC_ADDR, Bytes(b)), cap) == Got(Bytes(b))
  {
    MacRoundTrip(b);
    hide WriteMac, DecodeMac;
  }

  lemma BinaryTimeIff(t: UniversalTime, cap: nat)
    requires cap >= TEXT_BUFFER
    ensures LoadBinary(CALENDAR_TIME, WriteBinary(CALENDAR_TIME, Time(t)), cap) == Got(Time(t))
       <==> t.milliSecond == 0 && !t.dayLightSaving
  {
    CalendarRoundTrip(t.fields);
    CalendarLength(t.fields);
    hide WriteCalendar, ScanFields;
  }

  /** The list that comes back, before asking whether it is the one written. */
  lemma BinaryIntsRead(ctype: nat, b: seq<u8>, cap: nat)
    requires ctype == SINT_LIST || ctype == UINT_LIST
    requires b != [] && IntListTaken(b) && |WriteInts(LongsIn(b))| < TEXT_BUFFER && cap >= TEXT_BUFFER
    ensures LoadBinary(ctype, WriteBinary(ctype, Bytes(b)), cap) == Got(Bytes(BytesOf(Saturated(LongsIn(b)))))
  {
    hide ParseInts, WriteInts, LongsIn, BytesOf;
    IntsComeBackSaturated(LongsIn(b));
  }

  lemma SaturatedIff(b: seq<u8>)
    requires b != [] && |b| % 4 == 0
    ensures BytesOf(Saturated(LongsIn(b))) == b <==> forall i :: 0 <= i < |b| / 4 ==> LongsIn(b)[i] <= LONG_MAX
  {
    hide *;
    var xs := LongsIn(b);
    BytesOfLongs(b);
    if BytesOf(Saturated(xs)) == b {
      BytesOfInjective(Saturated(xs), xs);
    }
    SaturatedSame(xs);
  }

  lemma SaturatedSame(xs: seq<u32>)
    ensures Saturated(xs) == xs <==> forall i :: 0 <= i < |xs| ==> xs[i] <= LONG_MAX
  {
    if Saturated(xs) == xs {
      forall i | 0 <= i < |xs| ensures xs[i] <= LONG_MAX {
        assert Saturated(xs)[i] == xs[i];
      }
    }
  }

  lemma BinaryIntsIff(ctype: nat, b: seq<u8>, cap: nat)
    requires ctype == SINT_LIST || ctype == UINT_LIST
    requires b != [] && IntListTaken(b) && |WriteInts(LongsIn(b))| < TEXT_BUFFER && cap >= TEXT_BUFFER
    ensures LoadBinary(ctype, WriteBinary(ctype, Bytes(b)), cap) == Got(Bytes(b))
       <==> forall i :: 0 <= i < |b| / 4 ==> LongsIn(b)[i] <= LONG_MAX
  {
    assert |b| % 4 == 0;
    hide LoadBinary, WriteBinary, IntListTaken, LongsIn, BytesOf, Saturated, WriteInts;
    BinaryIntsRead(ctype, b, cap);
    SaturatedIff(b);
  }

  lemma BinaryIpsIff(b: seq<u8>, cap: nat)
    requires b != [] && |b| % 4 == 0
    ensures LoadBinary(IP4_ADDR_LIST, WriteBinary(IP4_ADDR_LIST, Bytes(b)), cap) == Got(Bytes(b))
       <==> |WriteIps(b)| <= cap
  {
    IpsRoundTrip(b);
    IpsNotEmpty(b);
    hide ParseIps, WriteIps;
  }

  lemma IpsNotEmpty(b: seq<u8>)
    requires b != [] && |b| % 4 == 0
    ensures WriteIps(b) != ""
  {
    IpLength(b[..4]);
    hide WriteIp;
    JoinNotEmpty(IpTexts(b), ',');
  }

  /** Whatever is not set apart by its types survives as it is; the others exactly when they meet their condition. */
  lemma ValueIff(r: Record, cap: nat)
    requires Sized(r) && HasWriter(r) && cap >= TEXT_BUFFER
    ensures LoadValue(r.rtype, r.ctype, WriteData(r), cap) == Got(r.data) <==> ValueSurvives(r, cap)
  {
    hide WriteIp, WriteIps, WriteInts, WriteMac, WriteCalendar, ParseIp, ParseInts, ParseIps, DecodeMac, ScanFields;
    if IsLong(r.rtype) {
      LongValueIff(r, cap);
    } else if r.rtype == ASTR {
      CodesOfChars(r.data.b);
    } else if r.rtype == BSTR {
      BinaryIff(r, cap);
    }
  }

  lemma BinaryIff(r: Record, cap: nat)
    requires Sized(r) && HasWriter(r) && r.rtype == BSTR && cap >= TEXT_BUFFER
    ensures LoadBinary(r.ctype, WriteBinary(r.ctype, r.data), cap) == Got(r.data) <==> ValueSurvives(r, cap)
  {
    match r.data {
      case Time(t) => BinaryTimeIff(t, cap);
      case Bytes(b) =>
        if r.ctype == IP4_ADDR {
          BinaryIpIff(b, cap);
        } else if r.ctype == MAC_ADDR {
          BinaryMac(b, cap);
        } else if r.ctype == SINT_LIST || r.ctype == UINT_LIST {
          BinaryIntsIff(r.ctype, b, cap);
        } else if r.ctype == IP4_ADDR_LIST {
          BinaryIpsIff(b, cap);
        }
    }
  }

  // ---------- the record round trip ----------

  lemma NamesAreShort()
    ensures forall i :: 0 <= i < |TYPES| ==> |TYPES[i]| <= 4
    ensures forall i :: 0 <= i < |CONTENTS| ==> |CONTENTS[i]| <= 8
  {
  }

  /** The content type a written record is read with. */
  function ContentBack(ctype: nat): nat
    requires ctype <= |CONTENTS|
  {
    if ctype == 0 then 0 else ContentOf(CONTENTS[ctype - 1])
  }

  lemma WrittenAttrs(r: Record, cap: nat)
    requires Sized(r) && cap >= TEXT_BUFFER
    ensures TextAttr(WriteRecord(r).attrs, NameAttr, cap) == if |r.name| <= cap then Some(r.name) else None
    ensures TextAttr(WriteRecord(r).attrs, TypeAttr, cap) == Some(TYPES[r.rtype - 1])
    ensures TextAttr(WriteRecord(r).attrs, ContentAttr, cap) ==
            if r.ctype == 0 then None else Some(CONTENTS[r.ctype - 1])
    ensures AccessOf(WriteRecord(r).attrs, ALL_ACCESS) == ALL_ACCESS
  {
    NamesAreShort();
    assert |TYPES| == 7 && |CONTENTS| == 16;
    assert |TYPES[r.rtype - 1]| <= 4;
    hide WriteData, CONTENTS, TYPES;
  }

  lemma WrittenTypes(r: Record, cap: nat)
    requires Sized(r) && cap >= TEXT_BUFFER
    ensures TypeOfNode(WriteRecord(r).attrs, cap) == r.rtype
    ensures ContentOfNode(WriteRecord(r).attrs, cap) == ContentBack(r.ctype)
  {
    hide WriteRecord, TextAttr, Position, ContentOf, CONTENTS, TYPES, WriteData, SameNoCase;
    WrittenAttrs(r, cap);
    TypeRoundTrip(r.rtype);
  }

  /** What loading a written node comes to: its own name and type, and the content type of its name. */
  lemma LoadOfWritten(r: Record, cap: nat)
    requires Sized(r) && cap >= TEXT_BUFFER
    ensures LoadRecord(WriteRecord(r), cap) ==
              if |r.name| > cap then Failed
              else OutcomeOf(LoadValue(r.rtype, ContentBack(r.ctype), WriteData(r), cap),
                             r.name, r.rtype, ContentBack(r.ctype), ALL_ACCESS)
  {
    WrittenAttrs(r, cap);
    WrittenTypes(r, cap);
    assert WriteRecord(r).data == WriteData(r);
    hide LoadValue, WriteData, ContentBack, TypeOfNode, ContentOfNode, TextAttr, AccessOf;
    hide OutcomeOf, WriteRecord, Sized;
  }

  /**
   A record that has a writer comes back as it was exactly when its name fits the loader's
   buffer, its content type is not the sixteenth, its permission is the default one (it is
   never written), and its value survives.
   */
  lemma RecordRoundTripIff(r: Record, cap: nat)
    requires Sized(r) && HasWriter(r) && cap >= TEXT_BUFFER
    ensures LoadRecord(WriteRecord(r), cap) == Added(r) <==> Faithful(r, cap)
  {
    assert |CONTENTS| == 16;
    hide LoadValue, WriteData, ContentOf, CONTENTS, ValueSurvives, LoadRecord, WriteRecord, HasWriter;
    LoadOfWritten(r, cap);
    ValueIff(r, cap);
    if r.ctype > 0 {
      ContentRoundTripIff(r.ctype);
    }
  }
}
