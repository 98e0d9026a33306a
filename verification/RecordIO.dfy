/**
 The record routines of source/PsmFileLoader/psm_flo_parse.c as they run: values are read
 through a text buffer in which the decoders work in place.
 */
module RecordIO {
  import opened CStrings
  import opened Numbers
  import opened ValueCodecs
  import opened MacCalendar
  import opened RecordXml
  import opened XmlNodes
  import ValueDecoders
  import ValueBuffers

  /** A document holds no NUL in a text. */
  predicate NoNul(d: Data) {
    d.Str? ==> NUL !in d.s
  }

  /** `AnscXmlDomNodeGetDataString` into the loader's buffer. */
  method TextBuffer(s: string, cap: nat) returns (buf: array<char>)
    requires |s| <= cap && NUL !in s
    ensures fresh(buf) && buf.Length == cap + 1
    ensures StrEnd(buf[..], 0) == |s| && buf[..][0..|s|] == s && buf[..|s|] == s
  {
    buf := new char[cap + 1](i requires 0 <= i <= cap => if i < |s| then s[i] else NUL);
    StrEndIs(buf[..], 0, |s|);
    hide StrEnd;
    assert buf[..][0..|s|] == s && buf[..|s|] == s;
  }

  method ReadIp(d: Data, cap: nat) returns (v: Value)
    requires NoNul(d)
    ensures v == LoadIp(d, cap)
  {
    hide ParseIp, StrEnd;
    if !d.Str? {
      return OtherData;
    }
    if |d.s| == 0 || |d.s| > cap {
      return Unread(d.s, cap).value;
    }
    var buf := TextBuffer(d.s, cap);
    var address := new u8[4];
    var ok := ValueDecoders.DecodeIpAddr(buf, 0, |d.s|, address, 0);
    if !ok {
      return BadValue;
    }
    v := Got(Bytes(address[..]));
    assert address[..] == address[0..4];
  }

  method ReadInts(ctype: nat, d: Data, cap: nat) returns (v: Value)
    requires NoNul(d) && (ctype == SINT_LIST || ctype == UINT_LIST)
    ensures v == LoadBinary(ctype, d, cap)
  {
    hide ParseInts, StrEnd, BytesOf;
    if !d.Str? || |d.s| > cap {
      return OtherData;
    }
    var buf := TextBuffer(d.s, cap);
    var found, longs := ValueDecoders.DecodeIntList(buf, |d.s|);
    v := Got(Bytes(if found then BytesOf(longs[..]) else []));
  }

  method ReadIps(d: Data, cap: nat) returns (v: Value)
    requires NoNul(d)
    ensures v == LoadBinary(IP4_ADDR_LIST, d, cap)
  {
    hide ParseIps, StrEnd;
    if !d.Str? {
      return OtherData;
    }
    if |d.s| == 0 || |d.s| > cap {
      return Unread(d.s, cap).value;
    }
    var buf := TextBuffer(d.s, cap);
    var found, bytes := ValueDecoders.DecodeIp4AddrList(buf, |d.s|);
    v := Got(Bytes(if found then bytes[..] else []));
  }

  /** The address is decoded over its own text and taken from there. */
  method ReadMac(d: Data, cap: nat) returns (v: Value)
    requires NoNul(d)
    ensures v == LoadBinary(MAC_ADDR, d, cap)
  {
    hide DecodeMac, StrEnd;
    if !d.Str? {
      return OtherData;
    }
    if |d.s| == 0 || |d.s| > cap {
      return Unread(d.s, cap).value;
    }
    var buf := TextBuffer(d.s, cap);
    var r, size := ValueBuffers.DecodeMacAddress(buf, |d.s|);
    if !r.MacOk? {
      return BadValue;
    }
    v := Got(Bytes(Codes(buf[..size])));
    assert Codes(buf[..size]) == r.data;
  }

  /** A text the scan would run past is left to what lies behind it in memory. */
  method ReadCalendar(d: Data, cap: nat) returns (v: Value)
    requires NoNul(d)
    ensures v == LoadBinary(CALENDAR_TIME, d, cap)
  {
    hide ScanFields, StrEnd;
    if !d.Str? {
      return OtherData;
    }
    if |d.s| == 0 || |d.s| > cap {
      return Unread(d.s, cap).value;
    }
    if ScanFields(d.s, 6).None? {
      return OtherData;
    }
    var buf := TextBuffer(d.s, cap);
    var date := ValueBuffers.DecodeCalendar(buf, |d.s|);
    v := Got(Time(UniversalTime(Calendar(date[0], date[1], date[2], date[3], date[4], date[5]), 0, false)));
  }

  /** The value part of `loadRecordFromXML`. */
  method ReadValue(rtype: nat, ctype: nat, d: Data, cap: nat) returns (v: Value)
    requires NoNul(d)
    ensures v == LoadValue(rtype, ctype, d, cap)
  {
    hide LoadIp, NoNul;
    if rtype == SINT || rtype == UINT || rtype == HCXT || rtype == ENUM {
      if ctype == IP4_ADDR {
        v := ReadIp(d, cap);
      } else {
        v := if d.Ulong? then Got(Bytes(LongBytes(d.n))) else OtherData;
      }
    } else if rtype == BOOL {
      v := if d.Flag? then Got(Bytes([if d.on then 1 else 0])) else OtherData;
    } else if rtype == ASTR {
      v := if d.Str? then Got(Bytes(Codes(d.s))) else OtherData;
    } else if ctype == IP4_ADDR {
      v := ReadIp(d, cap);
    } else if ctype == CALENDAR_TIME {
      v := ReadCalendar(d, cap);
    } else if ctype == SINT_LIST || ctype == UINT_LIST {
      v := ReadInts(ctype, d, cap);
    } else if ctype == IP4_ADDR_LIST {
      v := ReadIps(d, cap);
    } else if ctype == MAC_ADDR {
      v := ReadMac(d, cap);
    } else {
      v := LoadBinary(ctype, d, cap);
    }
  }

  /** `writeIntList`: no text for an empty list or one of a length it refuses. */
  method WriteIntList(b: seq<u8>) returns (d: Data)
    requires IntListTaken(b) ==> |WriteInts(LongsIn(b))| < TEXT_BUFFER
    ensures d == WriteBinary(SINT_LIST, Bytes(b))
  {
    hide WriteInts, LongsIn;
    if |b| == 0 || |b| % 4 != 0 || |b| > 64 {
      return NoData;
    }
    var text := ValueBuffers.PrintInts(LongsIn(b));
    d := Str(text);
  }

  /** The binary values of `addRecordToXMLHandle2`, each through its writer's buffer. */
  method WriteBstr(r: Record) returns (d: Data)
    requires Sized(r) && r.rtype == BSTR
    ensures d == WriteBinary(r.ctype, r.data)
  {
    hide WriteIps, WriteInts, WriteMac, WriteIp, WriteCalendar, LongsIn;
    if r.ctype == IP4_ADDR {
      var text := ValueBuffers.WriteIp4Address(r.data.b[..4]);
      d := Str(text);
    } else if r.ctype == MAC_ADDR {
      var text := ValueBuffers.WriteMacAddress(r.data.b);
      d := Str(text);
    } else if r.ctype == CALENDAR_TIME {
      var text := ValueBuffers.WriteCalendarTime(r.data.t.fields);
      d := Str(text);
    } else if r.ctype == SINT_LIST || r.ctype == UINT_LIST {
      d := WriteIntList(r.data.b);
    } else if r.ctype == IP4_ADDR_LIST {
      var w := ValueBuffers.WriteIp4AddrList(r.data.b);
      d := match w case Text(s) => Str(s) case _ => NoData;
    } else {
      d := Binary(r.data.b);
    }
  }

  /** The value part of `addRecordToXMLHandle2`. */
  method WriteValue(r: Record) returns (d: Data)
    requires Sized(r)
    ensures d == WriteData(r)
  {
    hide WriteBinary, WriteIp, LongAt, Chars;
    if r.rtype == SINT || r.rtype == UINT || r.rtype == HCXT {
      if r.ctype == IP4_ADDR {
        var text := ValueBuffers.WriteIp4Address(r.data.b[..4]);
        d := Str(text);
      } else {
        d := Ulong(LongAt(r.data.b));
      }
    } else if r.rtype == BOOL {
      d := Flag(r.data.b[0] != 0);
    } else if r.rtype == ASTR {
      d := Str(Chars(r.data.b));
    } else if r.rtype == BSTR {
      d := WriteBstr(r);
    } else {
      d := NoData;
    }
  }

  /** The attributes and the value of a record's node. */
  method FillRecord(r: Record, n: XmlNode)
    requires n.Valid() && Sized(r) && n.value == Xml(RecordTag, map[], NoData, [])
    modifies n`attrs, n`data, n`value
    ensures n.Valid() && n.value == WriteRecord(r)
  {
    assert |TYPES| == 7 && |CONTENTS| == 16;
    hide WriteData, CONTENTS, TYPES;
    n.SetAttr(NameAttr, Text(r.name));
    n.SetAttr(TypeAttr, Text(TYPES[r.rtype - 1]));
    assert n.value.attrs == map[NameAttr := Text(r.name), TypeAttr := Text(TYPES[r.rtype - 1])];
    if r.ctype != 0 {
      n.SetAttr(ContentAttr, Text(CONTENTS[r.ctype - 1]));
    }
    var d := WriteValue(r);
    n.SetData(d);
  }

  /** `addRecordToXMLHandle2`: the node is attached first and filled then. */
  method AddRecordToXml(r: Record, x: XmlNode)
    requires x.Valid() && Sized(r)
    modifies x
    ensures x.Valid() && fresh(x.repr - old(x.repr))
    ensures x.value == old(x.value).(children := old(x.value).children + [WriteRecord(r)])
  {
    hide *;
    var n := x.AttachNew(RecordTag);
    FillRecord(r, n);
    x.Settle(n);
  }
}
