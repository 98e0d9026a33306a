/**
 What the nodes of a document mean to the loader of records and what the writer makes of a
 record's value (source/PsmFileLoader/psm_flo_parse.c), told name by name and type by type.
 */
module NodeLaws {
  import opened CStrings
  import opened Numbers
  import opened ValueCodecs
  import opened MacCalendar
  import opened RecordXml

  // ---------- names of types ----------

  /** The names of types, each a number. */
  lemma TypeNumbers()
    ensures Position(TYPES, "sint") == 1 && Position(TYPES, "uint") == 2 && Position(TYPES, "bool") == 3
    ensures Position(TYPES, "astr") == 4 && Position(TYPES, "bstr") == 5 && Position(TYPES, "hcxt") == 6
    ensures Position(TYPES, "enum") == 7
  {
    hide Position;
    TypeRoundTrip(1);
    TypeRoundTrip(2);
    TypeRoundTrip(3);
    TypeRoundTrip(4);
    TypeRoundTrip(5);
    TypeRoundTrip(6);
    TypeRoundTrip(7);
    assert TYPES[0] == "sint" && TYPES[1] == "uint" && TYPES[2] == "bool" && TYPES[3] == "astr";
    assert TYPES[4] == "bstr" && TYPES[5] == "hcxt" && TYPES[6] == "enum";
  }

  /** A name that is none of a table's, in any case, has no number. */
  lemma NotInTable(names: seq<string>, s: string)
    requires forall i :: 0 <= i < |names| ==> !SameNoCase(names[i], s)
    ensures Position(names, s) == 0
  {
    hide SameNoCase, PositionFrom;
  }

  lemma SameCaseSame(names: seq<string>, s: string, t: string)
    requires SameNoCase(s, t)
    ensures Position(names, s) == Position(names, t)
  {
    forall i | 0 <= i < |names| ensures SameNoCase(names[i], s) <==> SameNoCase(names[i], t) {
      hide LowerChar;
    }
    hide SameNoCase, PositionFrom;
    var a, b := Position(names, s), Position(names, t);
    assert a > 0 ==> SameNoCase(names[a - 1], t);
    assert b > 0 ==> SameNoCase(names[b - 1], s);
  }

  /** The case of a name does not matter. */
  lemma ContentIgnoresCase(s: string, t: string)
    requires SameNoCase(s, t)
    ensures ContentOf(s) == ContentOf(t)
  {
    SameCaseSame(CONTENTS[..CONTENT_TOTAL], s, t);
    SameCaseSame(OLD_CONTENTS, s, t);
    hide Position, SameNoCase, CONTENTS, OLD_CONTENTS;
  }

  /** The names content types are written with. */
  lemma NewNames()
    ensures ContentOf("int") == 1 && ContentOf("uint") == 2 && ContentOf("bool") == 3
    ensures ContentOf("datetime") == 4 && ContentOf("base64") == 5 && ContentOf("long") == 6
    ensures ContentOf("ulong") == 7 && ContentOf("float") == 8 && ContentOf("double") == 9
    ensures ContentOf("byte") == 10 && ContentOf("none") == 11 && ContentOf("unknown1") == 12
    ensures ContentOf("unknown2") == 13 && ContentOf("unknown3") == 14 && ContentOf("unknown4") == 15
  {
    hide ContentOf;
    ContentRoundTripIff(1);
    ContentRoundTripIff(2);
    ContentRoundTripIff(3);
    ContentRoundTripIff(4);
    ContentRoundTripIff(5);
    ContentRoundTripIff(6);
    ContentRoundTripIff(7);
    ContentRoundTripIff(8);
    ContentRoundTripIff(9);
    ContentRoundTripIff(10);
    ContentRoundTripIff(11);
    ContentRoundTripIff(12);
    ContentRoundTripIff(13);
    ContentRoundTripIff(14);
    ContentRoundTripIff(15);
    assert CONTENTS[0] == "int" && CONTENTS[1] == "uint" && CONTENTS[2] == "bool" && CONTENTS[3] == "datetime";
    assert CONTENTS[4] == "base64" && CONTENTS[5] == "long" && CONTENTS[6] == "ulong" && CONTENTS[7] == "float";
    assert CONTENTS[8] == "double" && CONTENTS[9] == "byte" && CONTENTS[10] == "none" && CONTENTS[11] == "unknown1";
    assert CONTENTS[12] == "unknown2" && CONTENTS[13] == "unknown3" && CONTENTS[14] == "unknown4";
  }

  /** What tells the names apart: the length, and the first and third character. */
  function Mark(s: string): (nat, char, char)
    requires |s| >= 3
  {
    (|s|, LowerChar(s[0]), LowerChar(s[2]))
  }

  const NEW_MARKS: seq<(nat, char, char)> :=
    [(3, 'i', 't'), (4, 'u', 'n'), (4, 'b', 'o'), (8, 'd', 't'), (6, 'b', 's'),
     (4, 'l', 'n'), (5, 'u', 'o'), (5, 'f', 'o'), (6, 'd', 'u'), (4, 'b', 't'),
     (4, 'n', 'n'), (8, 'u', 'k'), (8, 'u', 'k'), (8, 'u', 'k'), (8, 'u', 'k')]
  const OLD_MARKS: seq<(nat, char, char)> :=
    [(6, 'm', 'p'), (7, 'i', '4'), (7, 'm', 'c'), (11, 'i', '4'), (4, 'p', 'r'),
     (7, 's', 'c'), (7, 'm', 'n'), (5, 'h', 'u'), (8, 'c', 'l'), (8, 'p', 's'),
     (6, 'm', 's'), (6, 'b', 't'), (6, 's', 'i'), (8, 's', 'n'), (8, 'u', 'n')]

  lemma NewMarks()
    ensures forall i :: 0 <= i < 15 ==> |CONTENTS[i]| >= 3 && Mark(CONTENTS[i]) == NEW_MARKS[i]
  {
  }

  lemma OldMarks()
    ensures forall i :: 0 <= i < 15 ==> |OLD_CONTENTS[i]| >= 3 && Mark(OLD_CONTENTS[i]) == OLD_MARKS[i]
  {
  }

  lemma MarksDiffer()
    ensures forall i, j :: 0 <= i < 15 && 0 <= j < 15 ==> OLD_MARKS[i] != NEW_MARKS[j]
    ensures forall i, j :: 0 <= i < j < 15 ==> OLD_MARKS[i] != OLD_MARKS[j]
  {
  }

  lemma SameMark(a: string, b: string)
    requires |a| >= 3 && SameNoCase(a, b)
    ensures Mark(a) == Mark(b)
  {
    hide LowerChar;
  }

  lemma OldName(c: nat)
    requires 1 <= c <= 15
    ensures ContentOf(OLD_CONTENTS[c - 1]) == c
  {
    var s := OLD_CONTENTS[c - 1];
    NewMarks();
    OldMarks();
    MarksDiffer();
    assert |CONTENTS| == 16 && |OLD_CONTENTS| == 15 && |NEW_MARKS| == 15 && |OLD_MARKS| == 15;
    assert s == OLD_CONTENTS[c - 1];
    hide Mark, SameNoCase, Position, CONTENTS, OLD_CONTENTS, NEW_MARKS, OLD_MARKS;
    forall j | 0 <= j < 15 ensures !SameNoCase(CONTENTS[j], s) {
      if SameNoCase(CONTENTS[j], s) {
        SameMark(CONTENTS[j], s);
      }
    }
    NotInTable(CONTENTS[..15], s);
    forall j | 0 <= j < 15 && j != c - 1 ensures !SameNoCase(OLD_CONTENTS[j], s) {
      if SameNoCase(OLD_CONTENTS[j], s) {
        SameMark(OLD_CONTENTS[j], s);
      }
    }
    PositionOfUnlike(OLD_CONTENTS, c - 1);
  }

  /** The names of older files. */
  lemma OldNames()
    ensures ContentOf("mapped") == 1 && ContentOf("ip4Addr") == 2 && ContentOf("macAddr") == 3
    ensures ContentOf("ip4AddrList") == 4 && ContentOf("port") == 5 && ContentOf("seconds") == 6
    ensures ContentOf("minutes") == 7 && ContentOf("hours") == 8 && ContentOf("calendar") == 9
    ensures ContentOf("password") == 10 && ContentOf("masked") == 11 && ContentOf("button") == 12
    ensures ContentOf("switch") == 13 && ContentOf("sintList") == 14 && ContentOf("uintList") == 15
  {
    hide ContentOf;
    OldName(1);
    OldName(2);
    OldName(3);
    OldName(4);
    OldName(5);
    OldName(6);
    OldName(7);
    OldName(8);
    OldName(9);
    OldName(10);
    OldName(11);
    OldName(12);
    OldName(13);
    OldName(14);
    OldName(15);
    assert OLD_CONTENTS[0] == "mapped" && OLD_CONTENTS[1] == "ip4Addr" && OLD_CONTENTS[2] == "macAddr";
    assert OLD_CONTENTS[3] == "ip4AddrList" && OLD_CONTENTS[4] == "port" && OLD_CONTENTS[5] == "seconds";
    assert OLD_CONTENTS[6] == "minutes" && OLD_CONTENTS[7] == "hours" && OLD_CONTENTS[8] == "calendar";
    assert OLD_CONTENTS[9] == "password" && OLD_CONTENTS[10] == "masked" && OLD_CONTENTS[11] == "button";
    assert OLD_CONTENTS[12] == "switch" && OLD_CONTENTS[13] == "sintList" && OLD_CONTENTS[14] == "uintList";
  }

  /** Any other name stands for the default. */
  lemma OtherNames(s: string)
    requires forall i :: 0 <= i < 15 ==> !SameNoCase(CONTENTS[i], s) && !SameNoCase(OLD_CONTENTS[i], s)
    ensures ContentOf(s) == 0
  {
    assert |CONTENTS| == 16 && |OLD_CONTENTS| == 15;
    hide SameNoCase, CONTENTS, OLD_CONTENTS, Position;
    NotInTable(CONTENTS[..15], s);
    NotInTable(OLD_CONTENTS, s);
  }

  // ---------- what a node loads as ----------

  /** The text of an attribute cannot be had: there is none, it is no text, or the buffer is too small. */
  predicate NoText(attrs: map<AttrName, Attr>, a: AttrName, cap: nat) {
    a in attrs && attrs[a].Text? ==> |attrs[a].s| > cap
  }

  /** What the attributes of a node say: name, type (a signed integer by default), content type, permission. */
  predicate Says(attrs: map<AttrName, Attr>, cap: nat, name: string, rtype: nat, ctype: nat, permission: u32) {
    && NameAttr in attrs && attrs[NameAttr] == Text(name) && |name| <= cap
    && (if NoText(attrs, TypeAttr, cap) then rtype == 1 else rtype == Position(TYPES, attrs[TypeAttr].s) && rtype > 0)
    && (if NoText(attrs, ContentAttr, cap) then ctype == 0 else ctype == ContentOf(attrs[ContentAttr].s))
    && (if AccessAttr in attrs && attrs[AccessAttr].Num? then permission == attrs[AccessAttr].n
        else permission == ALL_ACCESS)
  }

  /** A node without a name, or whose type is none of the seven, fails. */
  lemma NodeFails(x: Xml, cap: nat)
    requires NoText(x.attrs, NameAttr, cap) ||
             (!NoText(x.attrs, TypeAttr, cap) && Position(TYPES, x.attrs[TypeAttr].s) == 0)
    ensures LoadRecord(x, cap) == Failed
  {
    hide Position, TYPES, LoadValue;
  }

  lemma NodeSays(x: Xml, cap: nat, name: string, rtype: nat, ctype: nat, permission: u32)
    requires Says(x.attrs, cap, name, rtype, ctype, permission)
    ensures LoadRecord(x, cap) == OutcomeOf(LoadValue(rtype, ctype, x.data, cap), name, rtype, ctype, permission)
  {
    hide Position, TYPES, LoadValue, ContentOf, OutcomeOf;
  }

  /** Numbers, in memory low byte first; an enumeration is read as one. */
  lemma LoadsNumber(x: Xml, cap: nat, name: string, rtype: nat, ctype: nat, permission: u32, v: u32)
    requires Says(x.attrs, cap, name, rtype, ctype, permission)
    requires rtype in [1, 2, 6, 7] && ctype != 2 && x.data == Ulong(v)
    ensures LoadRecord(x, cap) ==
            var b := [v % 256, v / 256 % 256, v / 65536 % 256, v / 16777216];
            Added(Record(name, rtype, ctype, permission, Bytes(b)))
  {
    NodeSays(x, cap, name, rtype, ctype, permission);
    hide LoadRecord, Says;
  }

  /** Addresses, of numbers or binary records. */
  lemma LoadsAddress(x: Xml, cap: nat, name: string, rtype: nat, ctype: nat, permission: u32, s: string)
    requires Says(x.attrs, cap, name, rtype, ctype, permission)
    requires rtype in [1, 2, 5, 6, 7] && ctype == 2 && x.data == Str(s) && |s| <= cap
    ensures LoadRecord(x, cap) ==
            if s == "" then Skipped
            else match ParseIp(s)
                 case None => Failed
                 case Some(b) => Added(Record(name, rtype, ctype, permission, Bytes(b)))
  {
    hide LoadRecord, Says, ParseIp, LoadValue;
    NodeSays(x, cap, name, rtype, ctype, permission);
    AddressValue(rtype, ctype, s, cap);
  }

  lemma AddressValue(rtype: nat, ctype: nat, s: string, cap: nat)
    requires rtype in [1, 2, 5, 6, 7] && ctype == 2 && |s| <= cap
    ensures LoadValue(rtype, ctype, Str(s), cap) ==
            if s == "" then NoValue else match ParseIp(s) case None => BadValue case Some(b) => Got(Bytes(b))
  {
    hide ParseIp;
  }

  lemma LoadsFlag(x: Xml, cap: nat, name: string, ctype: nat, permission: u32, on: bool)
    requires Says(x.attrs, cap, name, 3, ctype, permission) && x.data == Flag(on)
    ensures LoadRecord(x, cap) == Added(Record(name, 3, ctype, permission, Bytes([if on then 1 else 0])))
  {
    NodeSays(x, cap, name, 3, ctype, permission);
    hide LoadRecord, Says;
  }

  lemma LoadsText(x: Xml, cap: nat, name: string, ctype: nat, permission: u32, b: seq<u8>)
    requires Says(x.attrs, cap, name, 4, ctype, permission) && x.data.Str? && |x.data.s| == |b|
    requires forall i :: 0 <= i < |b| ==> x.data.s[i] as int == b[i]
    ensures LoadRecord(x, cap) == Added(Record(name, 4, ctype, permission, Bytes(b)))
  {
    NodeSays(x, cap, name, 4, ctype, permission);
    assert Codes(x.data.s) == b;
    hide LoadRecord, Says;
  }

  lemma TimeValue(s: string, cap: nat, c: Calendar)
    requires s != "" && |s| <= cap && ScanFields(s, 6) == Some([c.year, c.month, c.day, c.hour, c.minute, c.second])
    ensures LoadValue(5, 9, Str(s), cap) == Got(Time(UniversalTime(c, 0, false)))
  {
    hide ScanFields;
  }

  /** Times have no milliseconds and no daylight saving. */
  lemma LoadsTime(x: Xml, cap: nat, name: string, permission: u32, s: string, c: Calendar)
    requires Says(x.attrs, cap, name, 5, 9, permission) && x.data == Str(s) && s != "" && |s| <= cap
    requires ScanFields(s, 6) == Some([c.year, c.month, c.day, c.hour, c.minute, c.second])
    ensures LoadRecord(x, cap) == Added(Record(name, 5, 9, permission, Time(UniversalTime(c, 0, false))))
  {
    hide LoadRecord, Says, ScanFields, LoadValue;
    NodeSays(x, cap, name, 5, 9, permission);
    TimeValue(s, cap, c);
  }

  lemma NumbersValue(ctype: nat, s: string, cap: nat)
    requires ctype in [14, 15] && |s| <= cap
    ensures LoadValue(5, ctype, Str(s), cap) ==
            Got(Bytes(match ParseInts(s) case None => [] case Some(xs) => BytesOf(xs)))
  {
    hide ParseInts, BytesOf;
  }

  /** Lists of numbers, four bytes each; a text without any is an empty list. */
  lemma LoadsNumbers(x: Xml, cap: nat, name: string, ctype: nat, permission: u32, s: string)
    requires Says(x.attrs, cap, name, 5, ctype, permission) && ctype in [14, 15] && x.data == Str(s) && |s| <= cap
    ensures LoadRecord(x, cap).Added?
    ensures var r := LoadRecord(x, cap).r;
            && r == Record(name, 5, ctype, permission, Bytes(r.data.b)) && |r.data.b| % 4 == 0
            && (if ParseInts(s).None? then r.data.b == [] else LongsIn(r.data.b) == ParseInts(s).value)
  {
    hide LoadRecord, Says, ParseInts, BytesOf, LongsIn, LoadValue;
    NodeSays(x, cap, name, 5, ctype, permission);
    NumbersValue(ctype, s, cap);
    if ParseInts(s).Some? {
      LongsOfBytes(ParseInts(s).value);
    }
  }

  lemma {:induction false} LongsOfBytes(xs: seq<u32>)
    ensures |BytesOf(xs)| % 4 == 0 && LongsIn(BytesOf(xs)) == xs
    decreases xs
  {
    if xs == [] {
    } else {
      var b := BytesOf(xs);
      LongsOfBytes(xs[1..]);
      LongOfBytes(xs[0]);
      hide LongBytes, LongAt;
      assert b[..4] == LongBytes(xs[0]) && b[4..] == BytesOf(xs[1..]);
      LongAtFront(b);
      assert LongsIn(b) == [LongAt(b)] + LongsIn(b[4..]);
    }
  }

  lemma LongOfBytes(n: u32)
    ensures LongAt(LongBytes(n)) == n
  {
    LongSplit(n);
  }

  /** Lists of addresses; one that is rejected empties the list. */
  lemma LoadsAddresses(x: Xml, cap: nat, name: string, permission: u32, s: string)
    requires Says(x.attrs, cap, name, 5, 4, permission) && x.data == Str(s) && |s| <= cap
    ensures LoadRecord(x, cap) ==
            if s == "" then Skipped
            else Added(Record(name, 5, 4, permission, Bytes(match ParseIps(s) case None => [] case Some(b) => b)))
  {
    NodeSays(x, cap, name, 5, 4, permission);
    hide LoadRecord, Says, ParseIps;
  }

  lemma LoadsMac(x: Xml, cap: nat, name: string, permission: u32, s: string)
    requires Says(x.attrs, cap, name, 5, 3, permission) && x.data == Str(s) && |s| <= cap
    ensures LoadRecord(x, cap) ==
            if s == "" then Skipped
            else match DecodeMac(s)
                 case MacOk(b) => Added(Record(name, 5, 3, permission, Bytes(b)))
                 case _ => Failed
  {
    NodeSays(x, cap, name, 5, 3, permission);
    hide LoadRecord, Says, DecodeMac;
  }

  lemma LoadsBytes(x: Xml, cap: nat, name: string, ctype: nat, permission: u32, b: seq<u8>)
    requires Says(x.attrs, cap, name, 5, ctype, permission) && ctype !in [2, 3, 4, 9, 14, 15] && x.data == Binary(b)
    ensures LoadRecord(x, cap) == Added(Record(name, 5, ctype, permission, Bytes(b)))
  {
    hide LoadRecord, Says, LoadValue;
    NodeSays(x, cap, name, 5, ctype, permission);
    BytesValue(ctype, b, cap);
  }

  lemma BytesValue(ctype: nat, b: seq<u8>, cap: nat)
    requires ctype !in [2, 3, 4, 9, 14, 15]
    ensures LoadValue(5, ctype, Binary(b), cap) == Got(Bytes(b))
  {
  }

  // ---------- what a record is written as ----------

  /** The node of a record: its name and type, its content type unless it is the default, no permission. */
  lemma WrittenNode(r: Record)
    requires Sized(r)
    ensures var x := WriteRecord(r);
            && x.tag == RecordTag && x.children == [] && AccessAttr !in x.attrs
            && NameAttr in x.attrs && x.attrs[NameAttr] == Text(r.name)
            && TypeAttr in x.attrs && x.attrs[TypeAttr] == Text(TYPES[r.rtype - 1])
            && (if r.ctype == 0 then ContentAttr !in x.attrs
                else ContentAttr in x.attrs && x.attrs[ContentAttr] == Text(CONTENTS[r.ctype - 1]))
  {
    hide WriteData, CONTENTS, TYPES;
  }

  // ---------- what comes back of a record ----------

  /** The first four bytes of a number or address, a boolean as 0 or 1, a time to the second, numbers cut. */
  function Kept(r: Record): Payload
    requires Sized(r) && HasWriter(r)
  {
    if r.rtype in [1, 2, 6] || (r.rtype == 5 && r.ctype == 2) then Bytes(r.data.b[..4])
    else if r.rtype == 3 then Bytes([if r.data.b[0] == 0 then 0 else 1])
    else if r.rtype == 5 && r.ctype == 9 then Time(UniversalTime(r.data.t.fields, 0, false))
    else if r.rtype == 5 && r.ctype in [14, 15] then Bytes(BytesOf(Saturated(LongsIn(r.data.b))))
    else r.data
  }

  /**
   Whatever is written loads again: the name, the type, and what is kept of the value; the
   sixteenth content type becomes the default one and the permission the default.
   */
  lemma RecordComesBack(r: Record, cap: nat)
    requires Sized(r) && HasWriter(r) && cap >= TEXT_BUFFER && |r.name| <= cap
    requires r.rtype == 5 && r.ctype == 4 ==> |WriteIps(r.data.b)| <= cap
    ensures LoadRecord(WriteRecord(r), cap) ==
            Added(Record(r.name, r.rtype, if r.ctype == 16 then 0 else r.ctype, ALL_ACCESS, Kept(r)))
  {
    hide LoadValue, WriteData, WriteRecord, LoadRecord, Kept, HasWriter, ContentBack;
    LoadOfWritten(r, cap);
    BackType(r.ctype);
    ValueComesBack(r, cap);
  }

  lemma BackType(ctype: nat)
    requires ctype <= |CONTENTS|
    ensures ContentBack(ctype) == if ctype == 16 then 0 else ctype
  {
    assert |CONTENTS| == 16;
    if ctype == 16 {
      Sixteenth();
    } else if ctype > 0 {
      ContentRoundTripIff(ctype);
      hide ContentOf, CONTENTS;
    }
  }

  /** The sixteenth name is in neither table. */
  lemma Sixteenth()
    ensures ContentOf(CONTENTS[15]) == 0
  {
    NewMarks();
    OldMarks();
    assert CONTENTS[15] == "unknown5" && |CONTENTS| == 16 && |OLD_CONTENTS| == 15;
    forall i | 0 <= i < 15 ensures !SameNoCase(CONTENTS[i], CONTENTS[15]) {
      NotSixteenth(i);
    }
    forall i | 0 <= i < 15 ensures !SameNoCase(OLD_CONTENTS[i], CONTENTS[15]) {
      OldNotSixteenth(i);
    }
    hide SameNoCase, ContentOf, Mark, CONTENTS, OLD_CONTENTS;
    OtherNames(CONTENTS[15]);
  }

  lemma NotSixteenth(i: nat)
    requires i < 15
    ensures !SameNoCase(CONTENTS[i], CONTENTS[15])
  {
    var s := CONTENTS[i];
    assert CONTENTS[15] == "unknown5";
    if |s| == 8 {
      assert LowerChar(s[7]) != '5';
    }
  }

  lemma OldNotSixteenth(i: nat)
    requires i < 15
    ensures !SameNoCase(OLD_CONTENTS[i], CONTENTS[15])
  {
    var s := OLD_CONTENTS[i];
    assert CONTENTS[15] == "unknown5";
    if |s| == 8 {
      assert LowerChar(s[7]) != '5';
    }
  }

  lemma ValueComesBack(r: Record, cap: nat)
    requires Sized(r) && HasWriter(r) && cap >= TEXT_BUFFER
    requires r.rtype == 5 && r.ctype == 4 ==> |WriteIps(r.data.b)| <= cap
    ensures LoadValue(r.rtype, if r.ctype == 16 then 0 else r.ctype, WriteData(r), cap) == Got(Kept(r))
  {
    hide WriteIp, WriteIps, WriteInts, WriteMac, WriteCalendar, ParseIp, ParseInts, ParseIps, DecodeMac, ScanFields;
    hide LongBytes, LongAt;
    if IsLong(r.rtype) {
      var b := r.data.b;
      IpRoundTrip(b[..4]);
      IpLength(b[..4]);
      LongAtFront(b);
      LongBytesAt(b[..4]);
    } else if r.rtype == ASTR {
      CodesOfChars(r.data.b);
    } else if r.rtype == BSTR {
      BinaryComesBack(r, cap);
    }
  }

  lemma BinaryComesBack(r: Record, cap: nat)
    requires Sized(r) && HasWriter(r) && r.rtype == BSTR && cap >= TEXT_BUFFER
    requires r.ctype == 4 ==> |WriteIps(r.data.b)| <= cap
    ensures LoadBinary(if r.ctype == 16 then 0 else r.ctype, WriteBinary(r.ctype, r.data), cap) == Got(Kept(r))
  {
    hide WriteIp, WriteIps, WriteInts, WriteMac, WriteCalendar, ParseIp, ParseInts, ParseIps, DecodeMac, ScanFields;
    if r.data.Time? {
      CalendarRoundTrip(r.data.t.fields);
      CalendarLength(r.data.t.fields);
    } else if r.ctype == IP4_ADDR {
      IpRoundTrip(r.data.b[..4]);
      IpLength(r.data.b[..4]);
    } else if r.ctype == MAC_ADDR {
      BinaryMac(r.data.b, cap);
    } else if r.ctype == SINT_LIST || r.ctype == UINT_LIST {
      BinaryIntsRead(r.ctype, r.data.b, cap);
    } else if r.ctype == IP4_ADDR_LIST {
      BinaryIpsIff(r.data.b, cap);
    }
  }
}
