/**
 MAC addresses and calendar times of source/PsmFileLoader/psm_flo_parse.c: the
 printed forms, what the decoders accept, and that decoding undoes printing.
 */
module MacCalendar {
  import opened CStrings
  import opened Numbers

  // ---------- MAC addresses ----------

  function HexDigit(d: nat): char
    requires d < 16
  {
    if d < 10 then Digit(d) else ('A' as int + d - 10) as char
  }

  /** `%.2X` of a byte. */
  function Hex2(b: u8): string {
    [HexDigit(b / 16), HexDigit(b % 16)]
  }

  /** The text `writeMacAddress` prints: two digits a byte, colons between. */
  function WriteMac(d: seq<u8>): (s: string)
    ensures d != [] ==> |s| == 3 * |d| - 1
  {
    if d == [] then ""
    else if |d| == 1 then Hex2(d[0])
    else Hex2(d[0]) + ":" + WriteMac(d[1..])
  }

  /** What a character means as a hexadecimal digit, in either case. */
  function Nibble(c: char): (n: Option<nat>)
    ensures n.Some? ==> n.value < 16
  {
    if '0' <= c <= '9' then Some(c as int - '0' as int)
    else if 'A' <= c <= 'F' then Some(c as int - 'A' as int + 10)
    else if 'a' <= c <= 'f' then Some(c as int - 'a' as int + 10)
    else None
  }

  /** The outcomes of `decodeMacAddress`: a missing colon or a bad length, or a character that is no digit. */
  datatype MacResult = MacOk(data: seq<u8>) | MacFailure | MacInvalid

  /** The character at position `i` must be a colon in every third place and a digit elsewhere. */
  predicate PlaceOk(s: string, i: nat)
    requires i < |s|
  {
    if i % 3 == 2 then s[i] == ':' else Nibble(s[i]).Some?
  }

  /** The first character that is out of place. */
  function FirstBad(s: string, from: nat): (k: Option<nat>)
    requires from <= |s|
    ensures k.Some? ==> from <= k.value < |s| && !PlaceOk(s, k.value)
    ensures forall i :: from <= i < |s| && (k.Some? ==> i < k.value) ==> PlaceOk(s, i)
    decreases |s| - from
  {
    if from == |s| then None else if !PlaceOk(s, from) then Some(from) else FirstBad(s, from + 1)
  }

  predicate AllPlaced(s: string) {
    |s| % 3 == 2 && forall i :: 0 <= i < |s| ==> PlaceOk(s, i)
  }

  /** The byte of the `j`-th pair of digits. */
  function PairAt(s: string, j: nat): u8
    requires AllPlaced(s) && j <= |s| / 3
  {
    assert PlaceOk(s, 3 * j) && PlaceOk(s, 3 * j + 1);
    Nibble(s[3 * j]).value * 16 + Nibble(s[3 * j + 1]).value
  }

  /** The bytes of a text whose characters are all in place. */
  function MacBytes(s: string): (d: seq<u8>)
    requires AllPlaced(s)
    ensures |d| == |s| / 3 + 1
    ensures forall j :: 0 <= j < |d| ==> d[j] == PairAt(s, j)
  {
    seq(|s| / 3 + 1, j requires 0 <= j <= |s| / 3 => PairAt(s, j))
  }

  /** `decodeMacAddress`. */
  function DecodeMac(s: string): MacResult {
    if |s| % 3 != 2 then MacFailure
    else
      match FirstBad(s, 0)
      case None => MacOk(MacBytes(s))
      case Some(k) => if k % 3 == 2 then MacFailure else MacInvalid
  }

  lemma HexNibble(d: nat)
    requires d < 16
    ensures Nibble(HexDigit(d)) == Some(d)
  {
  }

  /** The characters of a printed address, place by place. */
  lemma {:induction false} WriteMacAt(d: seq<u8>, j: nat)
    requires j < |d|
    ensures WriteMac(d)[3 * j] == HexDigit(d[j] / 16) && WriteMac(d)[3 * j + 1] == HexDigit(d[j] % 16)
    ensures j < |d| - 1 ==> WriteMac(d)[3 * j + 2] == ':'
    decreases d
  {
    if j > 0 {
      WriteMacAt(d[1..], j - 1);
      assert WriteMac(d) == Hex2(d[0]) + ":" + WriteMac(d[1..]);
    }
  }

  lemma WriteMacPlaced(d: seq<u8>)
    requires d != []
    ensures AllPlaced(WriteMac(d))
  {
    var s := WriteMac(d);
    forall i | 0 <= i < |s| ensures PlaceOk(s, i) {
      WriteMacAt(d, i / 3);
      HexNibble(d[i / 3] / 16);
      HexNibble(d[i / 3] % 16);
      hide Nibble, HexDigit, WriteMac;
      assert i == 3 * (i / 3) + i % 3;
    }
  }

  /** Decoding a printed address returns its bytes, whatever their number. */
  lemma MacRoundTrip(d: seq<u8>)
    requires d != []
    ensures DecodeMac(WriteMac(d)) == MacOk(d)
  {
    var s := WriteMac(d);
    WriteMacPlaced(d);
    hide PlaceOk, Nibble, HexDigit, WriteMac;
    forall j | 0 <= j < |d| ensures PairAt(s, j) == d[j] {
      WriteMacAt(d, j);
      HexNibble(d[j] / 16);
      HexNibble(d[j] % 16);
    }
    assert MacBytes(s) == d;
  }

  function UpperChar(c: char): char {
    if 'a' <= c <= 'f' then (c as int - 'a' as int + 'A' as int) as char else c
  }

  /** Printing an accepted text again gives its upper-case form. */
  lemma MacUpperForm(s: string)
    requires DecodeMac(s).MacOk?
    ensures var t := WriteMac(DecodeMac(s).data);
            |t| == |s| && forall i :: 0 <= i < |s| ==> t[i] == UpperChar(s[i])
  {
    var d := DecodeMac(s).data;
    assert AllPlaced(s) && d == MacBytes(s);
    forall i | 0 <= i < |s| ensures WriteMac(d)[i] == UpperChar(s[i]) {
      UpperAt(s, i / 3);
      hide WriteMac, UpperChar, Nibble;
      assert i == 3 * (i / 3) + i % 3;
    }
  }

  /** The characters of the `j`-th group, printed again. */
  lemma UpperAt(s: string, j: nat)
    requires AllPlaced(s) && j <= |s| / 3
    ensures var t := WriteMac(MacBytes(s));
            && t[3 * j] == UpperChar(s[3 * j]) && t[3 * j + 1] == UpperChar(s[3 * j + 1])
            && (3 * j + 2 < |s| ==> t[3 * j + 2] == UpperChar(s[3 * j + 2]))
  {
    var d := MacBytes(s);
    PairUpper(s, j);
    assert 3 * j + 2 < |s| ==> PlaceOk(s, 3 * j + 2);
    hide WriteMac, HexDigit, Nibble;
    assert d[j] == PairAt(s, j);
    WriteMacAt(d, j);
  }

  lemma PairUpper(s: string, j: nat)
    requires AllPlaced(s) && j <= |s| / 3
    ensures HexDigit(PairAt(s, j) / 16) == UpperChar(s[3 * j])
    ensures HexDigit(PairAt(s, j) % 16) == UpperChar(s[3 * j + 1])
  {
    assert PlaceOk(s, 3 * j) && PlaceOk(s, 3 * j + 1);
    NibbleUpper(s[3 * j]);
    NibbleUpper(s[3 * j + 1]);
    hide HexDigit, Nibble, UpperChar;
  }

  lemma NibbleUpper(c: char)
    requires Nibble(c).Some?
    ensures HexDigit(Nibble(c).value) == UpperChar(c)
  {
  }

  // ---------- calendar times ----------

  /** The six fields of a time that are printed. */
  datatype Calendar = Calendar(year: u16, month: u16, day: u16, hour: u16, minute: u16, second: u16)

  /** `%.nd`: at least `w` digits. */
  function Pad(n: nat, w: nat): (s: string)
    ensures AllDigits(s) && s != ""
  {
    Zeros(w - |Dec(n)|) + Dec(n)
  }

  function Zeros(k: int): (s: string)
    ensures AllDigits(s) && |s| == if k > 0 then k else 0
  {
    if k <= 0 then "" else "0" + Zeros(k - 1)
  }

  function WriteCalendar(c: Calendar): string {
    Pad(c.year, 4) + "/" + (Pad(c.month, 2) + "/" + (Pad(c.day, 2) + " " +
    (Pad(c.hour, 2) + ":" + (Pad(c.minute, 2) + ":" + Pad(c.second, 2)))))
  }

  /** Where the next run of digits starts. */
  function NextDigit(s: string): (k: nat)
    ensures k <= |s|
    ensures k < |s| ==> IsDigit(s[k])
    ensures forall i :: 0 <= i < k ==> !IsDigit(s[i])
  {
    if s == "" || IsDigit(s[0]) then 0 else 1 + NextDigit(s[1..])
  }

  /** The digits copied into `value` leave room for its NUL. */
  const VALUE_MAX: nat := 7

  /**
   `decodeCalendar` for the next `n` fields.  None when it would read past the text or
   write past its 8-byte buffer; a field is stored in 16 bits.
   */
  function ScanFields(s: string, n: nat): Option<seq<u16>> {
    if n == 0 then Some([])
    else
      var t := s[NextDigit(s)..];
      var k := DigitSpan(t);
      if k == 0 || k > VALUE_MAX then None
      else
        var field := ULong(Atoi(t[..k])) % 0x1_0000;
        if n == 1 then Some([field])
        else if k == |t| then None
        else
          match ScanFields(t[k + 1..], n - 1)
          case None => None
          case Some(more) => Some([field] + more)
  }

  lemma PadValue(n: u16, w: nat)
    requires w <= 4
    ensures ULong(Atoi(Pad(n, w))) % 0x1_0000 == n
    ensures |Pad(n, w)| <= VALUE_MAX
  {
    hide Atoi, Value, Dec, Zeros;
    var d := Dec(n);
    ZerosAreZero(w - |d|);
    ValueOfPadded(Zeros(w - |d|), d);
    DecValue(n);
    AtoiOfDigits(Pad(n, w), "");
    assert Pad(n, w) + "" == Pad(n, w);
    assert Pow10(5) == 100000 by { assert Pow10(2) == 100 && Pow10(3) == 1000 && Pow10(4) == 10000; }
    DecBound(n, 5);
  }

  function Pow10(k: nat): (p: nat)
    ensures p > 0
  {
    if k == 0 then 1 else 10 * Pow10(k - 1)
  }

  lemma {:induction false} DecBound(n: nat, k: nat)
    requires k > 0 && n < Pow10(k)
    ensures |Dec(n)| <= k
    decreases k
  {
    if n >= 10 {
      DecBound(n / 10, k - 1);
    }
  }

  lemma {:induction false} ZerosAreZero(k: int)
    ensures Value(Zeros(k)) == 0
    decreases k
  {
    if k > 0 {
      ZerosAreZero(k - 1);
      assert Zeros(k) == "0" + Zeros(k - 1);
      ValueOfPadded("0", Zeros(k - 1));
    }
  }

  /** Digits that stand for zero in front of others add nothing. */
  lemma {:induction false} ValueOfPadded(z: string, d: string)
    requires AllDigits(z) && AllDigits(d) && Value(z) == 0
    ensures AllDigits(z + d) && Value(z + d) == Value(d)
    decreases d
  {
    if d == "" {
      assert z + d == z;
    } else {
      var front := d[..|d| - 1];
      ValueOfPadded(z, front);
      assert (z + d)[..|z + d| - 1] == z + front;
    }
  }

  /** A padded field, followed by a separator, is scanned whole. */
  lemma ScanPadded(v: u16, w: nat, c: char, rest: string, n: nat)
    requires w <= 4 && !IsDigit(c)
    ensures ScanFields(Pad(v, w) + [c] + rest, n + 2) ==
            match ScanFields(rest, n + 1) case None => None case Some(more) => Some([v] + more)
  {
    var p := Pad(v, w);
    var s := p + [c] + rest;
    PadValue(v, w);
    assert IsDigit(s[0]) && s[0..] == s;
    assert s[..|p|] == p;
    DigitSpanIs(s, |p|);
    assert s[|p| + 1..] == rest;
    hide Pad, Atoi;
  }

  lemma ScanLast(v: u16, w: nat)
    requires w <= 4
    ensures ScanFields(Pad(v, w), 1) == Some([v])
  {
    var p := Pad(v, w);
    PadValue(v, w);
    assert IsDigit(p[0]) && p[0..] == p && p[..|p|] == p;
    DigitSpanIs(p, |p|);
    hide Pad, Atoi;
  }

  /** The scanner recovers all six fields of a printed time, and never looks past its end. */
  lemma CalendarRoundTrip(c: Calendar)
    ensures ScanFields(WriteCalendar(c), 6) == Some([c.year, c.month, c.day, c.hour, c.minute, c.second])
  {
    hide Pad, ScanFields;
    var s5 := Pad(c.second, 2);
    var s4 := Pad(c.minute, 2) + ":" + s5;
    var s3 := Pad(c.hour, 2) + ":" + s4;
    var s2 := Pad(c.day, 2) + " " + s3;
    var s1 := Pad(c.month, 2) + "/" + s2;
    ScanLast(c.second, 2);
    ScanPadded(c.minute, 2, ':', s5, 0);
    ScanPadded(c.hour, 2, ':', s4, 1);
    ScanPadded(c.day, 2, ' ', s3, 2);
    ScanPadded(c.month, 2, '/', s2, 3);
    ScanPadded(c.year, 4, '/', s1, 4);
    assert WriteCalendar(c) == Pad(c.year, 4) + ['/'] + s1;
    assert [c.year] + ([c.month] + ([c.day] + ([c.hour] + ([c.minute] + [c.second])))) ==
           [c.year, c.month, c.day, c.hour, c.minute, c.second];
  }

  lemma PadBounds(n: u16, w: nat)
    requires w <= 4
    ensures 1 <= |Pad(n, w)| <= VALUE_MAX
  {
    PadValue(n, w);
    hide Pad;
  }

  lemma CalendarLength(c: Calendar)
    ensures 11 <= |WriteCalendar(c)| < 64
  {
    PadBounds(c.year, 4);
    PadBounds(c.month, 2);
    PadBounds(c.day, 2);
    PadBounds(c.hour, 2);
    PadBounds(c.minute, 2);
    PadBounds(c.second, 2);
    hide Pad;
  }
}
